/** The Python string operations the data layer relies on, on byte
    strings: `rpartition` on the extension separator, `lower`, `split` and
    `join` on one separator character, `int` and `str` on integers. */
module Text {
  import opened Wrappers

  // ---------------------------------------------------------------------------
  // Extensions and case

  /** `s.rpartition('.')[2]`: the text after the last '.', or the whole of
      `s` when it holds no '.'. */
  function Extension(s: string): (e: string)
    ensures '.' !in e
    ensures |e| <= |s| && e == s[|s| - |e|..]
  {
    if |s| == 0 then s
    else if s[|s| - 1] == '.' then ""
    else Extension(s[..|s| - 1]) + [s[|s| - 1]]
  }

  /** Without a '.' the extension is the whole name. */
  lemma {:induction false} ExtensionOfPlainName(s: string)
    requires '.' !in s
    ensures Extension(s) == s
  {
    if |s| > 0 {
      ExtensionOfPlainName(s[..|s| - 1]);
      assert s[..|s| - 1] + [s[|s| - 1]] == s;
    }
  }

  /** The extension of `base.ext` is `ext`, whatever `base` holds. */
  lemma {:induction false} ExtensionAfterLastDot(base: string, ext: string)
    requires '.' !in ext
    ensures Extension(base + "." + ext) == ext
  {
    if |ext| == 0 {
      assert (base + "." + ext)[|base + "." + ext| - 1] == '.';
    } else {
      var s := base + "." + ext;
      var last := ext[|ext| - 1];
      var init := ext[..|ext| - 1];
      assert s[..|s| - 1] == base + "." + init;
      assert forall k :: 0 <= k < |init| ==> init[k] == ext[k];
      ExtensionAfterLastDot(base, init);
      assert init + [last] == ext;
    }
  }

  /** `c.lower()` on an ASCII character. */
  function LowerChar(c: char): char
  {
    if 'A' <= c <= 'Z' then (c as int - 'A' as int + 'a' as int) as char else c
  }

  /** `s.lower()`: every ASCII capital made small, nothing else changed. */
  function Lower(s: string): (r: string)
    ensures |r| == |s|
  {
    seq(|s|, i requires 0 <= i < |s| => LowerChar(s[i]))
  }

  /** `s` has no ASCII capital. */
  predicate IsLower(s: string)
  {
    forall i :: 0 <= i < |s| ==> !('A' <= s[i] <= 'Z')
  }

  /** Lower-casing leaves no capital, keeps every other character and
      changes nothing a second time; it keeps a '.' out of a string that
      had none. */
  lemma LowerProperties(s: string)
    ensures IsLower(Lower(s))
    ensures forall i :: 0 <= i < |s| && !('A' <= s[i] <= 'Z') ==> Lower(s)[i] == s[i]
    ensures Lower(Lower(s)) == Lower(s)
    ensures '.' !in s ==> '.' !in Lower(s)
  {
    var r := Lower(s);
    forall i | 0 <= i < |s|
      ensures LowerChar(r[i]) == r[i]
    {
    }
    if '.' in r {
      var i :| 0 <= i < |r| && r[i] == '.';
      assert s[i] == '.';
    }
  }

  // ---------------------------------------------------------------------------
  // split and join on one separator

  /** `s.split(sep)`: the pieces between the separators, empty pieces
      included, so there is always one more piece than separators. */
  function Split(s: string, sep: char): (parts: seq<string>)
    ensures |parts| > 0
  {
    if |s| == 0 then [""]
    else
      var rest := Split(s[1..], sep);
      if s[0] == sep then [""] + rest
      else [[s[0]] + rest[0]] + rest[1..]
  }

  /** `sep.join(parts)`. */
  function Join(parts: seq<string>, sep: char): string
  {
    if |parts| == 0 then ""
    else if |parts| == 1 then parts[0]
    else parts[0] + [sep] + Join(parts[1..], sep)
  }

  /** No piece of the list holds the separator. */
  predicate Free(parts: seq<string>, sep: char)
  {
    forall k :: 0 <= k < |parts| ==> sep !in parts[k]
  }

  /** A string without the separator splits into itself alone. */
  lemma {:induction false} SplitPlain(a: string, sep: char)
    requires sep !in a
    ensures Split(a, sep) == [a]
  {
    if |a| > 0 {
      SplitPlain(a[1..], sep);
      assert [a[0]] + a[1..] == a;
    }
  }

  /** Splitting at the first separator: the piece before it, then the
      pieces of the rest. */
  lemma {:induction false} SplitAtFirst(a: string, b: string, sep: char)
    requires sep !in a
    ensures Split(a + [sep] + b, sep) == [a] + Split(b, sep)
  {
    if |a| == 0 {
      assert a + [sep] + b == [sep] + b;
      assert ([sep] + b)[1..] == b;
    } else {
      SplitAtFirst(a[1..], b, sep);
      assert (a + [sep] + b)[1..] == a[1..] + [sep] + b;
      assert [a[0]] + a[1..] == a;
    }
  }

  /** `split` undoes `join` on a non-empty list of pieces that do not hold
      the separator. */
  lemma {:induction false} SplitJoin(parts: seq<string>, sep: char)
    requires |parts| > 0 && Free(parts, sep)
    ensures Split(Join(parts, sep), sep) == parts
  {
    if |parts| == 1 {
      SplitPlain(parts[0], sep);
    } else {
      assert Free(parts[1..], sep);
      SplitJoin(parts[1..], sep);
      SplitAtFirst(parts[0], Join(parts[1..], sep), sep);
      assert [parts[0]] + parts[1..] == parts;
    }
  }

  /** `join` undoes `split` on every string. */
  lemma {:induction false} JoinSplit(s: string, sep: char)
    ensures Join(Split(s, sep), sep) == s
  {
    if |s| > 0 {
      var rest := Split(s[1..], sep);
      JoinSplit(s[1..], sep);
      if s[0] == sep {
        assert ([""] + rest)[1..] == rest;
        assert Join([""] + rest, sep) == "" + [sep] + Join(rest, sep);
        assert [s[0]] + s[1..] == s;
      } else {
        var parts := [[s[0]] + rest[0]] + rest[1..];
        assert parts[1..] == rest[1..];
        if |rest| == 1 {
          assert [s[0]] + s[1..] == s;
        } else {
          assert Join(rest, sep) == rest[0] + [sep] + Join(rest[1..], sep);
          assert [s[0]] + s[1..] == s;
        }
      }
    }
  }

  // ---------------------------------------------------------------------------
  // int() and str() on integers

  predicate IsDigit(c: char)
  {
    '0' <= c <= '9'
  }

  /** The value of a string of decimal digits. */
  function DigitsValue(s: string): (n: nat)
    requires forall i :: 0 <= i < |s| ==> IsDigit(s[i])
  {
    if |s| == 0 then 0
    else
      assert IsDigit(s[|s| - 1]);
      DigitsValue(s[..|s| - 1]) * 10 + (s[|s| - 1] as int - '0' as int)
  }

  /** `int(s)` on an optionally negative run of decimal digits; anything
      else is no integer. */
  function ParseInt(s: string): (r: Option<int>)
    ensures r.Some? ==> |s| > 0
  {
    var neg := |s| > 0 && s[0] == '-';
    var digits := if neg then s[1..] else s;
    if |digits| > 0 && forall i :: 0 <= i < |digits| ==> IsDigit(digits[i]) then
      var v: int := DigitsValue(digits);
      Some(if neg then -v else v)
    else None
  }

  /** `str(n)` on a natural number: its decimal digits, without leading
      zeros. */
  function ShowNat(n: nat): (s: string)
    ensures |s| > 0 && forall i :: 0 <= i < |s| ==> IsDigit(s[i])
  {
    if n < 10 then [('0' as int + n) as char]
    else ShowNat(n / 10) + [('0' as int + n % 10) as char]
  }

  /** `str(x)` on an integer. */
  function ShowInt(x: int): string
  {
    if x < 0 then "-" + ShowNat(-x) else ShowNat(x)
  }

  lemma {:induction false} ShowNatValue(n: nat)
    ensures DigitsValue(ShowNat(n)) == n
  {
    if n >= 10 {
      ShowNatValue(n / 10);
      var s := ShowNat(n);
      assert s[..|s| - 1] == ShowNat(n / 10);
    }
  }

  /** `int` undoes `str`: the decimal text of every integer parses back to
      it. */
  lemma ParseShowInt(x: int)
    ensures ParseInt(ShowInt(x)) == Some(x)
  {
    if x < 0 {
      ShowNatValue(-x);
      assert ("-" + ShowNat(-x))[1..] == ShowNat(-x);
    } else {
      ShowNatValue(x);
    }
  }

  /** The text of an integer never holds a space or a '='. */
  lemma ShowIntPlain(x: int)
    ensures ' ' !in ShowInt(x) && '=' !in ShowInt(x)
  {
    var s := if x < 0 then ShowNat(-x) else ShowNat(x);
    assert forall i :: 0 <= i < |s| ==> IsDigit(s[i]);
  }
}
