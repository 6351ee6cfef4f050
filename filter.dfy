/** The in-place filters of `filter.c`. Each walks the channels of a
    fragment and rewrites their samples; each is proved to turn the old
    sample view into the matching function of module Signal. */
module Filter {
  import opened Signal
  import opened Fragments

  /** `splat_filter_dec_envelope`: sample `i` of every channel is divided
      by (1 + i/k)^p. */
  method DecEnvelope(frag: Fragment, k: real, p: nat)
    requires frag.Valid() && DivisorsNonZero(k, p, frag.length)
    modifies frag.data
    ensures frag.Valid()
    ensures frag.Samples() == Enveloped(old(frag.Samples()), frag.length, k, p)
  {
    ghost var s := frag.Samples();
    for c := 0 to frag.channels
      invariant forall c', i :: 0 <= c' < frag.channels && 0 <= i < frag.length ==>
                  frag.data[c', i] == if c' < c then s[c'][i] / Divisor(i, k, p) else s[c'][i]
    {
      for i := 0 to frag.length
        invariant forall c', i' :: 0 <= c' < frag.channels && 0 <= i' < frag.length ==>
                    frag.data[c', i'] == if c' < c || (c' == c && i' < i) then s[c'][i'] / Divisor(i', k, p) else s[c'][i']
      {
        frag.data[c, i] := frag.data[c, i] / Divisor(i, k, p);
      }
    }
    frag.SamplesAre(Enveloped(s, frag.length, k, p));
  }

  /** `splat_filter_reverse`: every channel read back to front, by swapping
      sample `i` with sample `j` while `i < j`. The indices are unbounded
      integers here, so an empty fragment leaves the loop at once. */
  method Reverse(frag: Fragment)
    requires frag.Valid()
    modifies frag.data
    ensures frag.Valid()
    ensures frag.Samples() == ReversedAll(old(frag.Samples()))
  {
    ghost var s := frag.Samples();
    for c := 0 to frag.channels
      invariant forall c', k :: 0 <= c' < frag.channels && 0 <= k < frag.length ==>
                  frag.data[c', k] == if c' < c then Reversed(s[c'])[k] else s[c'][k]
    {
      ReverseChannel(frag, c);
    }
    frag.SamplesAre(ReversedAll(s));
  }

  /** The swap loop on channel `c` alone. */
  method ReverseChannel(frag: Fragment, c: nat)
    requires frag.Valid() && c < frag.channels
    modifies frag.data
    ensures forall c', k :: 0 <= c' < frag.channels && 0 <= k < frag.length ==>
              frag.data[c', k] == if c' == c then old(frag.data[c, frag.length - 1 - k]) else old(frag.data[c', k])
  {
    var n := frag.length;
    var i: int, j: int := 0, n - 1;
    while i < j
      invariant 0 <= i <= j + 1 && j == n - 1 - i
      invariant forall c', k :: 0 <= c' < frag.channels && 0 <= k < n ==>
                  frag.data[c', k] ==
                    if c' == c && (k < i || k > j) then old(frag.data[c, n - 1 - k]) else old(frag.data[c', k])
    {
      var t := frag.data[c, i];
      frag.data[c, i] := frag.data[c, j];
      frag.data[c, j] := t;
      i, j := i + 1, j - 1;
    }
  }

  /** `splat_filter_reverb`: in every channel `c`, walk the indices from
      `maxIndex` down to 0 and add the sample at `i`, scaled by each tap's
      gain, to the sample `time` after it. The caller guarantees every
      write index lies inside the fragment. `s` names the samples before
      the walk and `n` the size of the walked window. */
  method ReverbWalk(frag: Fragment, delays: seq<seq<Delay>>, maxIndex: nat, ghost s: seq<seq<real>>, ghost n: nat)
    requires frag.Valid() && |delays| == frag.channels && maxIndex < frag.length
    requires frag.Samples() == s && n == maxIndex + 1
    requires forall c, d :: 0 <= c < |delays| && 0 <= d < |delays[c]| ==>
               maxIndex + delays[c][d].time < frag.length
    modifies frag.data
    ensures frag.Valid()
    ensures frag.Samples() == ReverbAll(s, delays, n)
  {
    for c := 0 to frag.channels
      invariant forall c', k :: 0 <= c' < frag.channels && 0 <= k < frag.length ==>
                  frag.data[c', k] ==
                    if c' < c then Reverberated(s[c'], delays[c'], maxIndex + 1)[k] else s[c'][k]
    {
      ReverbChannel(frag, c, s[c], delays[c], maxIndex);
    }
    frag.SamplesAre(ReverbAll(s, delays, maxIndex + 1));
  }

  /** The downward walk on channel `c` alone, whose samples are `ch`. Every
      write goes to an index at or above the one read, so each sample read
      still holds its original value. */
  method ReverbChannel(frag: Fragment, c: nat, ghost ch: seq<real>, taps: seq<Delay>, maxIndex: nat)
    requires frag.Valid() && c < frag.channels && maxIndex < frag.length
    requires |ch| == frag.length && forall k :: 0 <= k < |ch| ==> frag.data[c, k] == ch[k]
    requires forall d :: 0 <= d < |taps| ==> maxIndex + taps[d].time < frag.length
    modifies frag.data
    ensures forall k :: 0 <= k < |ch| ==> frag.data[c, k] == Reverberated(ch, taps, maxIndex + 1)[k]
    ensures forall c', k :: 0 <= c' < frag.channels && c' != c && 0 <= k < frag.length ==>
              frag.data[c', k] == old(frag.data[c', k])
  {
    var i: int := maxIndex;
    ghost var hi := maxIndex + 1;
    forall k: nat | k < |ch|
      ensures Echo(ch, taps, hi, hi, k) == 0.0
    {
      EchoEmptyWindow(ch, taps, hi, k);
    }
    while i >= 0
      invariant -1 <= i <= maxIndex
      invariant forall k :: 0 <= k < |ch| ==> frag.data[c, k] == ch[k] + Echo(ch, taps, i + 1, hi, k)
      invariant forall c', k :: 0 <= c' < frag.channels && c' != c && 0 <= k < frag.length ==>
                  frag.data[c', k] == old(frag.data[c', k])
    {
      ghost var lo := i + 1;
      ghost var before := seq(|ch|, k requires 0 <= k < |ch| => ch[k] + Echo(ch, taps, lo, hi, k));
      EchoFromAbove(ch, taps, lo, hi, i);
      EchoTaps(frag, c, ch, taps, i, before);
      forall k: nat | k < |ch|
        ensures Echo(ch, taps, i, lo, k) + Echo(ch, taps, lo, hi, k) == Echo(ch, taps, i, hi, k)
      {
        EchoSplit(ch, taps, i, lo, hi, k);
      }
      i := i - 1;
    }
  }

  /** The tap loop at index `i` of channel `c`: each tap adds the sample
      at `i`, which is still the original `ch[i]`, scaled by its gain, to
      the sample `time` after it. */
  method EchoTaps(frag: Fragment, c: nat, ghost ch: seq<real>, taps: seq<Delay>, i: nat, ghost before: seq<real>)
    requires frag.Valid() && c < frag.channels && |ch| == |before| == frag.length && i < |ch|
    requires forall k :: 0 <= k < |ch| ==> frag.data[c, k] == before[k]
    requires before[i] == ch[i]
    requires forall d :: 0 <= d < |taps| ==> i + taps[d].time < frag.length
    modifies frag.data
    ensures forall k :: 0 <= k < |ch| ==> frag.data[c, k] == before[k] + Echo(ch, taps, i, i + 1, k)
    ensures forall c', k :: 0 <= c' < frag.channels && c' != c && 0 <= k < frag.length ==>
              frag.data[c', k] == old(frag.data[c', k])
  {
    var sample := frag.data[c, i];
    for d := 0 to |taps|
      invariant forall k :: 0 <= k < |ch| ==> frag.data[c, k] == before[k] + Echo(ch, taps[..d], i, i + 1, k)
      invariant forall c', k :: 0 <= c' < frag.channels && c' != c && 0 <= k < frag.length ==>
                  frag.data[c', k] == old(frag.data[c', k])
    {
      var j := i + taps[d].time;
      ghost var upTo, next, i1 := taps[..d], taps[..d + 1], i + 1;
      forall k: nat | k < |ch|
        ensures Echo(ch, next, i, i1, k) == Echo(ch, upTo, i, i1, k) + (if k == j then sample * taps[d].gain else 0.0)
      {
        EchoTapStep(ch, taps, d, i, k);
      }
      frag.data[c, j] := frag.data[c, j] + sample * taps[d].gain;
    }
    assert taps[..|taps|] == taps;
  }

  /** Adding tap `d` to the taps before it adds, at index `i + time`, the
      sample at `i` scaled by the tap's gain, and nothing elsewhere. */
  lemma EchoTapStep(ch: seq<real>, taps: seq<Delay>, d: nat, i: nat, k: nat)
    requires d < |taps| && i < |ch|
    ensures Echo(ch, taps[..d + 1], i, i + 1, k) ==
              Echo(ch, taps[..d], i, i + 1, k) + (if k == i + taps[d].time then ch[i] * taps[d].gain else 0.0)
  {
    assert taps[..d + 1][..d] == taps[..d];
  }

  // ---------------------------------------------------------------------------
  // The index arithmetic as written, on 64-bit `size_t`

  /** 2^64: `size_t` arithmetic is modulo this. */
  const SizeModulus: int := 0x1_0000_0000_0000_0000

  /** `a - b` on `size_t`: wraps around below zero. */
  function SizeSub(a: nat, b: nat): (r: nat)
    requires a < SizeModulus && b < SizeModulus
    ensures r < SizeModulus
    ensures b <= a ==> r == a - b
    ensures a < b ==> r == a - b + SizeModulus
  {
    (a - b) % SizeModulus
  }

  /** `length - 1` on `size_t`, as written: the first `j` of the swap loop
      of `reverse`, and `max_index` of `geomusic_reverb`, taken before the
      growth. */
  function LastIndex(length: nat): nat
    requires length < SizeModulus
  {
    SizeSub(length, 1)
  }

  /** As written, a non-empty fragment starts the swaps at its last sample,
      as `Reverse` does; an empty one starts at j = 2^64 - 1, so the loop is
      entered (0 < j) and reads a sample of a channel that has none. */
  lemma ReverseEmptyAsWritten(length: nat)
    requires length < SizeModulus
    ensures length > 0 ==> LastIndex(length) == length - 1
    ensures length == 0 ==> LastIndex(length) == SizeModulus - 1 && 0 < LastIndex(length)
  {
  }

  /** As written, a non-empty fragment starts the walk inside the grown
      buffer of `length + maxDelay` samples; an empty one starts it at
      2^64 - 1, outside the grown buffer whatever the delays. */
  lemma ReverbEmptyAsWritten(length: nat, maxDelay: nat)
    requires length + maxDelay < SizeModulus
    ensures length > 0 ==> LastIndex(length) < length + maxDelay
    ensures length == 0 ==> LastIndex(length) == SizeModulus - 1 && LastIndex(length) >= length + maxDelay
  {
  }
}
