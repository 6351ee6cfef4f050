/** Value-level specifications of what the whole-buffer operations of a
    Fragment do to its samples.  A fragment's contents are viewed as one
    sequence of samples per channel; every imperative operation of the
    model is proved to turn the old view into one of the functions below,
    and the lemmas here state what those functions mean. */
module Signal {

  /** `s` holds `channels` channels of exactly `length` samples each: the
      Fragment invariant that every channel buffer has the same length. */
  predicate Rect(s: seq<seq<real>>, channels: nat, length: nat)
  {
    |s| == channels && forall c :: 0 <= c < |s| ==> |s[c]| == length
  }

  function Max(a: nat, b: nat): nat
  {
    if a < b then b else a
  }

  /** `channels` channels of `length` zero samples. */
  function Silence(channels: nat, length: nat): (s: seq<seq<real>>)
    ensures Rect(s, channels, length)
  {
    seq(channels, _ => seq(length, _ => 0.0))
  }

  // ---------------------------------------------------------------------------
  // Growth (do_resize)

  /** One channel after growing to `n` samples: never shrinks, zero-fills. */
  function Grow(ch: seq<real>, n: nat): (r: seq<real>)
    ensures |r| == Max(|ch|, n)
  {
    if n <= |ch| then ch else ch + seq(n - |ch|, _ => 0.0)
  }

  /** Every channel grown to `n` samples. */
  function Grown(s: seq<seq<real>>, n: nat): (r: seq<seq<real>>)
    ensures |r| == |s| && forall c :: 0 <= c < |s| ==> r[c] == Grow(s[c], n)
  {
    seq(|s|, c requires 0 <= c < |s| => Grow(s[c], n))
  }

  /** Growing keeps the channel count, sets the length to the larger of the
      two, keeps every old sample and makes every new one zero. */
  lemma GrownAt(s: seq<seq<real>>, channels: nat, length: nat, n: nat)
    requires Rect(s, channels, length)
    ensures Rect(Grown(s, n), channels, Max(length, n))
    ensures forall c, i :: 0 <= c < channels && 0 <= i < Max(length, n) ==>
              Grown(s, n)[c][i] == if i < length then s[c][i] else 0.0
  {
  }

  /** Asking for a length that is not larger changes nothing. */
  lemma GrownNoShrink(s: seq<seq<real>>, channels: nat, length: nat, n: nat)
    requires Rect(s, channels, length) && n <= length
    ensures Grown(s, n) == s
  {
    forall c | 0 <= c < channels
      ensures Grown(s, n)[c] == s[c]
    {
    }
  }

  /** Two growths are one growth to the larger length: growth is the single,
      monotonic path by which a fragment gets longer. */
  lemma GrownTwice(s: seq<seq<real>>, channels: nat, length: nat, m: nat, n: nat)
    requires Rect(s, channels, length)
    ensures Grown(Grown(s, m), n) == Grown(s, Max(m, n))
  {
    GrownAt(s, channels, length, m);
    GrownAt(Grown(s, m), channels, Max(length, m), n);
    GrownAt(s, channels, length, Max(m, n));
    forall c | 0 <= c < channels
      ensures Grown(Grown(s, m), n)[c] == Grown(s, Max(m, n))[c]
    {
    }
  }

  // ---------------------------------------------------------------------------
  // Sample access (sq_item, sq_ass_item)

  /** The tuple of samples at index `i`, one per channel. */
  function Frame(s: seq<seq<real>>, i: nat): (f: seq<real>)
    requires forall c :: 0 <= c < |s| ==> i < |s[c]|
    ensures |f| == |s|
  {
    seq(|s|, c requires 0 <= c < |s| => s[c][i])
  }

  /** Every channel `c` with its sample at `i` replaced by `v[c]`. */
  function SetFrame(s: seq<seq<real>>, i: nat, v: seq<real>): seq<seq<real>>
    requires |v| == |s| && forall c :: 0 <= c < |s| ==> i < |s[c]|
  {
    seq(|s|, c requires 0 <= c < |s| => s[c][i := v[c]])
  }

  /** Reading back a frame that was just written gives the written values,
      and no other index of any channel changes. */
  lemma SetThenGet(s: seq<seq<real>>, channels: nat, length: nat, i: nat, j: nat, v: seq<real>)
    requires Rect(s, channels, length) && i < length && j < length && |v| == channels
    ensures Rect(SetFrame(s, i, v), channels, length)
    ensures Frame(SetFrame(s, i, v), i) == v
    ensures j != i ==> Frame(SetFrame(s, i, v), j) == Frame(s, j)
  {
  }

  /** Writing back the frame that is already there changes nothing. */
  lemma SetOwnFrame(s: seq<seq<real>>, channels: nat, length: nat, i: nat)
    requires Rect(s, channels, length) && i < length
    ensures SetFrame(s, i, Frame(s, i)) == s
  {
    forall c | 0 <= c < channels
      ensures SetFrame(s, i, Frame(s, i))[c] == s[c]
    {
    }
  }

  // ---------------------------------------------------------------------------
  // Mixing (mix)

  /** Channel `d` with channel `src` added in from index `k` on, after
      growing `d` so that the shifted source fits. */
  function MixChannel(d: seq<real>, src: seq<real>, k: nat): seq<real>
  {
    var g := Grow(d, k + |src|);
    seq(|g|, j requires 0 <= j < |g| => g[j] + (if k <= j < k + |src| then src[j - k] else 0.0))
  }

  /** Fragment `dst` with fragment `src` mixed in from sample `k` on. */
  function Mixed(dst: seq<seq<real>>, src: seq<seq<real>>, k: nat): seq<seq<real>>
    requires |src| == |dst|
  {
    seq(|dst|, c requires 0 <= c < |dst| => MixChannel(dst[c], src[c], k))
  }

  /** What mixing does sample by sample: the new length is the larger of the
      old length and the end of the shifted source; inside the window
      [k, k + srcLength) each sample is the old one (zero past the old end)
      plus the source sample it lines up with; outside the window the old
      samples are kept and any grown region stays zero. */
  lemma MixedAt(dst: seq<seq<real>>, src: seq<seq<real>>, channels: nat, length: nat, srcLength: nat, k: nat)
    requires Rect(dst, channels, length) && Rect(src, channels, srcLength)
    ensures Rect(Mixed(dst, src, k), channels, Max(length, k + srcLength))
    ensures forall c, j :: 0 <= c < channels && 0 <= j < Max(length, k + srcLength) ==>
              Mixed(dst, src, k)[c][j] ==
                (if j < length then dst[c][j] else 0.0) +
                (if k <= j < k + srcLength then src[c][j - k] else 0.0)
  {
  }

  /** Mixing into an empty fragment at offset 0 copies the source: this is
      how `Fragment.dup` duplicates a fragment. */
  lemma MixIntoEmptyCopies(src: seq<seq<real>>, channels: nat, srcLength: nat)
    requires Rect(src, channels, srcLength)
    ensures Mixed(Silence(channels, 0), src, 0) == src
  {
    forall c | 0 <= c < channels
      ensures Mixed(Silence(channels, 0), src, 0)[c] == src[c]
    {
      assert Silence(channels, 0)[c] == [];
    }
  }

  /** Mixing two fragments in either order gives the same result. */
  lemma MixOrderIrrelevant(d: seq<seq<real>>, a: seq<seq<real>>, b: seq<seq<real>>, ka: nat, kb: nat)
    requires |a| == |d| && |b| == |d|
    ensures Mixed(Mixed(d, a, ka), b, kb) == Mixed(Mixed(d, b, kb), a, ka)
  {
    forall c | 0 <= c < |d|
      ensures Mixed(Mixed(d, a, ka), b, kb)[c] == Mixed(Mixed(d, b, kb), a, ka)[c]
    {
      MixChannelOrder(d[c], a[c], b[c], ka, kb);
    }
  }

  lemma MixChannelOrder(d: seq<real>, a: seq<real>, b: seq<real>, ka: nat, kb: nat)
    ensures MixChannel(MixChannel(d, a, ka), b, kb) == MixChannel(MixChannel(d, b, kb), a, ka)
  {
    var x, y := MixChannel(MixChannel(d, a, ka), b, kb), MixChannel(MixChannel(d, b, kb), a, ka);
    var n := Max(|d|, Max(ka + |a|, kb + |b|));
    assert |x| == n && |y| == n;
    forall j | 0 <= j < n
      ensures x[j] == y[j]
    {
      var dj := if j < |d| then d[j] else 0.0;
      var aj := if ka <= j < ka + |a| then a[j - ka] else 0.0;
      var bj := if kb <= j < kb + |b| then b[j - kb] else 0.0;
      ChannelMixAt(d, a, ka, j);
      ChannelMixAt(d, b, kb, j);
      ChannelMixAt(MixChannel(d, a, ka), b, kb, j);
      ChannelMixAt(MixChannel(d, b, kb), a, ka, j);
      assert x[j] == dj + aj + bj;
      assert y[j] == dj + bj + aj;
    }
  }

  /** Sample `j` of a mixed channel, with zero standing for samples past
      either operand's end. */
  lemma ChannelMixAt(d: seq<real>, src: seq<real>, k: nat, j: nat)
    ensures |MixChannel(d, src, k)| == Max(|d|, k + |src|)
    ensures j < Max(|d|, k + |src|) ==>
              MixChannel(d, src, k)[j] ==
                (if j < |d| then d[j] else 0.0) + (if k <= j < k + |src| then src[j - k] else 0.0)
  {
  }

  // ---------------------------------------------------------------------------
  // Gain (amp)

  /** Every sample of channel `c` multiplied by `gains[c]`. */
  function Scaled(s: seq<seq<real>>, gains: seq<real>): seq<seq<real>>
    requires |gains| == |s|
  {
    seq(|s|, c requires 0 <= c < |s| => seq(|s[c]|, i requires 0 <= i < |s[c]| => s[c][i] * gains[c]))
  }

  /** A gain of 1 on every channel leaves the fragment as it is. */
  lemma ScaledByOne(s: seq<seq<real>>, gains: seq<real>)
    requires |gains| == |s| && forall c :: 0 <= c < |gains| ==> gains[c] == 1.0
    ensures Scaled(s, gains) == s
  {
    forall c | 0 <= c < |s|
      ensures Scaled(s, gains)[c] == s[c]
    {
    }
  }

  /** Two successive gains are one gain by their product, per channel. */
  lemma ScaledTwice(s: seq<seq<real>>, g: seq<real>, h: seq<real>)
    requires |g| == |s| && |h| == |s|
    ensures Scaled(Scaled(s, g), h) == Scaled(s, seq(|s|, c requires 0 <= c < |s| => g[c] * h[c]))
  {
    var gh := seq(|s|, c requires 0 <= c < |s| => g[c] * h[c]);
    forall c, i | 0 <= c < |s| && 0 <= i < |s[c]|
      ensures Scaled(Scaled(s, g), h)[c][i] == Scaled(s, gh)[c][i]
    {
      assert (s[c][i] * g[c]) * h[c] == s[c][i] * (g[c] * h[c]);
    }
    forall c | 0 <= c < |s|
      ensures Scaled(Scaled(s, g), h)[c] == Scaled(s, gh)[c]
    {
    }
  }

  // ---------------------------------------------------------------------------
  // Reversal (reverse)

  /** A channel read back to front. */
  function Reversed(ch: seq<real>): (r: seq<real>)
    ensures |r| == |ch|
  {
    seq(|ch|, i requires 0 <= i < |ch| => ch[|ch| - 1 - i])
  }

  function ReversedAll(s: seq<seq<real>>): seq<seq<real>>
  {
    seq(|s|, c requires 0 <= c < |s| => Reversed(s[c]))
  }

  /** Reversing twice gives back every channel, sample for sample. */
  lemma ReverseInvolution(s: seq<seq<real>>)
    ensures ReversedAll(ReversedAll(s)) == s
  {
    forall c | 0 <= c < |s|
      ensures ReversedAll(ReversedAll(s))[c] == s[c]
    {
      assert Reversed(Reversed(s[c])) == s[c];
    }
  }

  /** Reversal keeps the shape, and in a channel of odd length the middle
      sample stays where it is. */
  lemma ReverseKeepsMiddle(s: seq<seq<real>>, channels: nat, length: nat)
    requires Rect(s, channels, length)
    ensures Rect(ReversedAll(s), channels, length)
    ensures length % 2 == 1 ==>
              forall c :: 0 <= c < channels ==> ReversedAll(s)[c][length / 2] == s[c][length / 2]
  {
  }

  // ---------------------------------------------------------------------------
  // Decreasing envelope (dec_envelope)

  /** `x` to the natural power `p`. */
  function Pow(x: real, p: nat): real
  {
    if p == 0 then 1.0 else x * Pow(x, p - 1)
  }

  /** The divisor applied to sample `i`: (1 + i/k)^p. */
  function Divisor(i: nat, k: real, p: nat): real
    requires k != 0.0
  {
    Pow(1.0 + (i as real) / k, p)
  }

  /** No sample among the first `n` is divided by zero. */
  predicate DivisorsNonZero(k: real, p: nat, n: nat)
  {
    k != 0.0 && forall i: nat :: i < n ==> Divisor(i, k, p) != 0.0
  }

  /** Every sample `i` of every channel divided by (1 + i/k)^p. */
  function Enveloped(s: seq<seq<real>>, length: nat, k: real, p: nat): seq<seq<real>>
    requires Rect(s, |s|, length) && DivisorsNonZero(k, p, length)
  {
    seq(|s|, c requires 0 <= c < |s| =>
      seq(length, i requires 0 <= i < length => s[c][i] / Divisor(i, k, p)))
  }

  lemma {:induction false} PowOfOne(p: nat)
    ensures Pow(1.0, p) == 1.0
  {
    if p > 0 {
      PowOfOne(p - 1);
    }
  }

  lemma {:induction false} PowAtLeastOne(x: real, p: nat)
    requires x >= 1.0
    ensures Pow(x, p) >= 1.0
  {
    if p > 0 {
      PowAtLeastOne(x, p - 1);
      var y := Pow(x, p - 1);
      assert x * y - y == (x - 1.0) * y;
      assert (x - 1.0) * y >= 0.0;
    }
  }

  /** The envelope keeps the shape and never touches sample 0, whose divisor
      is 1^p = 1. */
  lemma EnvelopeKeepsFirst(s: seq<seq<real>>, channels: nat, length: nat, k: real, p: nat)
    requires Rect(s, channels, length) && DivisorsNonZero(k, p, length)
    ensures Rect(Enveloped(s, length, k, p), channels, length)
    ensures length > 0 ==> Frame(Enveloped(s, length, k, p), 0) == Frame(s, 0)
  {
    if length > 0 {
      assert 1.0 + (0 as real) / k == 1.0;
      PowOfOne(p);
      assert Divisor(0, k, p) == 1.0;
      var e := Enveloped(s, length, k, p);
      forall c | 0 <= c < |s|
        ensures e[c][0] == s[c][0]
      {
      }
    }
  }

  /** With a positive `k` the envelope only attenuates: no sample grows in
      magnitude. */
  lemma EnvelopeAttenuates(s: seq<seq<real>>, channels: nat, length: nat, k: real, p: nat)
    requires Rect(s, channels, length) && k > 0.0 && DivisorsNonZero(k, p, length)
    ensures forall c, i :: 0 <= c < channels && 0 <= i < length ==>
              Abs(Enveloped(s, length, k, p)[c][i]) <= Abs(s[c][i])
  {
    forall c, i | 0 <= c < channels && 0 <= i < length
      ensures Abs(Enveloped(s, length, k, p)[c][i]) <= Abs(s[c][i])
    {
      assert (i as real) / k >= 0.0;
      PowAtLeastOne(1.0 + (i as real) / k, p);
      DivisionShrinks(s[c][i], Divisor(i, k, p));
    }
  }

  function Abs(x: real): real
  {
    if x < 0.0 then -x else x
  }

  lemma DivisionShrinks(a: real, d: real)
    requires d >= 1.0
    ensures Abs(a / d) <= Abs(a)
  {
    var q := a / d;
    assert q * d == a;
    if a >= 0.0 {
      assert q >= 0.0;
      assert q * d - q == q * (d - 1.0);
      assert q * (d - 1.0) >= 0.0;
    } else {
      assert q < 0.0;
      assert q - q * d == (-q) * (d - 1.0);
      assert (-q) * (d - 1.0) >= 0.0;
    }
  }

  // ---------------------------------------------------------------------------
  // Multi-tap reverb (reverb)

  /** One echo tap: a delay in samples and a linear gain. */
  datatype Delay = Delay(time: nat, gain: real)

  /** The largest delay among one channel's taps. */
  function MaxTime(taps: seq<Delay>): (m: nat)
    ensures forall d :: 0 <= d < |taps| ==> taps[d].time <= m
    ensures |taps| > 0 ==> exists d :: 0 <= d < |taps| && taps[d].time == m
  {
    if taps == [] then 0
    else
      var m := MaxTime(taps[..|taps| - 1]);
      assert forall d :: 0 <= d < |taps| - 1 ==> taps[..|taps| - 1][d] == taps[d];
      Max(m, taps[|taps| - 1].time)
  }

  /** What tap `t` adds at output index `j` from the input indices in
      [lo, hi): the input sample that lies `t.time` before `j`, scaled. */
  function TapEcho(ch: seq<real>, t: Delay, lo: nat, hi: nat, j: nat): real
    requires hi <= |ch|
  {
    if t.time <= j && lo <= j - t.time < hi then ch[j - t.time] * t.gain else 0.0
  }

  /** The sum, over all taps, of what each adds at index `j` from the input
      indices in [lo, hi). */
  function Echo(ch: seq<real>, taps: seq<Delay>, lo: nat, hi: nat, j: nat): real
    requires hi <= |ch|
  {
    if taps == [] then 0.0
    else Echo(ch, taps[..|taps| - 1], lo, hi, j) + TapEcho(ch, taps[|taps| - 1], lo, hi, j)
  }

  /** One channel after the reverb: every index `j` keeps its sample and
      receives, for every tap, the first-`n` input sample `t.time` before it,
      scaled by the tap's gain. */
  function Reverberated(ch: seq<real>, taps: seq<Delay>, n: nat): (r: seq<real>)
    requires n <= |ch|
    ensures |r| == |ch|
  {
    seq(|ch|, j requires 0 <= j < |ch| => ch[j] + Echo(ch, taps, 0, n, j))
  }

  /** Every channel `c` after the reverb with its own taps `delays[c]`. */
  function ReverbAll(s: seq<seq<real>>, delays: seq<seq<Delay>>, n: nat): (r: seq<seq<real>>)
    requires |delays| == |s| && forall c :: 0 <= c < |s| ==> n <= |s[c]|
    ensures |r| == |s|
  {
    seq(|s|, c requires 0 <= c < |s| => Reverberated(s[c], delays[c], n))
  }

  /** The largest delay among the taps of all channels, 0 without taps. */
  function LargestDelay(delays: seq<seq<Delay>>): nat
  {
    if delays == [] then 0
    else Max(LargestDelay(delays[..|delays| - 1]), MaxTime(delays[|delays| - 1]))
  }

  /** `LargestDelay` bounds every tap's delay and is one of them (or 0). */
  lemma {:induction false} LargestDelayBounds(delays: seq<seq<Delay>>)
    ensures forall c, d :: 0 <= c < |delays| && 0 <= d < |delays[c]| ==> delays[c][d].time <= LargestDelay(delays)
    ensures LargestDelay(delays) == 0 ||
            exists c, d :: 0 <= c < |delays| && 0 <= d < |delays[c]| && delays[c][d].time == LargestDelay(delays)
  {
    if delays != [] {
      var init := delays[..|delays| - 1];
      LargestDelayBounds(init);
      assert forall c :: 0 <= c < |init| ==> init[c] == delays[c];
    }
  }

  /** The bound-and-attained description of the largest delay determines
      it: any `m` with both properties is `LargestDelay`. */
  lemma LargestDelayUnique(delays: seq<seq<Delay>>, m: nat)
    requires forall c, d :: 0 <= c < |delays| && 0 <= d < |delays[c]| ==> delays[c][d].time <= m
    requires m == 0 || exists c, d :: 0 <= c < |delays| && 0 <= d < |delays[c]| && delays[c][d].time == m
    ensures m == LargestDelay(delays)
  {
    LargestDelayBounds(delays);
  }

  /** Splitting the input window at `m`: echoes from [lo, m) plus echoes
      from [m, hi) are the echoes from [lo, hi). */
  lemma {:induction false} EchoSplit(ch: seq<real>, taps: seq<Delay>, lo: nat, m: nat, hi: nat, j: nat)
    requires lo <= m <= hi <= |ch|
    ensures Echo(ch, taps, lo, m, j) + Echo(ch, taps, m, hi, j) == Echo(ch, taps, lo, hi, j)
  {
    if taps != [] {
      EchoSplit(ch, taps[..|taps| - 1], lo, m, hi, j);
    }
  }

  /** No input index at or after `j` echoes into index `j`: since every
      delay is non-negative, a downward walk that has handled the indices
      above `j` has not yet changed the sample it reads at `j`. */
  lemma {:induction false} EchoFromAbove(ch: seq<real>, taps: seq<Delay>, lo: nat, hi: nat, j: nat)
    requires j < lo <= hi <= |ch|
    ensures Echo(ch, taps, lo, hi, j) == 0.0
  {
    if taps != [] {
      EchoFromAbove(ch, taps[..|taps| - 1], lo, hi, j);
    }
  }

  /** With an empty window nothing is echoed. */
  lemma {:induction false} EchoEmptyWindow(ch: seq<real>, taps: seq<Delay>, m: nat, j: nat)
    requires m <= |ch|
    ensures Echo(ch, taps, m, m, j) == 0.0
  {
    if taps != [] {
      EchoEmptyWindow(ch, taps[..|taps| - 1], m, j);
    }
  }

  /** Without taps the reverb changes nothing. */
  lemma ReverbNoTaps(ch: seq<real>, n: nat)
    requires n <= |ch|
    ensures Reverberated(ch, [], n) == ch
  {
  }

  /** An empty input window changes nothing: the reverb of a fragment that
      had no samples before its growth leaves the zero-filled growth as is. */
  lemma ReverbEmptyInput(ch: seq<real>, taps: seq<Delay>)
    ensures Reverberated(ch, taps, 0) == ch
  {
    forall j | 0 <= j < |ch|
      ensures Echo(ch, taps, 0, 0, j) == 0.0
    {
      EchoEmptyWindow(ch, taps, 0, j);
    }
  }

  /** One tap of delay `t` and gain `g`: sample `i + t` gains exactly
      `ch[i] * g` for each of the first `n` samples `i`, and samples before
      `t` are untouched. */
  lemma ReverbSingleTap(ch: seq<real>, t: nat, g: real, n: nat, i: nat)
    requires i < n <= |ch| && i + t < |ch|
    ensures Reverberated(ch, [Delay(t, g)], n)[i + t] == ch[i + t] + ch[i] * g
    ensures forall j :: 0 <= j < t && j < |ch| ==> Reverberated(ch, [Delay(t, g)], n)[j] == ch[j]
  {
    assert [Delay(t, g)][..0] == [];
    forall j | 0 <= j < |ch|
      ensures Echo(ch, [Delay(t, g)], 0, n, j) == TapEcho(ch, Delay(t, g), 0, n, j)
    {
    }
  }

  /** The reverb is causal: output index `j` depends only on the input
      samples at indices up to `j`. */
  lemma ReverbCausal(a: seq<real>, b: seq<real>, taps: seq<Delay>, n: nat, j: nat)
    requires n <= |a| && |a| == |b| && j < |a|
    requires forall i :: 0 <= i <= j ==> a[i] == b[i]
    ensures Reverberated(a, taps, n)[j] == Reverberated(b, taps, n)[j]
  {
    EchoCausal(a, b, taps, n, j);
  }

  lemma {:induction false} EchoCausal(a: seq<real>, b: seq<real>, taps: seq<Delay>, n: nat, j: nat)
    requires n <= |a| && |a| == |b| && j < |a|
    requires forall i :: 0 <= i <= j ==> a[i] == b[i]
    ensures Echo(a, taps, 0, n, j) == Echo(b, taps, 0, n, j)
  {
    if taps != [] {
      EchoCausal(a, b, taps[..|taps| - 1], n, j);
    }
  }
}
