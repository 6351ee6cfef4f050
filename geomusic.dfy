/** The module-level filter functions of `_geomusic.c`: the argument checks
    and buffer growth around the loops of module Filter. */
module Geomusic {
  import opened Wrappers
  import opened Signal
  import opened Fragments
  import Filter

  /** `geomusic_dec_envelope`: rejects k = 0 and changes nothing; otherwise
      divides sample `i` of every channel by (1 + i/k)^p. */
  method DecEnvelope(frag: Fragment, k: real, p: nat) returns (r: Outcome)
    requires frag.Valid()
    requires k != 0.0 ==> DivisorsNonZero(k, p, frag.length)
    modifies frag.data
    ensures frag.Valid()
    ensures r == if k == 0.0 then Fail(KIsZero) else Pass
    ensures r.Fail? ==> frag.Samples() == old(frag.Samples())
    ensures r.Pass? ==> frag.Samples() == Enveloped(old(frag.Samples()), frag.length, k, p)
  {
    if k == 0.0 {
      return Fail(KIsZero);
    }
    Filter.DecEnvelope(frag, k, p);
    return Pass;
  }

  /** `geomusic_reverse`: every channel read back to front. */
  method Reverse(frag: Fragment)
    requires frag.Valid()
    modifies frag.data
    ensures frag.Valid()
    ensures frag.Samples() == ReversedAll(old(frag.Samples()))
  {
    Filter.Reverse(frag);
  }

  /** The largest per-channel delay, found as the source does: for each
      tap `d`, over every channel. */
  method MaxDelay(delays: seq<seq<Delay>>, taps: nat) returns (m: nat)
    requires forall c :: 0 <= c < |delays| ==> |delays[c]| == taps
    ensures forall c, d :: 0 <= c < |delays| && 0 <= d < |delays[c]| ==> delays[c][d].time <= m
    ensures m == 0 || exists c, d :: 0 <= c < |delays| && 0 <= d < |delays[c]| && delays[c][d].time == m
    ensures m == LargestDelay(delays)
  {
    m := 0;
    for d := 0 to taps
      invariant forall c, d' :: 0 <= c < |delays| && 0 <= d' < d ==> delays[c][d'].time <= m
      invariant m == 0 || exists c, d' :: 0 <= c < |delays| && 0 <= d' < d && delays[c][d'].time == m
    {
      for c := 0 to |delays|
        invariant forall c', d' :: 0 <= c' < |delays| && 0 <= d' < d ==> delays[c'][d'].time <= m
        invariant forall c' :: 0 <= c' < c ==> delays[c'][d].time <= m
        invariant m == 0 || exists c', d' :: 0 <= c' < |delays| && 0 <= d' <= d && delays[c'][d'].time == m
      {
        if delays[c][d].time > m {
          m := delays[c][d].time;
        }
      }
    }
    LargestDelayUnique(delays, m);
  }

  /** `geomusic_reverb` once the random jitter has produced each channel's
      taps: `times` are the requested delays in seconds and `delays[c]`
      the taps of channel `c`, in samples. A negative requested time is
      rejected and nothing changes; otherwise the fragment grows by the
      largest delay and every channel gets its echoes from the samples it
      had before the growth. */
  method Reverb(frag: Fragment, times: seq<real>, delays: seq<seq<Delay>>) returns (r: Outcome)
    requires frag.Valid() && |delays| == frag.channels
    requires forall c :: 0 <= c < |delays| ==> |delays[c]| == |times|
    modifies frag, frag.data
    ensures frag.Valid()
    ensures r == if NonNegative(times) then Pass else Fail(NegativeDelay)
    ensures r.Fail? ==> frag.length == old(frag.length) && frag.data == old(frag.data) && frag.Samples() == old(frag.Samples())
    ensures r.Pass? ==> frag.length == old(frag.length) + LargestDelay(delays)
    ensures r.Pass? ==>
              frag.Samples() ==
                ReverbAll(Grown(old(frag.Samples()), old(frag.length) + LargestDelay(delays)), delays, old(frag.length))
  {
    ghost var before, length := old(frag.Samples()), old(frag.length);
    var ok := AllNonNegative(times);
    if !ok {
      return Fail(NegativeDelay);
    }
    var maxDelay := MaxDelay(delays, |times|);
    GrowAndWalk(frag, delays, maxDelay, before, length);
    return Pass;
  }

  /** The growth by the largest delay `maxDelay`, then the walk from the
      last sample before the growth. The walk is skipped on a fragment that
      had no samples. */
  method GrowAndWalk(frag: Fragment, delays: seq<seq<Delay>>, maxDelay: nat,
                     ghost before: seq<seq<real>>, ghost length: nat)
    requires frag.Valid() && |delays| == frag.channels && maxDelay == LargestDelay(delays)
    requires frag.Samples() == before && frag.length == length
    modifies frag, frag.data
    ensures frag.Valid() && frag.length == length + LargestDelay(delays)
    ensures frag.Samples() == ReverbAll(Grown(before, length + LargestDelay(delays)), delays, length)
  {
    var n := frag.length;
    assert n + maxDelay == length + LargestDelay(delays);
    ghost var grown := Grown(before, length + LargestDelay(delays));
    frag.Resize(n + maxDelay);
    if n > 0 {
      forall c, d | 0 <= c < |delays| && 0 <= d < |delays[c]|
        ensures n - 1 + delays[c][d].time < frag.length
      {
        ReverbWritesInBounds(delays, n, c, d, n - 1);
      }
      Filter.ReverbWalk(frag, delays, n - 1, grown, length);
    } else {
      ReverbAllEmptyInput(grown, delays);
    }
  }

  /** No requested delay time is negative. */
  predicate NonNegative(times: seq<real>)
  {
    forall d :: 0 <= d < |times| ==> times[d] >= 0.0
  }

  /** The check of every requested time, in list order. */
  method AllNonNegative(times: seq<real>) returns (ok: bool)
    ensures ok <==> NonNegative(times)
  {
    for d := 0 to |times|
      invariant forall d' :: 0 <= d' < d ==> times[d'] >= 0.0
    {
      if times[d] < 0.0 {
        return false;
      }
    }
    return true;
  }

  /** With an empty input window the reverb of every channel is the
      identity. */
  lemma ReverbAllEmptyInput(s: seq<seq<real>>, delays: seq<seq<Delay>>)
    requires |delays| == |s|
    ensures ReverbAll(s, delays, 0) == s
  {
    forall c | 0 <= c < |s|
      ensures ReverbAll(s, delays, 0)[c] == s[c]
    {
      ReverbEmptyInput(s[c], delays[c]);
    }
  }

  /** Growing by the largest delay makes room for every write of the walk:
      index `i + time` for every old index `i` and every tap of every
      channel lies inside the grown fragment. */
  lemma ReverbWritesInBounds(delays: seq<seq<Delay>>, length: nat, c: nat, d: nat, i: nat)
    requires c < |delays| && d < |delays[c]| && i < length
    ensures i + delays[c][d].time < length + LargestDelay(delays)
  {
    LargestDelayBounds(delays);
  }
}
