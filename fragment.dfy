/** The Fragment object of `_geomusic.c`: a multi-channel sample buffer
    whose channels all have the same length, grown only through `Resize`.
    The C object keeps one heap buffer per channel; the model keeps one
    two-dimensional array with a row per channel, which a growth replaces
    by a larger one, as `realloc` may move a buffer. */
module Fragments {
  import opened Wrappers
  import opened Signal
  import opened Pcm

  /** MAX_CHANNELS */
  const MaxChannels: nat := 16

  /** The number of samples in `seconds` at `rate`: the C conversion of the
      non-negative double `seconds * rate` to `size_t`, which truncates. */
  function SampleCount(seconds: real, rate: nat): (n: nat)
    requires seconds >= 0.0
    ensures n as real <= seconds * rate as real < n as real + 1.0
  {
    assert seconds * rate as real >= 0.0;
    (seconds * rate as real).Floor
  }

  /** The gain argument of `amp`: one linear gain for every channel (the
      float form) or one per channel (the tuple form). */
  datatype Gain = Uniform(level: real) | PerChannel(levels: seq<real>)

  class Fragment {
    const channels: nat
    const rate: nat
    var length: nat
    /** Row `c` holds the samples of channel `c`. */
    var data: array2<real>

    ghost predicate Valid()
      reads this
    {
      channels <= MaxChannels && data.Length0 == channels && data.Length1 == length
    }

    /** The samples, channel by channel. */
    ghost function Samples(): (s: seq<seq<real>>)
      reads this, data
      requires Valid()
      ensures Rect(s, channels, length)
      ensures forall c, i :: 0 <= c < channels && 0 <= i < length ==> s[c][i] == data[c, i]
    {
      var d, n := data, length;
      seq(channels, c requires 0 <= c < d.Length0 reads d =>
        seq(n, i requires 0 <= i < n <= d.Length1 reads d => d[c, i]))
    }

    lemma SamplesAre(s: seq<seq<real>>)
      requires Valid() && Rect(s, channels, length)
      requires forall c, i :: 0 <= c < channels && 0 <= i < length ==> data[c, i] == s[c][i]
      ensures Samples() == s
    {
      var t := Samples();
      forall c | 0 <= c < channels
        ensures t[c] == s[c]
      {
      }
    }

    /** A fragment of `length` zero samples per channel. */
    constructor (channels: nat, rate: nat, length: nat)
      requires channels <= MaxChannels
      ensures Valid() && fresh(data)
      ensures this.channels == channels && this.rate == rate && this.length == length
      ensures Samples() == Silence(channels, length)
    {
      this.channels, this.rate, this.length := channels, rate, length;
      data := new real[channels, length]((c, i) => 0.0);
      new;
      SamplesAre(Silence(channels, length));
    }

    /** `Fragment_init`: rejects a negative duration, then more than
        MAX_CHANNELS channels; otherwise the fragment holds
        trunc(duration * rate) zero samples per channel. */
    static method Init(channels: nat, rate: nat, duration: real) returns (r: Result<Fragment>)
      ensures duration < 0.0 ==> r == Failure(NegativeDuration)
      ensures duration >= 0.0 && channels > MaxChannels ==> r == Failure(TooManyChannels)
      ensures r.Success? <==> duration >= 0.0 && channels <= MaxChannels
      ensures r.Success? ==>
                fresh(r.value) && fresh(r.value.data) && r.value.Valid() &&
                r.value.channels == channels && r.value.rate == rate &&
                r.value.length == SampleCount(duration, rate) &&
                r.value.Samples() == Silence(channels, r.value.length)
    {
      if duration < 0.0 {
        return Failure(NegativeDuration);
      }
      if channels > MaxChannels {
        return Failure(TooManyChannels);
      }
      var f := new Fragment(channels, rate, SampleCount(duration, rate));
      return Success(f);
    }

    /** `do_resize`: a length that is not larger changes nothing; a larger
        one grows every channel to it, keeping the old samples and
        zero-filling the new region. */
    method Resize(n: nat)
      requires Valid()
      modifies this
      ensures Valid() && length == Max(old(length), n)
      ensures n <= old(length) ==> data == old(data)
      ensures n > old(length) ==> fresh(data)
      ensures Samples() == Grown(old(Samples()), n)
    {
      if n <= length {
        GrownNoShrink(Samples(), channels, length, n);
        return;
      }
      var grown := new real[channels, n];
      for c := 0 to channels
        modifies grown
        invariant forall c', i :: 0 <= c' < c && 0 <= i < n ==>
                    grown[c', i] == if i < length then data[c', i] else 0.0
      {
        // the old samples move over, as realloc copies them
        for i := 0 to length
          modifies grown
          invariant forall c', i' :: 0 <= c' < c && 0 <= i' < n ==>
                      grown[c', i'] == if i' < length then data[c', i'] else 0.0
          invariant forall i' :: 0 <= i' < i ==> grown[c, i'] == data[c, i']
        {
          grown[c, i] := data[c, i];
        }
        // memset zero-fills the new region
        for i := length to n
          modifies grown
          invariant forall c', i' :: 0 <= c' < c && 0 <= i' < n ==>
                      grown[c', i'] == if i' < length then data[c', i'] else 0.0
          invariant forall i' :: 0 <= i' < i ==> grown[c, i'] == if i' < length then data[c, i'] else 0.0
        {
          grown[c, i] := 0.0;
        }
      }
      ghost var before := Samples();
      GrownAt(before, channels, length, n);
      data, length := grown, n;
      SamplesAre(Grown(before, n));
    }

    /** `sq_item`: the tuple of the samples at index `i`, one per channel,
        or an index error outside [0, length). */
    method Get(i: int) returns (r: Result<seq<real>>)
      requires Valid()
      ensures !(0 <= i < length) ==> r == Failure(IndexOutOfRange)
      ensures 0 <= i < length ==> r.Success? && |r.value| == channels
      ensures 0 <= i < length ==> forall c :: 0 <= c < channels ==> r.value[c] == Samples()[c][i]
    {
      if i < 0 || i >= length {
        return Failure(IndexOutOfRange);
      }
      var sample := [];
      for c := 0 to channels
        invariant |sample| == c
        invariant forall c' :: 0 <= c' < c ==> sample[c'] == data[c', i]
      {
        sample := sample + [data[c, i]];
      }
      return Success(sample);
    }

    /** `sq_ass_item`: checks the tuple size against the channel count
        before the index, then writes one sample per channel at `i` and
        nothing else. */
    method Set(i: int, v: seq<real>) returns (r: Outcome)
      requires Valid()
      modifies data
      ensures r == if |v| != channels then Fail(ChannelMismatch)
                   else if !(0 <= i < length) then Fail(IndexOutOfRange)
                   else Pass
      ensures r.Fail? ==> Samples() == old(Samples())
      ensures r.Pass? ==> Samples() == SetFrame(old(Samples()), i, v)
    {
      if |v| != channels {
        return Fail(ChannelMismatch);
      }
      if i < 0 || i >= length {
        return Fail(IndexOutOfRange);
      }
      for c := 0 to channels
        invariant forall c', j :: 0 <= c' < channels && 0 <= j < length ==>
                    data[c', j] == if c' < c && j == i then v[c'] else old(data[c', j])
      {
        data[c, i] := v[c];
      }
      SamplesAre(SetFrame(old(Samples()), i, v));
      return Pass;
    }

    /** `mix`: rejects a different channel count, then a different sample
        rate, before changing anything; otherwise grows this fragment to
        hold `other` shifted by trunc(start * rate) samples and adds
        `other` into it there.  `other` is left as it was. */
    method Mix(other: Fragment, start: real) returns (r: Outcome)
      requires Valid() && other.Valid() && other != this && other.data != data
      requires start >= 0.0
      modifies this, data
      ensures Valid()
      ensures r == if other.channels != channels then Fail(ChannelMismatch)
                   else if other.rate != rate then Fail(RateMismatch)
                   else Pass
      ensures r.Fail? ==> length == old(length) && data == old(data) && Samples() == old(Samples())
      ensures r.Pass? ==> Samples() == Mixed(old(Samples()), old(other.Samples()), SampleCount(start, rate))
      ensures other.Samples() == old(other.Samples())
    {
      if other.channels != channels {
        return Fail(ChannelMismatch);
      }
      if other.rate != rate {
        return Fail(RateMismatch);
      }
      var k := SampleCount(start, rate);
      ghost var before := Samples();
      Resize(k + other.length);
      AddShifted(other, k);
      MixedAt(before, other.Samples(), channels, old(length), other.length, k);
      GrownAt(before, channels, old(length), k + other.length);
      SamplesAre(Mixed(before, other.Samples(), k));
      return Pass;
    }

    /** The loop of `mix`: adds channel `c` of `other` into channel `c` of
        this fragment from index `k` on. */
    method AddShifted(other: Fragment, k: nat)
      requires Valid() && other.Valid() && other.channels == channels && other.data != data
      requires k + other.length <= length
      modifies data
      ensures forall c, j :: 0 <= c < channels && 0 <= j < length ==>
                data[c, j] == old(data[c, j]) + (if k <= j < k + other.length then other.data[c, j - k] else 0.0)
    {
      for c := 0 to channels
        invariant forall c', j :: 0 <= c' < channels && 0 <= j < length ==>
                    data[c', j] == old(data[c', j]) +
                      (if c' < c && k <= j < k + other.length then other.data[c', j - k] else 0.0)
      {
        for i := 0 to other.length
          invariant forall c', j :: 0 <= c' < channels && 0 <= j < length ==>
                      data[c', j] == old(data[c', j]) +
                        (if (c' < c || (c' == c && j < k + i)) && k <= j < k + other.length
                         then other.data[c', j - k] else 0.0)
        {
          data[c, k + i] := data[c, k + i] + other.data[c, i];
        }
      }
    }

    /** `import_bytes`: rejects a sample width other than 2 bytes, a
        different channel count, a different sample rate, and a byte count
        that is not a whole number of frames, in that order and before
        changing anything; otherwise grows the fragment to hold the frames
        from `start` on and decodes them there. */
    method ImportBytes(bytes: seq<byte>, start: nat, width: nat, srcRate: nat, srcChannels: nat)
      returns (r: Outcome)
      requires Valid() && channels > 0
      modifies this, data
      ensures Valid()
      ensures r == if width != SampleWidth then Fail(UnsupportedWidth)
                   else if srcChannels != channels then Fail(ChannelMismatch)
                   else if srcRate != rate then Fail(RateMismatch)
                   else if |bytes| % (2 * channels) != 0 then Fail(InvalidBufferLength)
                   else Pass
      ensures r.Fail? ==> length == old(length) && data == old(data) && Samples() == old(Samples())
      ensures r.Pass? ==> Samples() == Imported(old(Samples()), old(length), bytes, start)
      ensures data == old(data) || fresh(data)
    {
      if width != SampleWidth {
        return Fail(UnsupportedWidth);
      }
      if srcChannels != channels {
        return Fail(ChannelMismatch);
      }
      if srcRate != rate {
        return Fail(RateMismatch);
      }
      var bytesPerFrame := srcChannels * width;
      if |bytes| % bytesPerFrame != 0 {
        return Fail(InvalidBufferLength);
      }
      var n := |bytes| / bytesPerFrame;
      FrameCountExact(bytes, channels);
      ImportFrames(bytes, start, n);
      return Pass;
    }

    /** The import proper: grow to `start + n` frames, then decode the `n`
        frames of `bytes` there. */
    method ImportFrames(bytes: seq<byte>, start: nat, n: nat)
      requires Valid() && channels > 0
      requires |bytes| % (2 * channels) == 0 && n == FrameCount(bytes, channels)
      requires |bytes| == 2 * n * channels
      modifies this, data
      ensures Valid()
      ensures data == old(data) || fresh(data)
      ensures Samples() == Imported(old(Samples()), old(length), bytes, start)
    {
      ghost var before := Samples();
      Resize(start + n);
      DecodeInto(bytes, start, n);
      ghost var target := Imported(before, old(length), bytes, start);
      forall c, j | 0 <= c < channels && 0 <= j < length
        ensures data[c, j] == target[c][j]
      {
        if start <= j < start + n {
          ImportedWindowAt(before, old(length), bytes, start, c, j);
        } else {
          ImportedOutsideAt(before, old(length), bytes, start, c, j);
        }
      }
      SamplesAre(target);
    }

    /** The loop of `import_bytes`: channel by channel, the input pointer
        starts at byte 2c and advances a whole frame per sample. */
    method DecodeInto(bytes: seq<byte>, start: nat, n: nat)
      requires Valid() && channels > 0
      requires |bytes| == 2 * n * channels && start + n <= length
      modifies data
      ensures forall c, j :: 0 <= c < channels && 0 <= j < length ==>
                data[c, j] == if start <= j < start + n
                              then SlotSample(bytes, (j - start) * channels + c)
                              else old(data[c, j])
    {
      for ch := 0 to channels
        invariant forall c, j :: 0 <= c < channels && 0 <= j < length ==>
                    data[c, j] == if c < ch && start <= j < start + n
                                  then SlotSample(bytes, (j - start) * channels + c)
                                  else old(data[c, j])
      {
        DecodeChannel(bytes, start, n, ch);
      }
    }

    /** The decoding of channel `ch` alone: the input pointer starts at byte
        2ch and advances a whole frame per sample. */
    method DecodeChannel(bytes: seq<byte>, start: nat, n: nat, ch: nat)
      requires Valid() && ch < channels
      requires |bytes| == 2 * n * channels && start + n <= length
      modifies data
      ensures forall j :: 0 <= j < length ==>
                data[ch, j] == if start <= j < start + n
                               then SlotSample(bytes, (j - start) * channels + ch)
                               else old(data[ch, j])
      ensures forall c, j :: 0 <= c < channels && c != ch && 0 <= j < length ==> data[c, j] == old(data[c, j])
    {
      var bytesPerFrame := 2 * channels;
      var offset := 2 * ch;
      for s := start to start + n
        invariant offset == 2 * ((s - start) * channels + ch)
        invariant forall j :: 0 <= j < length ==>
                    data[ch, j] == if start <= j < s
                                   then SlotSample(bytes, (j - start) * channels + ch)
                                   else old(data[ch, j])
        invariant forall c, j :: 0 <= c < channels && c != ch && 0 <= j < length ==> data[c, j] == old(data[c, j])
      {
        SlotInBounds(s - start, n, channels, ch);
        data[ch, s] := DecodeSample(bytes[offset], bytes[offset + 1]);
        SlotSplit(s + 1 - start, channels, ch);
        SlotSplit(s - start, channels, ch);
        offset := offset + bytesPerFrame;
      }
    }

    /** `as_bytes`: rejects a sample width other than 2 bytes; otherwise
        the 16-bit little-endian encoding of every sample, frame by frame,
        each clamped to [-32767, 32767]. */
    method AsBytes(width: nat) returns (r: Result<seq<byte>>)
      requires Valid()
      ensures width != SampleWidth ==> r == Failure(UnsupportedWidth)
      ensures width == SampleWidth ==> r == Success(Encode(Samples(), length))
      ensures r.Success? ==> |r.value| == length * channels * width
    {
      if width != SampleWidth {
        return Failure(UnsupportedWidth);
      }
      var out: seq<byte> := [];
      ghost var s := Samples();
      for i := 0 to length
        invariant out == Encode(s, i)
      {
        var frame := FrameAsBytes(i);
        EncodeStep(s, i);
        out := out + frame;
      }
      EncodeSize(s, channels, length, width);
      return Success(out);
    }

    /** The encoding of frame `i`, channel by channel. */
    method FrameAsBytes(i: nat) returns (b: seq<byte>)
      requires Valid() && i < length
      ensures b == FrameBytes(Samples(), i, channels)
    {
      ghost var s := Samples();
      b := [];
      for c := 0 to channels
        invariant b == FrameBytes(s, i, c)
      {
        FrameBytesStep(s, i, c);
        b := b + SampleBytes(data[c, i]);
      }
    }

    /** `amp`: a per-channel gain list whose length is not the channel
        count is rejected and nothing changes; otherwise every sample of
        channel `c` is multiplied by that channel's gain. */
    method Amp(gain: Gain) returns (r: Outcome)
      requires Valid()
      modifies data
      ensures r == if gain.PerChannel? && |gain.levels| != channels then Fail(ChannelMismatch) else Pass
      ensures r.Fail? ==> Samples() == old(Samples())
      ensures r.Pass? ==> Samples() == Scaled(old(Samples()), Gains(gain, channels))
    {
      if gain.PerChannel? && |gain.levels| != channels {
        return Fail(ChannelMismatch);
      }
      var g := Gains(gain, channels);
      for c := 0 to channels
        invariant forall c', i :: 0 <= c' < channels && 0 <= i < length ==>
                    data[c', i] == if c' < c then old(data[c', i]) * g[c'] else old(data[c', i])
      {
        for i := 0 to length
          invariant forall c', i' :: 0 <= c' < channels && 0 <= i' < length ==>
                      data[c', i'] == if c' < c || (c' == c && i' < i) then old(data[c', i']) * g[c']
                                      else old(data[c', i'])
        {
          data[c, i] := data[c, i] * g[c];
        }
      }
      SamplesAre(Scaled(old(Samples()), g));
      return Pass;
    }
  }

  lemma FrameBytesStep(s: seq<seq<real>>, i: nat, c: nat)
    requires c < |s| && forall k :: 0 <= k < |s| ==> i < |s[k]|
    ensures FrameBytes(s, i, c + 1) == FrameBytes(s, i, c) + SampleBytes(s[c][i])
  {
  }

  lemma EncodeStep(s: seq<seq<real>>, i: nat)
    requires forall k :: 0 <= k < |s| ==> i < |s[k]|
    ensures Encode(s, i + 1) == Encode(s, i) + FrameBytes(s, i, |s|)
  {
  }

  lemma EncodeSize(s: seq<seq<real>>, channels: nat, length: nat, width: nat)
    requires Rect(s, channels, length) && width == SampleWidth
    ensures |Encode(s, length)| == length * channels * width
  {
  }

  /** The gain of each channel: the single value repeated, or the list. */
  function Gains(gain: Gain, channels: nat): (g: seq<real>)
    requires gain.PerChannel? ==> |gain.levels| == channels
    ensures |g| == channels
    ensures forall c :: 0 <= c < channels ==> g[c] == if gain.Uniform? then gain.level else gain.levels[c]
  {
    if gain.Uniform? then seq(channels, _ => gain.level) else gain.levels
  }
}
