/** 16-bit PCM: the byte layout `as_bytes` writes and `import_bytes` reads.
    Samples are interleaved frame by frame (all channels of sample 0, then
    all channels of sample 1, ...), each one a little-endian two's-complement
    16-bit integer. */
module Pcm {
  import opened Signal

  type byte = x: int | 0 <= x < 256

  /** The only sample width, in bytes, either direction supports. */
  const SampleWidth: nat := 2

  /** The largest code `as_bytes` writes; the clamp is symmetric, so -32768
      is never written. */
  const FullScale: int := 32767

  /** The divisor `import_bytes` scales decoded integers by.  It is 32678,
      not the full-scale 32767 or 32768 one would expect; the model keeps it
      as written. */
  const DecodeDivisor: real := 32678.0

  /** C's conversion of a floating-point value to an integer: truncation
      toward zero. */
  function Trunc(x: real): (n: int)
    ensures x >= 0.0 ==> n as real <= x < n as real + 1.0
    ensures x < 0.0 ==> n as real - 1.0 < x <= n as real
  {
    if x >= 0.0 then x.Floor else -((-x).Floor)
  }

  /** The integer code `as_bytes` computes for sample `z`: saturate outside
      [-1, 1], otherwise truncate z * 32767 toward zero. */
  function Clamp16(z: real): (s: int)
    ensures -FullScale <= s <= FullScale
    ensures z < -1.0 ==> s == -FullScale
    ensures z > 1.0 ==> s == FullScale
    ensures 0.0 <= z <= 1.0 ==> (s as real) <= z * 32767.0 < (s as real) + 1.0
    ensures -1.0 <= z < 0.0 ==> (s as real) - 1.0 < z * 32767.0 <= (s as real)
  {
    if z < -1.0 then -FullScale
    else if z > 1.0 then FullScale
    else Trunc(z * 32767.0)
  }

  /** The two's-complement bit pattern of a 16-bit value, as 0..65535. */
  function Unsigned16(s: int): (u: int)
    requires -32768 <= s < 32768
    ensures 0 <= u < 65536
  {
    if s < 0 then s + 65536 else s
  }

  /** `s & 0xFF` */
  function LowByte(s: int): byte
    requires -32768 <= s < 32768
  {
    Unsigned16(s) % 256
  }

  /** `(s >> 8) & 0xFF` */
  function HighByte(s: int): byte
    requires -32768 <= s < 32768
  {
    Unsigned16(s) / 256
  }

  /** Reading two bytes as a little-endian `int16_t`. */
  function Int16(lo: byte, hi: byte): (v: int)
    ensures -32768 <= v < 32768
  {
    var u := lo + 256 * hi;
    if u >= 32768 then u - 65536 else u
  }

  /** The bytes written for a value are read back as that value: the two
      byte operations of `as_bytes` invert the `int16_t` read of
      `import_bytes`. */
  lemma BytesRoundTrip(s: int)
    requires -32768 <= s < 32768
    ensures Int16(LowByte(s), HighByte(s)) == s
  {
  }

  /** ... and every pair of bytes comes from exactly one value. */
  lemma BytesDetermineValue(lo: byte, hi: byte)
    ensures LowByte(Int16(lo, hi)) == lo && HighByte(Int16(lo, hi)) == hi
  {
  }

  /** The two bytes `as_bytes` writes for sample `z`. */
  function SampleBytes(z: real): (b: seq<byte>)
    ensures |b| == 2
  {
    var s := Clamp16(z);
    [LowByte(s), HighByte(s)]
  }

  /** The sample `import_bytes` stores for two bytes. */
  function DecodeSample(lo: byte, hi: byte): real
  {
    Int16(lo, hi) as real / DecodeDivisor
  }

  /** What a sample becomes after an export and an import. */
  function Requantized(z: real): real
  {
    DecodeSample(LowByte(Clamp16(z)), HighByte(Clamp16(z)))
  }

  /** For a sample inside [-1, 1], export followed by import moves it by at
      most 89/32678 (about 0.0027): truncation loses less than one step, and
      the 32678 divisor adds up to 89/32678 at full scale. */
  lemma RequantizedError(z: real)
    requires -1.0 <= z <= 1.0
    ensures Abs(Requantized(z) - z) <= 89.0 / 32678.0
  {
    var s := Clamp16(z);
    BytesRoundTrip(s);
    assert Requantized(z) == s as real / 32678.0;
    var e := s as real - 32678.0 * z;
    assert Requantized(z) - z == e / 32678.0;
    if z >= 0.0 {
      assert -1.0 < e <= 89.0;
    } else {
      assert -89.0 <= e < 1.0;
    }
  }

  /** The 32678 divisor makes a full-scale sample come back larger than
      1.0, so export followed by import does not stay within one
      quantisation step of 1/32767. */
  lemma RequantizedOvershoots()
    ensures Requantized(1.0) > 1.0
    ensures Requantized(1.0) - 1.0 > 1.0 / 32767.0
  {
    assert Clamp16(1.0) == 32767;
    BytesRoundTrip(32767);
  }

  // ---------------------------------------------------------------------------
  // Whole-buffer layout

  /** The bytes of channels [0, c) of sample `i`. */
  function FrameBytes(s: seq<seq<real>>, i: nat, c: nat): (b: seq<byte>)
    requires c <= |s| && forall k :: 0 <= k < |s| ==> i < |s[k]|
    ensures |b| == 2 * c
  {
    if c == 0 then [] else FrameBytes(s, i, c - 1) + SampleBytes(s[c - 1][i])
  }

  /** The bytes of samples [0, n) of every channel, frame-major. */
  function Encode(s: seq<seq<real>>, n: nat): (b: seq<byte>)
    requires forall k :: 0 <= k < |s| ==> n <= |s[k]|
    ensures |b| == 2 * n * |s|
  {
    if n == 0 then [] else Encode(s, n - 1) + FrameBytes(s, n - 1, |s|)
  }

  /** Channel `c` of a frame is at bytes 2c and 2c+1 of the frame. */
  lemma {:induction false} FrameBytesAt(s: seq<seq<real>>, i: nat, c: nat, k: nat)
    requires k < c <= |s| && forall x :: 0 <= x < |s| ==> i < |s[x]|
    ensures FrameBytes(s, i, c)[2 * k] == LowByte(Clamp16(s[k][i]))
    ensures FrameBytes(s, i, c)[2 * k + 1] == HighByte(Clamp16(s[k][i]))
  {
    if k < c - 1 {
      FrameBytesAt(s, i, c - 1, k);
    }
  }

  /** Encoding fewer samples gives a prefix of encoding more. */
  lemma {:induction false} EncodePrefix(s: seq<seq<real>>, m: nat, n: nat)
    requires m <= n && forall k :: 0 <= k < |s| ==> n <= |s[k]|
    ensures 2 * m * |s| <= |Encode(s, n)|
    ensures Encode(s, m) == Encode(s, n)[..2 * m * |s|]
  {
    MulLess(2 * m, 2 * n, |s|);
    if m < n {
      EncodePrefix(s, m, n - 1);
      var e := Encode(s, n - 1);
      assert Encode(s, n) == e + FrameBytes(s, n - 1, |s|);
      assert 2 * m * |s| <= |e|;
      assert Encode(s, n)[..2 * m * |s|] == e[..2 * m * |s|];
    }
  }

  /** Sample `i` of channel `c` lies at bytes 2(i·C + c) and 2(i·C + c) + 1
      of the export of a C-channel buffer, low byte first. */
  lemma EncodeLayout(s: seq<seq<real>>, channels: nat, length: nat, i: nat, c: nat)
    requires Rect(s, channels, length) && i < length && c < channels
    ensures 2 * (i * channels + c) + 1 < |Encode(s, length)|
    ensures Encode(s, length)[2 * (i * channels + c)] == LowByte(Clamp16(s[c][i]))
    ensures Encode(s, length)[2 * (i * channels + c) + 1] == HighByte(Clamp16(s[c][i]))
  {
    var k := 2 * (i * channels + c);
    var whole := Encode(s, length);
    var upto := Encode(s, i + 1);
    var before := Encode(s, i);
    var frame := FrameBytes(s, i, channels);
    EncodePrefix(s, i + 1, length);
    assert upto == before + frame;
    SlotSplit(i, channels, c);
    assert |before| == 2 * i * channels;
    assert k == |before| + 2 * c;
    FrameBytesAt(s, i, channels, c);
    assert upto[k] == frame[2 * c] && upto[k + 1] == frame[2 * c + 1];
    assert k + 1 < |upto| <= |whole|;
    assert whole[k] == upto[k] && whole[k + 1] == upto[k + 1];
  }

  lemma SlotSplit(i: nat, channels: nat, c: nat)
    ensures 2 * (i * channels + c) == 2 * i * channels + 2 * c
    ensures 2 * (i + 1) * channels == 2 * i * channels + 2 * channels
  {
  }

  /** Export then import, byte for byte: the bytes read back for sample `i`
      of channel `c` decode to the clamped code written for it. */
  lemma EncodeDecodes(s: seq<seq<real>>, channels: nat, length: nat, i: nat, c: nat)
    requires Rect(s, channels, length) && i < length && c < channels
    ensures 2 * (i * channels + c) + 1 < |Encode(s, length)|
    ensures Int16(Encode(s, length)[2 * (i * channels + c)], Encode(s, length)[2 * (i * channels + c) + 1])
              == Clamp16(s[c][i])
  {
    EncodeLayout(s, channels, length, i, c);
    BytesRoundTrip(Clamp16(s[c][i]));
  }

  lemma MulLess(a: nat, b: nat, c: nat)
    requires a <= b
    ensures a * c <= b * c
  {
  }

  /** Slot `k` of the interleaved stream (sample k / C of channel k % C)
      lies inside a stream of `n` whole C-channel frames. */
  lemma SlotInBounds(i: nat, n: nat, channels: nat, c: nat)
    requires i < n && c < channels
    ensures 2 * (i * channels + c) + 1 < 2 * n * channels
  {
    MulLess(2 * (i + 1), 2 * n, channels);
    SlotSplit(i, channels, c);
  }

  // ---------------------------------------------------------------------------
  // Import

  /** The sample `import_bytes` decodes from slot `k` of the stream (a
      slot past the end never occurs: see SlotInBounds). */
  function SlotSample(bytes: seq<byte>, k: int): real
  {
    if 0 <= k && 2 * k + 1 < |bytes| then DecodeSample(bytes[2 * k], bytes[2 * k + 1]) else 0.0
  }

  /** Number of whole frames in a stream of C-channel 16-bit samples. */
  function FrameCount(bytes: seq<byte>, channels: nat): nat
    requires channels > 0
  {
    DivNonneg(|bytes|, 2 * channels);
    |bytes| / (2 * channels)
  }

  /** A fragment after importing `bytes` at sample `start`: grown to hold
      the imported frames, with sample `start + i` of channel `c` decoded
      from slot i·C + c and every other sample as it was. */
  function Imported(s: seq<seq<real>>, length: nat, bytes: seq<byte>, start: nat): (r: seq<seq<real>>)
    requires |s| > 0 && Rect(s, |s|, length) && |bytes| % (2 * |s|) == 0
    ensures Rect(r, |s|, Max(length, start + FrameCount(bytes, |s|)))
  {
    var channels, n := |s|, FrameCount(bytes, |s|);
    var g := Grown(s, start + n);
    GrownAt(s, channels, length, start + n);
    seq(channels, c requires 0 <= c < channels =>
      seq(Max(length, start + n), j requires 0 <= j < Max(length, start + n) =>
        if start <= j < start + n then
          SlotSample(bytes, (j - start) * channels + c)
        else g[c][j]))
  }

  /** Sample `j` of channel `c` after an import at `start` of `n` frames
      that stay inside the fragment: decoded inside the window, as before
      outside it. */
  lemma ImportedAt(s: seq<seq<real>>, length: nat, bytes: seq<byte>, start: nat, c: nat, j: nat)
    requires |s| > 0 && Rect(s, |s|, length) && |bytes| % (2 * |s|) == 0
    requires start + FrameCount(bytes, |s|) <= length && c < |s| && j < length
    ensures Imported(s, length, bytes, start)[c][j] ==
              if start <= j < start + FrameCount(bytes, |s|) then SlotSample(bytes, (j - start) * |s| + c)
              else s[c][j]
  {
    GrownAt(s, |s|, length, start + FrameCount(bytes, |s|));
  }

  /** Inside the window, sample `j` of channel `c` is decoded from slot
      `(j - start) * C + c`. */
  lemma ImportedWindowAt(s: seq<seq<real>>, length: nat, bytes: seq<byte>, start: nat, c: nat, j: nat)
    requires |s| > 0 && Rect(s, |s|, length) && |bytes| % (2 * |s|) == 0
    requires c < |s| && start <= j < start + FrameCount(bytes, |s|)
    ensures Imported(s, length, bytes, start)[c][j] == SlotSample(bytes, (j - start) * |s| + c)
  {
  }

  /** Outside the window, sample `j` of channel `c` is the grown one. */
  lemma ImportedOutsideAt(s: seq<seq<real>>, length: nat, bytes: seq<byte>, start: nat, c: nat, j: nat)
    requires |s| > 0 && Rect(s, |s|, length) && |bytes| % (2 * |s|) == 0
    requires c < |s| && j < Max(length, start + FrameCount(bytes, |s|))
    requires !(start <= j < start + FrameCount(bytes, |s|))
    ensures Imported(s, length, bytes, start)[c][j] == Grown(s, start + FrameCount(bytes, |s|))[c][j]
  {
  }

  /** A byte count that is a whole number of frames is exactly that many
      frames of 2-byte samples. */
  lemma FrameCountExact(b: seq<byte>, channels: nat)
    requires channels > 0 && |b| % (2 * channels) == 0
    ensures |b| == 2 * FrameCount(b, channels) * channels
  {
    var q := |b| / (2 * channels);
    assert |b| == (2 * channels) * q + |b| % (2 * channels);
    assert (2 * channels) * q == 2 * q * channels;
  }

  lemma FrameCountOf(b: seq<byte>, channels: nat, n: nat)
    requires channels > 0 && |b| == 2 * n * channels
    ensures |b| % (2 * channels) == 0 && FrameCount(b, channels) == n
  {
    DivExact(|b|, 2 * channels, n);
  }

  lemma DivNonneg(a: int, b: int)
    requires a >= 0 && b > 0
    ensures a / b >= 0
  {
  }

  /** Division that leaves no remainder undoes the multiplication. */
  lemma DivExact(a: nat, b: nat, q: nat)
    requires b > 0 && a == b * q
    ensures a % b == 0 && a / b == q
  {
    var d, r := a / b, a % b;
    assert a == b * d + r && 0 <= r < b;
    var e := q - d;
    assert b * e == r by { assert b * q - b * d == b * (q - d); }
    MulSign(b, e);
  }

  lemma MulSign(b: int, e: int)
    requires b > 0
    ensures e >= 1 ==> b * e >= b
    ensures e <= -1 ==> b * e < 0
  {
    if e >= 1 {
      assert b * e - b == b * (e - 1);
      assert b * (e - 1) >= 0;
    } else if e <= -1 {
      assert b * e == -(b * (-e));
      assert b * (-e) > 0;
    }
  }

  /** Importing what was exported, at index 0, into a fragment no longer
      than the exported one, gives back every sample requantised. */
  lemma ExportThenImport(t: seq<seq<real>>, tLength: nat, s: seq<seq<real>>, channels: nat, length: nat)
    requires channels > 0 && Rect(s, channels, length) && Rect(t, channels, tLength) && tLength <= length
    ensures |Encode(s, length)| % (2 * channels) == 0
    ensures Rect(Imported(t, tLength, Encode(s, length), 0), channels, length)
    ensures forall c, i :: 0 <= c < channels && 0 <= i < length ==>
              Imported(t, tLength, Encode(s, length), 0)[c][i] == Requantized(s[c][i])
  {
    var b := Encode(s, length);
    FrameCountOf(b, channels, length);
    forall c, i | 0 <= c < channels && 0 <= i < length
      ensures Imported(t, tLength, b, 0)[c][i] == Requantized(s[c][i])
    {
      ExportedSlot(s, channels, length, i, c);
      ImportedWindowAt(t, tLength, b, 0, c, i);
      assert (i - 0) * channels + c == i * channels + c;
    }
  }

  /** Slot i·C + c of the exported bytes decodes to sample `i` of channel
      `c` requantised. */
  lemma ExportedSlot(s: seq<seq<real>>, channels: nat, length: nat, i: nat, c: nat)
    requires Rect(s, channels, length) && i < length && c < channels
    ensures SlotSample(Encode(s, length), i * channels + c) == Requantized(s[c][i])
  {
    EncodeLayout(s, channels, length, i, c);
    assert i * channels + c >= 0;
  }
}
