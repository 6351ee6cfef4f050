# Splat Fragment buffer, in Dafny

This project models the sample buffer at the heart of Splat, the "Fragment", and proves
properties of the model. The source is the `_geomusic.c` extension module and the filters
of `filter.c`. A Fragment holds `channels` channels (at most 16), each `length` samples
long, at a sample `rate`. The model covers:

- its construction, growth (`do_resize`), sample access (`sq_item`, `sq_ass_item`) and
  offset mixing (`mix`);
- 16-bit PCM import (`import_bytes`) and export (`as_bytes`);
- per-channel gain (`amp`);
- the three in-place filters: the decreasing envelope, `reverse`, and the multi-tap causal
  `reverb`.

It also models three pieces of the Python data layer, `splat/data.py`:

- the format guess from a file name (`_get_fmt`);
- the chunked import loop (`_read_chunks`), as `open_wav` drives it;
- the header line of a Splat Audio Fragment (.saf) file, as `save_saf` writes it and
  `open_saf` reads and checks it.

Layout:

- `wrappers.dfy` (module `Wrappers`): the error kinds, `Result`, `Outcome` and `Option`.
- `signal.dfy` (module `Signal`): the specification of every buffer operation as a function
  over `seq<seq<real>>` (one sequence per channel), with lemmas about those functions.
- `pcm.dfy` (module `Pcm`): the 16-bit little-endian interleaved encoding and decoding.
- `fragment.dfy` (module `Fragments`): the `Fragment` class, whose samples live in an
  `array2<real>` with a row per channel. Its methods change the array in place. Each is
  proved to turn the ghost view `Samples()` into the matching `Signal` or `Pcm` function.
- `filter.dfy` (module `Filter`): the loops of `filter.c`, proved against `Signal`. It also
  states the `size_t` index arithmetic as written, on an empty fragment.
- `geomusic.dfy` (module `Geomusic`): the module-level functions of `_geomusic.c` around
  those loops: the `k` check, the reverb's validation, maximum delay and growth.
- `text.dfy` (module `Text`): the Python string operations the data layer uses:
  `rpartition`, `lower`, `split`/`join` on one character, and `int`/`str` on integers.
- `data.dfy` (module `Data`): `_get_fmt`, `_read_chunks` and the .saf header.

Two behaviours of the code matter here:

- `mix` finds the offset by truncating `start * rate` (a C conversion to `size_t`), not by
  rounding it.
- `import_bytes` divides by 32678.0, not 32768.0 or 32767.0. So exporting then importing a
  sample in [-1, 1] can be off by up to 89/32678, more than one step of 1/32767, and 1.0
  comes back above 1.0 (`Pcm.RequantizedError`, `Pcm.RequantizedOvershoots`).

## Model

| member | source | states |
|---|---|---|
| Fragments.SampleCount | _geomusic.c:64 | the sample count of a non-negative duration is the largest integer not above `duration * rate` (truncation) |
| Fragments.Fragment.constructor | _geomusic.c:67-85 | a new fragment has the given channels, rate and length, and every sample of every channel is 0 |
| Fragments.Fragment.Init | _geomusic.c:40-88 | a negative duration fails first, then more than 16 channels; it succeeds exactly when neither holds, with trunc(duration·rate) zero samples per channel |
| Fragments.Fragment.Resize | _geomusic.c:207-236 | the new length is max(old, n); the same buffer is kept when n is not larger; the samples become `Grown(old, n)`: old samples kept, new ones zero |
| Fragments.Fragment.Get | _geomusic.c:111-132 | an index outside [0, length) fails; otherwise one value per channel, value c being sample i of channel c |
| Fragments.Fragment.Set | _geomusic.c:134-166 | a tuple of the wrong size fails before the index is checked; a failure changes nothing; a success replaces frame i by the tuple and nothing else (`SetFrame`) |
| Fragments.Fragment.Mix | _geomusic.c:258-297 | a channel mismatch fails first, then a rate mismatch, both changing nothing; otherwise the samples become `Mixed(old, other, trunc(start·rate))`, and `other` is left as it was |
| Fragments.Fragment.AddShifted | _geomusic.c:287-294 | channel c gains `other[c][j - k]` at every index j in [k, k + other.length) and nothing elsewhere |
| Fragments.Fragment.ImportBytes | _geomusic.c:299-361 | width ≠ 2, then a channel mismatch, then a rate mismatch, then a byte count that is not whole frames: each fails and changes nothing; otherwise the samples become `Imported(old, length, bytes, start)` |
| Fragments.Fragment.ImportFrames | _geomusic.c:343-358 | growing to `start + n` frames and then decoding leaves `Imported(old, length, bytes, start)` |
| Fragments.Fragment.DecodeInto | _geomusic.c:349-358 | sample j of channel c in [start, start + n) becomes stream slot (j − start)·C + c decoded; everything else is unchanged |
| Fragments.Fragment.DecodeChannel | _geomusic.c:350-357 | the same for one channel: its input pointer starts at byte 2c and steps a whole frame; other channels are unchanged |
| Fragments.Fragment.AsBytes | _geomusic.c:363-415 | width ≠ 2 fails; otherwise the result is `Encode(samples, length)`, of length·channels·2 bytes |
| Fragments.Fragment.FrameAsBytes | _geomusic.c:398-411 | the bytes of frame i are the clamped little-endian codes of its samples, in channel order |
| Fragments.Fragment.Amp | _geomusic.c:495-533 | a per-channel gain list of the wrong length fails and changes nothing; otherwise every sample of channel c is multiplied by that channel's gain (`Scaled`) |
| Fragments.EncodeSize | _geomusic.c:387 | the export of length frames of C channels holds length·C·2 bytes |
| Signal.Silence | _geomusic.c:67-79 | the zero-filled buffer has the given channel count and length |
| Signal.Grow | _geomusic.c:219-231 | a grown channel is max(old length, n) long |
| Signal.GrownAt | _geomusic.c:207-236 | after growth every channel is max(length, n) long, keeps each old sample and is zero beyond the old length |
| Signal.GrownNoShrink | _geomusic.c:213-214 | asking for a length that is not larger leaves the samples exactly as they were |
| Signal.GrownTwice | _geomusic.c:207-236 | growing to m and then to n equals growing once to max(m, n) |
| Signal.SetThenGet | _geomusic.c:153-163 | after writing frame i, reading frame i gives the tuple written, and every other frame reads as before |
| Signal.SetOwnFrame | _geomusic.c:153-163 | writing back the frame just read changes nothing |
| Signal.MixedAt | _geomusic.c:281-294 | the mix is max(length, k + srcLength) long, and sample j is the old sample (0 beyond the old end) plus `src[j - k]` inside the window (0 outside) |
| Signal.ChannelMixAt | _geomusic.c:287-294 | the same statement for a single channel |
| Signal.MixIntoEmptyCopies | splat/data.py:187-191 | mixing a fragment into an empty one at offset 0 reproduces it exactly, which is how `dup` copies |
| Signal.MixOrderIrrelevant | _geomusic.c:281-294 | mixing a and then b gives the same buffer as mixing b and then a |
| Signal.MixChannelOrder | _geomusic.c:287-294 | the same commutation for a single channel |
| Signal.ScaledByOne | _geomusic.c:524-530 | gains of exactly 1 leave every sample as it was |
| Signal.ScaledTwice | _geomusic.c:524-530 | two `amp` calls equal one call with the per-channel products of the gains |
| Signal.Reversed | filter.c:45-50 | a reversed channel keeps its length |
| Signal.ReverseInvolution | filter.c:41-51 | reversing every channel twice gives back the original buffer |
| Signal.ReverseKeepsMiddle | filter.c:41-51 | reversal keeps channel count and length, and for an odd length the middle sample of every channel stays put |
| Signal.PowOfOne | filter.c:31 | (1 + 0/k)^p is 1 for every exponent, so sample 0 is divided by 1 |
| Signal.PowAtLeastOne | filter.c:31 | a base of at least 1 raised to any exponent is at least 1 |
| Signal.EnvelopeKeepsFirst | filter.c:27-34 | the envelope keeps channel count and length and leaves frame 0 exactly as it was |
| Signal.EnvelopeAttenuates | filter.c:30-33 | with k > 0 no sample grows in magnitude |
| Signal.MaxTime | _geomusic.c:976-984 | the largest delay of one channel bounds each of its taps and is attained when there is a tap |
| Signal.LargestDelayBounds | _geomusic.c:949-984 | the largest delay over all channels bounds every tap's delay and is one of them, or 0 when there are none |
| Signal.LargestDelayUnique | _geomusic.c:976-984 | any value that bounds every delay and is attained (or is 0) is the largest delay |
| Signal.Reverberated | filter.c:62-77 | a reverberated channel keeps its length |
| Signal.ReverbAll | filter.c:62-77 | the reverb keeps the channel count, each channel being reverberated with its own taps |
| Signal.EchoSplit | filter.c:66-76 | the echoes from input window [lo, hi) are those from [lo, m) plus those from [m, hi) |
| Signal.EchoFromAbove | filter.c:71-74 | inputs above index j add nothing at j, because each tap writes at or after its input |
| Signal.EchoEmptyWindow | filter.c:66-76 | an empty input window adds nothing anywhere |
| Signal.ReverbNoTaps | filter.c:71 | without taps the reverb leaves the channel as it was |
| Signal.ReverbEmptyInput | filter.c:66-76 | with an empty input window the reverb leaves the channel as it was |
| Signal.ReverbSingleTap | filter.c:72-74 | one tap (t, g) adds `ch[i]·g` at i + t and leaves the first t samples untouched |
| Signal.ReverbCausal | filter.c:66-76 | output sample j depends only on input samples 0..j |
| Signal.EchoCausal | filter.c:66-76 | the echoes arriving at j depend only on input samples 0..j |
| Pcm.Trunc | _geomusic.c:407 | the float-to-int16 conversion truncates toward zero, on either side of 0 |
| Pcm.Clamp16 | _geomusic.c:402-407 | a code lies in [-32767, 32767]: -32767 below -1, 32767 above 1, and trunc(z·32767) in between |
| Pcm.Unsigned16 | _geomusic.c:409-410 | the two's-complement code of an int16 lies in [0, 65536) |
| Pcm.Int16 | _geomusic.c:355 | two little-endian bytes read as an int16 give a value in [-32768, 32768) |
| Pcm.BytesRoundTrip | _geomusic.c:409-410 | reading back the low and high bytes written for an int16 gives that int16 |
| Pcm.BytesDetermineValue | _geomusic.c:355 | splitting the int16 read from two bytes gives those two bytes back |
| Pcm.SampleBytes | _geomusic.c:399-410 | each exported sample takes exactly two bytes |
| Pcm.RequantizedError | _geomusic.c:355 | for a sample in [-1, 1], export then import is off by at most 89/32678 |
| Pcm.RequantizedOvershoots | _geomusic.c:355 | 1.0 exported and imported comes back above 1.0, by more than 1/32767 |
| Pcm.FrameBytes | _geomusic.c:398-411 | the first c channels of a frame take 2c bytes |
| Pcm.Encode | _geomusic.c:397-412 | n frames of C channels take 2·n·C bytes |
| Pcm.FrameBytesAt | _geomusic.c:398-411 | bytes 2k and 2k + 1 of a frame are the low and high bytes of channel k's clamped code |
| Pcm.EncodePrefix | _geomusic.c:397-412 | the export of the first m frames is a prefix of the export of n ≥ m frames |
| Pcm.EncodeLayout | _geomusic.c:397-412 | the export is frame-major and interleaved: bytes 2(i·C + c) and 2(i·C + c) + 1 are the low and high bytes of the clamped code of sample i of channel c |
| Pcm.EncodeDecodes | _geomusic.c:397-412 | decoding the two bytes of sample i of channel c gives exactly its clamped code |
| Pcm.SlotInBounds | _geomusic.c:349-357 | slot i·C + c of a stream of n whole frames, for i < n, lies inside the stream |
| Pcm.Imported | _geomusic.c:343-358 | an import at `start` leaves every channel max(length, start + frames) long |
| Pcm.ImportedAt | _geomusic.c:343-358 | in a fragment long enough already, sample j of channel c is slot (j − start)·C + c decoded inside the window and the old sample outside it |
| Pcm.ImportedWindowAt | _geomusic.c:349-358 | inside the window, sample j of channel c is slot (j − start)·C + c decoded |
| Pcm.ImportedOutsideAt | _geomusic.c:346-358 | outside the window, a sample is the grown buffer's: the old sample or a new zero |
| Pcm.FrameCountExact | _geomusic.c:337-343 | a byte count that passes the whole-frame check is exactly 2·C times the frame count |
| Pcm.FrameCountOf | _geomusic.c:337-343 | a stream of 2·n·C bytes passes the whole-frame check and holds n frames |
| Pcm.ExportThenImport | _geomusic.c:343-412 | importing at 0 what `as_bytes` exported, into a fragment no longer than the exported one, gives every sample requantised: clamped, truncated, divided by 32678 |
| Pcm.ExportedSlot | _geomusic.c:355-410 | slot i·C + c of an export decodes to sample i of channel c requantised |
| Filter.DecEnvelope | filter.c:23-35 | every sample i of every channel ends divided by (1 + i/k)^p (`Enveloped`) |
| Filter.Reverse | filter.c:37-52 | every channel ends reversed (`ReversedAll`), including an empty fragment |
| Filter.ReverseChannel | filter.c:45-50 | the swap loop reverses channel c and leaves every other channel unchanged |
| Filter.ReverbWalk | filter.c:54-78 | when every write index is inside the buffer, each channel ends as `Reverberated` over input window [0, maxIndex] with its own taps |
| Filter.ReverbChannel | filter.c:63-76 | the downward walk on one channel, reading each sample before any write reaches it, ends at `Reverberated`; other channels are unchanged |
| Filter.EchoTaps | filter.c:69-75 | the tap loop at index i adds `ch[i]·gain` at i + time for each tap and nothing elsewhere |
| Filter.EchoTapStep | filter.c:71-74 | adding tap d adds its echo of sample i at i + time_d, and nothing at any other index |
| Filter.SizeSub | filter.c:45 | `size_t` subtraction is the difference when it is non-negative and wraps by 2^64 otherwise |
| Filter.ReverseEmptyAsWritten | filter.c:45 | as written, j starts at length − 1 on a non-empty fragment; on an empty one j wraps to 2^64 − 1, which is positive, so the loop is entered |
| Filter.ReverbEmptyAsWritten | _geomusic.c:996 | as written, `max_index` is inside the grown buffer on a non-empty fragment; on an empty one it wraps to 2^64 − 1, beyond the buffer whatever the delays |
| Geomusic.DecEnvelope | _geomusic.c:820-847 | k = 0 fails and changes nothing; otherwise the samples become `Enveloped(old, length, k, p)` |
| Geomusic.Reverse | _geomusic.c:854-876 | every channel ends reversed |
| Geomusic.MaxDelay | _geomusic.c:949-984 | the running maximum, tap by tap over every channel, bounds every delay, is attained (or 0) and equals `LargestDelay` |
| Geomusic.AllNonNegative | _geomusic.c:951-974 | true exactly when no requested delay time is negative |
| Geomusic.Reverb | _geomusic.c:905-1021 | a negative delay time fails and changes nothing; otherwise the length grows by the largest delay, and each channel is grown and then reverberated over the input window of its old samples |
| Geomusic.GrowAndWalk | _geomusic.c:996-1015 | growth by the largest delay, then the walk from the last old sample (none on an empty fragment), gives `ReverbAll(Grown(old, length + max), delays, length)` |
| Geomusic.ReverbAllEmptyInput | _geomusic.c:996-1015 | with no old samples the reverb leaves the grown buffer as it is |
| Geomusic.ReverbWritesInBounds | _geomusic.c:996-1012 | every write index i + time, for i below the old length, is inside the buffer grown by the largest delay |
| Text.Extension | splat/data.py:35 | the text after the last '.' holds no '.' and is a suffix of the name |
| Text.ExtensionOfPlainName | splat/data.py:35 | a name without '.' is its own extension |
| Text.ExtensionAfterLastDot | splat/data.py:35 | the extension of `base.ext` is `ext`, whatever `base` holds |
| Text.Lower | splat/data.py:35 | lower-casing keeps the length |
| Text.LowerProperties | splat/data.py:35 | lower-casing leaves no capital, keeps every other character, is idempotent, and adds no '.' |
| Text.Split | splat/data.py:78 | splitting always gives at least one piece |
| Text.SplitPlain | splat/data.py:78 | a string without the separator splits into itself alone |
| Text.SplitAtFirst | splat/data.py:78 | `a + sep + b`, with no separator in a, splits into a followed by the pieces of b |
| Text.SplitJoin | splat/data.py:128 | splitting undoes joining for a non-empty list of separator-free pieces |
| Text.JoinSplit | splat/data.py:78 | joining undoes splitting for every string |
| Text.ParseInt | splat/data.py:80 | text that parses as an integer is non-empty |
| Text.ShowNat | splat/data.py:128 | the decimal text of a natural number is a non-empty run of digits |
| Text.ShowNatValue | splat/data.py:128 | the digits of n read back as n |
| Text.ParseShowInt | splat/data.py:80 | `int(str(x)) == x` for every integer x |
| Text.ShowIntPlain | splat/data.py:128 | the text of an integer holds no space and no '=' |
| Data.GetFmt | splat/data.py:32-38 | a given format is kept; with none, a file object fails with "format required", and a name gives a lower-case format without '.' |
| Data.GetFmtOfExtension | splat/data.py:35 | a name `base.ext` gives `ext` lower-cased |
| Data.GetFmtOfPlainName | splat/data.py:35 | a name without '.' gives the whole name lower-cased |
| Data.NextCount | splat/data.py:46 | the next chunk holds at most what remains and at most the chunk size, and at least one frame while frames remain |
| Data.ReadChunks | splat/data.py:40-50 | a zero frame size fails; otherwise the chunks tile [0, length): they start at 0, are consecutive, hold 1 to 65536/frameSize frames each, all full but the last, and end at length |
| Data.TilingExtend | splat/data.py:45-50 | a tiling whose last chunk is full extends by one more chunk at its end |
| Data.ReadChunksStalls | splat/data.py:43-49 | a frame larger than 64 KiB gives chunk size 0, and a pass of the loop then leaves the remaining count unchanged |
| Data.TilingCovers | splat/data.py:45-50 | every frame of [0, length) lies in exactly one chunk |
| Data.TilingCoversPrefix | splat/data.py:45-50 | the first m chunks cover every frame before the end of chunk m − 1 |
| Data.TilingOrdered | splat/data.py:45-50 | a later chunk starts at or after the end of an earlier one |
| Data.ChunkSlot | splat/data.py:47-48 | slot (j − cur)·C + c of the chunk read at frame cur is slot j·C + c of the whole stream |
| Data.ReadInto | splat/data.py:40-50 | a zero frame size fails; a width other than 2 fails at the first import and changes nothing; otherwise, importing each chunk of the `ReadChunks` schedule at its start frame leaves the fragment as one import of the whole stream at frame 0 |
| Data.TilingStep | splat/data.py:45-50 | in a tiling, chunk k starts where the first k chunks end, and it ends inside [0, length] |
| Data.TilingEnd | splat/data.py:45-50 | all the chunks of a tiling cover [0, length), and a non-empty fragment gets at least one chunk |
| Data.ImportedWhole | splat/data.py:40-50 | a stream of exactly length frames, imported at 0, decodes every sample from its own slot |
| Data.ImportChunk | splat/data.py:46-48 | one pass fails on a width other than 2 without changing anything; otherwise it decodes frames [cur, cur + n) from the stream and keeps the rest |
| Data.ChunkBounds | splat/data.py:46-47 | the bytes of n frames at frame cur lie inside the stream and are n frames long |
| Data.ChunkImported | splat/data.py:47-48 | importing the chunk at frame cur gives the stream's own slots inside the window and keeps the rest |
| Data.Items | splat/data.py:128 | one `k=v` item per attribute |
| Data.ParsePairs | splat/data.py:78 | an item that does not split into exactly a key and a value makes the header malformed; a success gives one pair per item |
| Data.ToMapLookup | splat/data.py:78 | the dict maps a key to the value of its last pair |
| Data.ReadIntShown | splat/data.py:80 | `int(attr[key])` reads back exactly the integer whose decimal text is stored under the key |
| Data.OpenSaf | splat/data.py:69-84 | a format other than "saf", or a wrong magic line, is not a .saf file; with format "saf" and the right magic line the file is never taken for another kind; an accepted header has format ≤ 1 and the library's precision |
| Data.OpenSafHeader | splat/data.py:75-84 | a wrong magic line, and only that, means not a .saf file; an attribute line that does not parse is a malformed header; an accepted header has format ≤ 1, the library's precision, and exactly the five integers read from the attribute line |
| Data.OpenSafChecks | splat/data.py:78-84 | for every attribute line whose five integers are read: a format above 1 fails with "format too recent" before the precision is looked at, then a precision other than the library's fails, and otherwise the header holds exactly the integers read |
| Data.ItemShape | splat/data.py:128 | an item is the key, '=', then the value |
| Data.ItemSplits | splat/data.py:78 | an item of plain strings splits back into its key and value |
| Data.ParseItems | splat/data.py:78 | the items of plain attributes parse back into those attributes |
| Data.HeaderRoundTrip | splat/data.py:78 | the line built from a non-empty list of plain attributes parses into the dict of that list |
| Data.EmptyHeaderRejected | splat/data.py:78 | an empty attribute line is malformed |
| Data.SafRoundTrip | splat/data.py:75-84 | reading the header `save_saf` writes gives back its rate, channel count, length and precision with format 1, or a precision mismatch when the library's precision differs |
| Data.SafAttributesPlain | splat/data.py:118-128 | no key or value `save_saf` writes holds a space or '=', given a checksum without them |
| Data.SafAttributesMap | splat/data.py:118-128 | the dict of the written attributes maps rate, channels, length, precision and format to their decimal text |

## Left out

- Floating point: samples, gains and the envelope base are exact reals. The float32
  storage, double arithmetic and `pow` rounding of the C code are not modelled.
- `dB2lin` and `lin2dB`: gains reach `amp` and the reverb as linear values.
- `normalize`, `sine` and `overtones`: they are floating-point generators and
  normalisation, outside this model.
- The reverb's random jitter (`srand`, `rand`, `time`): each channel's taps, in samples, and
  the requested tap times, in seconds, are inputs. The times are used only for the
  negativity check.
- The Python C-API layer: argument parsing, the tuple and float type checks with their
  errors, the type table and module setup.
- Fragments.Fragment.Set: the tuple holds reals already, so the float check of each item,
  which fails after the earlier channels have been written, is not modelled.
- Allocation failures: a `PyMem_Malloc` or `PyMem_Realloc` failure, including the one in
  the middle of `do_resize` that leaves channels of different lengths, is not modelled. The
  leaks on the reverb's error paths are left out too.
- The C object keeps a separate buffer per channel (NULL when empty). The model keeps one
  two-dimensional array that a growth replaces, so it does not model per-channel aliasing.
- Fragments.Fragment.Mix: requires `start >= 0`, because a negative double converted to
  `size_t` is undefined in C. It also requires `other` to be a different fragment; mixing a
  fragment into itself is not modelled.
- Fragments.Fragment.ImportBytes: requires at least one channel, because the whole-frame
  check divides by zero without one. `start` is a natural number, whereas the C `int` may be
  negative.
- Fragments.Fragment.Get: Python's negative indices (an adjustment made by the sequence
  protocol before `sq_item`) are not modelled; a negative index fails.
- Filter.DecEnvelope: the exponent p is a natural number, not a real, and every divisor
  must be non-zero. An infinite or NaN result is not modelled.
- Geomusic.DecEnvelope: passes on the same limits to `Filter.DecEnvelope`: a natural-number
  exponent and non-zero divisors.
- Geomusic.Reverb: the tuple-shape checks of each delay are left out. A negative time is
  reported before anything changes, as in the source, but the order in which a later
  tuple's shape error would show is not modelled.
- Data.ReadChunks: requires a frame size of at most 64 KiB. With a larger one the chunk
  size is 0 and the loop never ends; `Data.ReadChunksStalls` states that stall.
- Data.ReadInto: models `open_wav`'s call, with the frame size taken as width × channels.
  The stream must hold exactly `length` frames, since the `wave` reader is not modelled.
- The body of a .saf file: the import with sample width 0 (native floats), the
  `Fragment(...)` creation from the header and the MD5 check are left out. The library's
  `sample_precision` comes from a C module that is not part of this model, so it is a
  parameter.
- Data.SafRoundTrip: proved for the attributes in the order of `save_saf`'s dict literal.
  Python 2's `iteritems` order is hash order; the keys are distinct, so any order gives
  the same dict, but the model does not prove this for every order.
- Text.ParseInt: Python's `int` also accepts surrounding whitespace and a '+' sign; the
  model accepts only an optional '-' followed by decimal digits.
- Text.Lower: lower-cases ASCII capitals only.
- The trailing newline removed by `readline().strip('\n')`: the header lines are given
  without it.
- File, `wave` and MD5 I/O, the opener and saver dispatch, and `save_wav` are left out.

## Findings

| source | as written | input that shows it | evidently intended | confidence | as-written member | corrected member |
|---|---|---|---|---|---|---|
| filter.c:45 | `j = frag->length - 1` on `size_t`, loop while `i < j`; `geomusic_reverse` (_geomusic.c:867) is the same | a fragment of length 0: j wraps to 2^64 − 1, so 0 < j and the loop reads and writes sample 2^64 − 1 of an empty (NULL) channel | an empty fragment is left as it is | not executed | Filter.ReverseEmptyAsWritten | Filter.Reverse |
| _geomusic.c:996 | `max_index = frag->length - 1` on `size_t`, then the walk starts at `max_index` after growth by `max_delay` | a fragment of length 0 with any delays: `max_index` is 2^64 − 1, beyond the `max_delay` samples of the grown buffer, and `c_data[max_index]` is read | an empty fragment only grows by the largest delay, and no walk happens | not executed | Filter.ReverbEmptyAsWritten | Geomusic.GrowAndWalk |
