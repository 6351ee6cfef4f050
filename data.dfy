/** The Python data layer of `splat/data.py` that the model keeps: the
    format guess from a file name, the chunked import loop, and the header
    of a Splat Audio Fragment (.saf) file as `save_saf` writes it and
    `open_saf` reads and checks it. */
module Data {
  import opened Wrappers
  import opened Signal
  import opened Pcm
  import opened Fragments
  import opened Text

  // ---------------------------------------------------------------------------
  // _get_fmt

  /** The file argument of the openers: a file name or an open file object. */
  datatype FileArg = Name(name: string) | FileObject

  /** `_get_fmt`: a format given explicitly is kept; otherwise a file name
      gives its lower-cased extension and a file object is an error. */
  function GetFmt(f: FileArg, fmt: Option<string>): (r: Result<string>)
    ensures fmt.Some? ==> r == Success(fmt.value)
    ensures fmt.None? ==> (r.Failure? <==> f.FileObject?)
    ensures r.Failure? ==> r.error == FormatRequired
    ensures fmt.None? && r.Success? ==> '.' !in r.value && IsLower(r.value)
  {
    if fmt.Some? then Success(fmt.value)
    else if f.Name? then
      var e := Extension(f.name);
      LowerProperties(e);
      Success(Lower(e))
    else Failure(FormatRequired)
  }

  /** A name `base.ext` gives `ext` in lower case, whatever `base` holds. */
  lemma GetFmtOfExtension(base: string, ext: string)
    requires '.' !in ext
    ensures GetFmt(Name(base + "." + ext), None) == Success(Lower(ext))
  {
    ExtensionAfterLastDot(base, ext);
  }

  /** A name without a '.' is taken whole as the format. */
  lemma GetFmtOfPlainName(name: string)
    requires '.' !in name
    ensures GetFmt(Name(name), None) == Success(Lower(name))
  {
    ExtensionOfPlainName(name);
    assert Extension(name) == name;
    var r := GetFmt(Name(name), None);
    assert r == Success(Lower(Extension(name)));
  }

  // ---------------------------------------------------------------------------
  // _read_chunks

  /** The bytes read per chunk: 64 KiB. */
  const ChunkBytes: nat := 64 * 1024

  /** One `import_bytes` call of the loop: `count` frames at `start`. */
  datatype Chunk = Chunk(start: nat, count: nat)

  /** `chunks` tile [0, length): they start at 0, each starts where the one
      before it ended, each holds between 1 and `size` frames, every one but
      the last holds exactly `size`, and the last ends at `length`. */
  predicate Tiling(chunks: seq<Chunk>, length: nat, size: nat)
  {
    (forall k :: 0 <= k < |chunks| ==> 0 < chunks[k].count <= size) &&
    (forall k :: 0 <= k < |chunks| - 1 ==> chunks[k].count == size) &&
    (forall k :: 0 < k < |chunks| ==> chunks[k].start == chunks[k - 1].start + chunks[k - 1].count) &&
    (|chunks| == 0 ==> length == 0) &&
    (|chunks| > 0 ==> chunks[0].start == 0 && chunks[|chunks| - 1].start + chunks[|chunks| - 1].count == length)
  }

  /** Frames in the next chunk when `rem` frames remain. */
  function NextCount(rem: nat, size: nat): (n: nat)
    ensures n <= rem && n <= size
    ensures rem > 0 && size > 0 ==> n > 0
  {
    if rem >= size then size else rem
  }

  /** The import calls `_read_chunks` makes for a fragment of `length`
      frames of `frameSize` bytes each. A zero frame size divides by zero.
      A frame larger than 64 KiB makes the chunk size 0, on which the loop
      never ends (`ReadChunksStalls`); callers here do not pass one. */
  method ReadChunks(length: nat, frameSize: nat) returns (r: Result<seq<Chunk>>)
    requires length == 0 || frameSize <= ChunkBytes
    ensures frameSize == 0 ==> r == Failure(ZeroFrameSize)
    ensures frameSize > 0 ==> r.Success? && Tiling(r.value, length, ChunkBytes / frameSize)
  {
    if frameSize == 0 {
      return Failure(ZeroFrameSize);
    }
    var size := ChunkBytes / frameSize;
    var rem, cur := length, 0;
    var chunks: seq<Chunk> := [];
    while rem > 0
      invariant cur + rem == length
      invariant Tiling(chunks, cur, size)
      invariant rem > 0 ==> size > 0
      invariant rem > 0 && |chunks| > 0 ==> chunks[|chunks| - 1].count == size
      decreases rem
    {
      var n := NextCount(rem, size);
      TilingExtend(chunks, cur, size, n);
      chunks := chunks + [Chunk(cur, n)];
      rem, cur := rem - n, cur + n;
    }
    return Success(chunks);
  }

  /** A tiling of [0, cur) whose last chunk is full extends by a chunk of
      `n` frames at `cur` to a tiling of [0, cur + n). */
  lemma TilingExtend(chunks: seq<Chunk>, cur: nat, size: nat, n: nat)
    requires Tiling(chunks, cur, size) && 0 < n <= size
    requires |chunks| > 0 ==> chunks[|chunks| - 1].count == size
    ensures Tiling(chunks + [Chunk(cur, n)], cur + n, size)
  {
    var t := chunks + [Chunk(cur, n)];
    assert forall k :: 0 <= k < |chunks| ==> t[k] == chunks[k];
  }

  /** With a frame larger than 64 KiB the chunk size is 0, so every pass of
      the loop imports nothing and leaves the remaining count as it was. */
  lemma ReadChunksStalls(frameSize: nat, rem: nat)
    requires frameSize > ChunkBytes
    ensures ChunkBytes / frameSize == 0
    ensures rem - NextCount(rem, ChunkBytes / frameSize) == rem
  {
  }

  /** Every frame of [0, length) lies in exactly one chunk of a tiling. */
  lemma TilingCovers(chunks: seq<Chunk>, length: nat, size: nat, j: nat)
    requires Tiling(chunks, length, size) && j < length
    ensures exists k :: 0 <= k < |chunks| && chunks[k].start <= j < chunks[k].start + chunks[k].count
    ensures forall k, k' :: (0 <= k < |chunks| && 0 <= k' < |chunks| &&
                             chunks[k].start <= j < chunks[k].start + chunks[k].count &&
                             chunks[k'].start <= j < chunks[k'].start + chunks[k'].count) ==> k == k'
  {
    TilingCoversPrefix(chunks, length, size, j, |chunks|);
    forall k, k' | 0 <= k < |chunks| && 0 <= k' < |chunks| &&
                   chunks[k].start <= j < chunks[k].start + chunks[k].count &&
                   chunks[k'].start <= j < chunks[k'].start + chunks[k'].count
      ensures k == k'
    {
      if k < k' {
        TilingOrdered(chunks, length, size, k, k');
      } else if k' < k {
        TilingOrdered(chunks, length, size, k', k);
      }
    }
  }

  /** The first `m` chunks cover [0, end of chunk m - 1). */
  lemma {:induction false} TilingCoversPrefix(chunks: seq<Chunk>, length: nat, size: nat, j: nat, m: nat)
    requires Tiling(chunks, length, size) && 0 < m <= |chunks|
    requires j < chunks[m - 1].start + chunks[m - 1].count
    ensures exists k :: 0 <= k < m && chunks[k].start <= j < chunks[k].start + chunks[k].count
  {
    if chunks[m - 1].start <= j {
      assert chunks[m - 1].start <= j < chunks[m - 1].start + chunks[m - 1].count;
    } else {
      TilingCoversPrefix(chunks, length, size, j, m - 1);
    }
  }

  /** A later chunk starts at or after the end of an earlier one. */
  lemma {:induction false} TilingOrdered(chunks: seq<Chunk>, length: nat, size: nat, k: nat, k': nat)
    requires Tiling(chunks, length, size) && k < k' < |chunks|
    ensures chunks[k].start + chunks[k].count <= chunks[k'].start
  {
    if k + 1 < k' {
      TilingOrdered(chunks, length, size, k, k' - 1);
    }
  }

  /** The chunk that frame `j` falls into, in a stream of frames of
      `channels` 16-bit samples: slot `(j - cur) * channels + c` of the
      chunk read at frame `cur` is slot `j * channels + c` of the stream. */
  lemma ChunkSlot(stream: seq<byte>, channels: nat, length: nat, cur: nat, n: nat, j: nat, c: nat)
    requires |stream| == length * (2 * channels) && cur + n <= length
    requires cur <= j < cur + n && c < channels
    ensures cur * (2 * channels) <= (cur + n) * (2 * channels) <= |stream|
    ensures SlotSample(stream[cur * (2 * channels)..(cur + n) * (2 * channels)], (j - cur) * channels + c)
              == SlotSample(stream, j * channels + c)
  {
    var f := 2 * channels;
    MulLess(cur, cur + n, f);
    MulLess(cur + n, length, f);
    var chunk := stream[cur * f..(cur + n) * f];
    var k, big := (j - cur) * channels + c, j * channels + c;
    assert |chunk| == n * f by { assert (cur + n) * f - cur * f == n * f; }
    SlotInBounds(j - cur, n, channels, c);
    SlotInBounds(j, length, channels, c);
    assert 2 * n * channels == n * f && 2 * length * channels == length * f;
    assert cur * f + 2 * k == 2 * big by {
      assert (j - cur) * channels == j * channels - cur * channels;
      assert cur * f == 2 * (cur * channels);
    }
    assert chunk[2 * k] == stream[2 * big] && chunk[2 * k + 1] == stream[2 * big + 1];
  }

  /** `_read_chunks` as `open_wav` runs it on a fragment of `length`
      frames, with `readf(n)` handing over the next `n` frames of `stream`:
      each chunk of the schedule `ReadChunks` computes is imported at its
      start frame. The frame size is `sampleWidth * channels`. The first
      import rejects a width other than 2 and changes nothing; otherwise the
      fragment ends as one import of the whole stream at frame 0 would leave
      it. */
  method ReadInto(frag: Fragment, stream: seq<byte>, sampleWidth: nat) returns (r: Outcome)
    requires frag.Valid() && frag.channels > 0
    requires |stream| == frag.length * (sampleWidth * frag.channels)
    requires frag.length == 0 || sampleWidth * frag.channels <= ChunkBytes
    modifies frag, frag.data
    ensures frag.Valid() && frag.length == old(frag.length)
    ensures r == if sampleWidth == 0 then Fail(ZeroFrameSize)
                 else if frag.length > 0 && sampleWidth != SampleWidth then Fail(UnsupportedWidth)
                 else Pass
    ensures r.Fail? ==> frag.Samples() == old(frag.Samples())
    ensures r.Pass? ==>
              FrameCount(stream, frag.channels) == frag.length &&
              frag.Samples() == Imported(old(frag.Samples()), frag.length, stream, 0)
  {
    var channels, length := frag.channels, frag.length;
    var schedule := ReadChunks(length, sampleWidth * channels);
    if schedule.Failure? {
      return Fail(schedule.error);
    }
    var chunks := schedule.value;
    ghost var size := ChunkBytes / (sampleWidth * channels);
    ghost var before := frag.Samples();
    for k := 0 to |chunks|
      invariant frag.Valid() && frag.length == length
      invariant frag.data == old(frag.data) || fresh(frag.data)
      invariant k > 0 ==> sampleWidth == SampleWidth
      invariant forall c, j :: 0 <= c < channels && 0 <= j < length ==>
                  frag.data[c, j] == if j < Covered(chunks, k) then SlotSample(stream, j * channels + c) else before[c][j]
    {
      TilingStep(chunks, length, size, k);
      var res := ImportChunk(frag, stream, sampleWidth, chunks[k].start, chunks[k].count);
      if res.Fail? {
        frag.SamplesAre(before);
        return res;
      }
    }
    TilingEnd(chunks, length, size);
    ImportedWhole(before, length, stream);
    frag.SamplesAre(Imported(before, length, stream, 0));
    return Pass;
  }

  /** The frames the first `k` chunks cover: [0, Covered(chunks, k)). */
  function Covered(chunks: seq<Chunk>, k: nat): nat
    requires k <= |chunks|
  {
    if k == 0 then 0 else chunks[k - 1].start + chunks[k - 1].count
  }

  /** Chunk `k` of a tiling starts where the first `k` chunks end, and ends
      inside [0, length]. */
  lemma TilingStep(chunks: seq<Chunk>, length: nat, size: nat, k: nat)
    requires Tiling(chunks, length, size) && k < |chunks|
    ensures chunks[k].start == Covered(chunks, k)
    ensures Covered(chunks, k + 1) <= length
  {
    if k < |chunks| - 1 {
      TilingOrdered(chunks, length, size, k, |chunks| - 1);
    }
  }

  /** All the chunks of a tiling cover [0, length). */
  lemma TilingEnd(chunks: seq<Chunk>, length: nat, size: nat)
    requires Tiling(chunks, length, size)
    ensures Covered(chunks, |chunks|) == length
    ensures length > 0 ==> |chunks| > 0
  {
  }

  /** A stream of exactly `length` frames imported at frame 0 of a
      fragment of `length` frames: every sample decoded from its own slot. */
  lemma ImportedWhole(s: seq<seq<real>>, length: nat, stream: seq<byte>)
    requires |s| > 0 && Rect(s, |s|, length) && |stream| == length * (2 * |s|)
    ensures |stream| % (2 * |s|) == 0 && FrameCount(stream, |s|) == length
    ensures Rect(Imported(s, length, stream, 0), |s|, length)
    ensures forall c, j :: 0 <= c < |s| && 0 <= j < length ==>
              Imported(s, length, stream, 0)[c][j] == SlotSample(stream, j * |s| + c)
  {
    assert |stream| == 2 * length * |s|;
    FrameCountOf(stream, |s|, length);
    forall c, j | 0 <= c < |s| && 0 <= j < length
      ensures Imported(s, length, stream, 0)[c][j] == SlotSample(stream, j * |s| + c)
    {
      ImportedAt(s, length, stream, 0, c, j);
    }
  }

  /** One pass of the loop: read `n` frames at frame `cur` and import them
      there. */
  method ImportChunk(frag: Fragment, stream: seq<byte>, sampleWidth: nat, cur: nat, n: nat) returns (r: Outcome)
    requires frag.Valid() && frag.channels > 0 && cur + n <= frag.length
    requires |stream| == frag.length * (sampleWidth * frag.channels)
    modifies frag, frag.data
    ensures frag.Valid() && frag.length == old(frag.length)
    ensures frag.data == old(frag.data) || fresh(frag.data)
    ensures r == if sampleWidth != SampleWidth then Fail(UnsupportedWidth) else Pass
    ensures r.Fail? ==> forall c, j :: 0 <= c < frag.channels && 0 <= j < frag.length ==>
              frag.data[c, j] == old(frag.data[c, j])
    ensures r.Pass? ==> forall c, j :: 0 <= c < frag.channels && 0 <= j < frag.length ==>
              frag.data[c, j] ==
                if cur <= j < cur + n then SlotSample(stream, j * frag.channels + c) else old(frag.data[c, j])
  {
    var channels, length, frameSize := frag.channels, frag.length, sampleWidth * frag.channels;
    ChunkBounds(cur, n, length, frameSize);
    var chunk := stream[cur * frameSize..(cur + n) * frameSize];
    ghost var s := frag.Samples();
    if sampleWidth == SampleWidth {
      FrameCountOf(chunk, channels, n);
    }
    r := frag.ImportBytes(chunk, cur, sampleWidth, frag.rate, channels);
    if r.Fail? {
      return;
    }
    ChunkImported(s, length, stream, chunk, cur, n);
    ghost var t := frag.Samples();
    assert |t[0]| == length;
  }

  /** The byte range of `n` frames at frame `cur` lies inside a stream of
      `length` frames and holds `n` frames. */
  lemma ChunkBounds(cur: nat, n: nat, length: nat, frameSize: nat)
    requires cur + n <= length
    ensures cur * frameSize <= (cur + n) * frameSize <= length * frameSize
    ensures (cur + n) * frameSize - cur * frameSize == n * frameSize
  {
    MulLess(cur, cur + n, frameSize);
    MulLess(cur + n, length, frameSize);
  }

  /** Importing the chunk of `n` frames at frame `cur` of a stream of
      `length` frames, into a fragment of `length` frames, decodes the
      stream's own slots inside the window and keeps the rest. */
  lemma ChunkImported(s: seq<seq<real>>, length: nat, stream: seq<byte>, chunk: seq<byte>, cur: nat, n: nat)
    requires |s| > 0 && Rect(s, |s|, length) && cur + n <= length
    requires |stream| == length * (2 * |s|)
    requires cur * (2 * |s|) <= (cur + n) * (2 * |s|) <= |stream|
    requires chunk == stream[cur * (2 * |s|)..(cur + n) * (2 * |s|)]
    ensures |chunk| % (2 * |s|) == 0 && FrameCount(chunk, |s|) == n
    ensures Rect(Imported(s, length, chunk, cur), |s|, length)
    ensures forall c, j :: 0 <= c < |s| && 0 <= j < length ==>
              Imported(s, length, chunk, cur)[c][j] ==
                if cur <= j < cur + n then SlotSample(stream, j * |s| + c) else s[c][j]
  {
    var channels := |s|;
    ChunkBounds(cur, n, length, 2 * channels);
    assert |chunk| == 2 * n * channels;
    FrameCountOf(chunk, channels, n);
    forall c, j | 0 <= c < channels && 0 <= j < length
      ensures Imported(s, length, chunk, cur)[c][j] ==
                if cur <= j < cur + n then SlotSample(stream, j * channels + c) else s[c][j]
    {
      ImportedAt(s, length, chunk, cur, c, j);
      if cur <= j < cur + n {
        ChunkSlot(stream, channels, length, cur, n, j, c);
      }
    }
  }

  // ---------------------------------------------------------------------------
  // The .saf header

  /** SAF_MAGIC, the first line of a .saf file. */
  const SafMagic: string := "Splat!"
  /** SAF_FORMAT, the newest format this version writes and reads. */
  const SafFormat: int := 1
  /** VERSION_STR and BUILD of the package. */
  const VersionStr: string := "1.1"
  const Build: int := 7

  /** The attributes `save_saf` writes, in the order of its dict literal. */
  function SafAttributes(channels: nat, rate: nat, precision: int, length: nat, md5: string): seq<(string, string)>
  {
    [("version", VersionStr), ("build", ShowInt(Build)), ("format", ShowInt(SafFormat)),
     ("channels", ShowInt(channels)), ("rate", ShowInt(rate)), ("precision", ShowInt(precision)),
     ("length", ShowInt(length)), ("md5", md5)]
  }

  /** One `k=v` item of the header line. */
  function Item(kv: (string, string)): string
  {
    Join([kv.0, kv.1], '=')
  }

  function Items(attrs: seq<(string, string)>): (items: seq<string>)
    ensures |items| == |attrs|
  {
    seq(|attrs|, i requires 0 <= i < |attrs| => Item(attrs[i]))
  }

  /** The attribute line: the `k=v` items joined by spaces. */
  function HeaderLine(attrs: seq<(string, string)>): string
  {
    Join(Items(attrs), ' ')
  }

  /** The attribute line `save_saf` writes after the magic line. */
  function SaveSafHeader(channels: nat, rate: nat, precision: int, length: nat, md5: string): string
  {
    HeaderLine(SafAttributes(channels, rate, precision, length, md5))
  }

  /** The dict comprehension: every item must split on '=' into exactly a
      key and a value. */
  function ParsePairs(items: seq<string>): (r: Result<seq<(string, string)>>)
    ensures r.Success? ==> |r.value| == |items|
    ensures r.Failure? ==> r.error == MalformedHeader
  {
    if |items| == 0 then Success([])
    else
      var parts := Split(items[0], '=');
      if |parts| != 2 then Failure(MalformedHeader)
      else
        var rest :- ParsePairs(items[1..]);
        Success([(parts[0], parts[1])] + rest)
  }

  /** The dict the pairs build: a later pair with the same key wins. */
  function ToMap(pairs: seq<(string, string)>): map<string, string>
  {
    if |pairs| == 0 then map[]
    else ToMap(pairs[..|pairs| - 1])[pairs[|pairs| - 1].0 := pairs[|pairs| - 1].1]
  }

  /** The dict maps a key to the value of its last pair. */
  lemma {:induction false} ToMapLookup(pairs: seq<(string, string)>, i: nat)
    requires i < |pairs| && forall k :: i < k < |pairs| ==> pairs[k].0 != pairs[i].0
    ensures pairs[i].0 in ToMap(pairs) && ToMap(pairs)[pairs[i].0] == pairs[i].1
  {
    if i < |pairs| - 1 {
      ToMapLookup(pairs[..|pairs| - 1], i);
    }
  }

  /** `open_saf`'s parse of the attribute line into a dict. */
  function ParseAttributes(line: string): Result<map<string, string>>
  {
    var pairs :- ParsePairs(Split(line, ' '));
    Success(ToMap(pairs))
  }

  /** `int(attr[key])`. */
  function ReadInt(attrs: map<string, string>, key: string): (r: Result<int>)
    ensures r.Failure? <==> key !in attrs || ParseInt(attrs[key]).None?
    ensures r.Success? ==> ParseInt(attrs[key]) == Some(r.value)
  {
    if key !in attrs then Failure(MissingAttribute)
    else
      var v := ParseInt(attrs[key]);
      if v.None? then Failure(NotAnInteger) else Success(v.value)
  }

  /** The five integers `open_saf` reads from the header. */
  datatype SafHeader = SafHeader(rate: int, channels: int, length: int, precision: int, format: int)

  /** What `open_saf` makes of a file: not a .saf file (`None`), or a
      header that passed its checks. */
  datatype SafOpened = NotSaf | Opened(header: SafHeader)

  /** `open_saf` up to the creation of the fragment: a format other than
      "saf" or a wrong magic line is not a .saf file; the attributes rate,
      channels, length, precision and format are read in that order; a
      format newer than SAF_FORMAT, then a precision other than the
      library's sample precision, is rejected. */
  function OpenSaf(file: FileArg, fmt: Option<string>, magicLine: string, attrLine: string, samplePrecision: int)
    : (r: Result<SafOpened>)
    ensures GetFmt(file, fmt).Success? && GetFmt(file, fmt).value != "saf" ==> r == Success(NotSaf)
    ensures GetFmt(file, fmt) == Success("saf") && magicLine != SafMagic ==> r == Success(NotSaf)
    ensures GetFmt(file, fmt) == Success("saf") && magicLine == SafMagic ==> r != Success(NotSaf)
    ensures r.Success? && r.value.Opened? ==>
              r.value.header.format <= SafFormat && r.value.header.precision == samplePrecision
  {
    var f :- GetFmt(file, fmt);
    if f != "saf" then Success(NotSaf)
    else OpenSafHeader(magicLine, attrLine, samplePrecision)
  }

  function OpenSafHeader(magicLine: string, attrLine: string, samplePrecision: int): (r: Result<SafOpened>)
    ensures magicLine != SafMagic ==> r == Success(NotSaf)
    ensures magicLine == SafMagic ==> r != Success(NotSaf)
    ensures magicLine == SafMagic && ParseAttributes(attrLine).Failure? ==> r == Failure(MalformedHeader)
    ensures r.Success? && r.value.Opened? ==>
              r.value.header.format <= SafFormat && r.value.header.precision == samplePrecision
    ensures r.Success? && r.value.Opened? ==>
              ParseAttributes(attrLine).Success? &&
              SafFields(ParseAttributes(attrLine).value) == Success(r.value.header)
  {
    if magicLine != SafMagic then Success(NotSaf)
    else
      var attrs :- ParseAttributes(attrLine);
      var h :- SafFields(attrs);
      if h.format > SafFormat then Failure(FormatTooRecent)
      else if h.precision != samplePrecision then Failure(PrecisionMismatch)
      else Success(Opened(h))
  }

  /** The five attributes of a header dict, read as integers in the order
      `open_saf` reads them; the first that is missing or no integer fails. */
  function SafFields(attrs: map<string, string>): (r: Result<SafHeader>)
    ensures r.Success? <==> forall key :: key in SafKeys ==> ReadInt(attrs, key).Success?
  {
    var rate :- ReadInt(attrs, "rate");
    var channels :- ReadInt(attrs, "channels");
    var length :- ReadInt(attrs, "length");
    var precision :- ReadInt(attrs, "precision");
    var format :- ReadInt(attrs, "format");
    Success(SafHeader(rate, channels, length, precision, format))
  }

  const SafKeys: set<string> := {"rate", "channels", "length", "precision", "format"}

  /** `int` reads back the decimal text of any integer stored under a key. */
  lemma ReadIntShown(attrs: map<string, string>, key: string, x: int)
    requires key in attrs && attrs[key] == ShowInt(x)
    ensures ReadInt(attrs, key) == Success(x)
  {
    ParseShowInt(x);
  }

  /** Whatever the attribute line, once the magic line is right and the five
      integers are read: a format newer than SAF_FORMAT fails first, then a
      precision other than the library's; otherwise the header carries
      exactly the integers read. */
  lemma OpenSafChecks(attrLine: string, samplePrecision: int, h: SafHeader)
    requires ParseAttributes(attrLine).Success?
    requires SafFields(ParseAttributes(attrLine).value) == Success(h)
    ensures OpenSafHeader(SafMagic, attrLine, samplePrecision) ==
              if h.format > SafFormat then Failure(FormatTooRecent)
              else if h.precision != samplePrecision then Failure(PrecisionMismatch)
              else Success(Opened(h))
  {
  }

  /** No key or value holds a space or an '='. */
  predicate Plain(attrs: seq<(string, string)>)
  {
    forall i :: 0 <= i < |attrs| ==>
      ' ' !in attrs[i].0 && '=' !in attrs[i].0 && ' ' !in attrs[i].1 && '=' !in attrs[i].1
  }

  lemma ItemShape(kv: (string, string))
    ensures Item(kv) == kv.0 + ['='] + kv.1
  {
    assert [kv.0, kv.1][1..] == [kv.1];
    assert Join([kv.1], '=') == kv.1;
  }

  /** An item `k=v` of plain strings splits back into `k` and `v`. */
  lemma ItemSplits(kv: (string, string))
    requires '=' !in kv.0 && '=' !in kv.1
    ensures Split(Item(kv), '=') == [kv.0, kv.1]
  {
    SplitJoin([kv.0, kv.1], '=');
  }

  lemma {:induction false} ParseItems(attrs: seq<(string, string)>)
    requires Plain(attrs)
    ensures ParsePairs(Items(attrs)) == Success(attrs)
  {
    if |attrs| > 0 {
      ItemSplits(attrs[0]);
      assert Items(attrs)[1..] == Items(attrs[1..]);
      ParseItems(attrs[1..]);
      assert [attrs[0]] + attrs[1..] == attrs;
    }
  }

  /** The header line round-trips: parsing the line built from a non-empty
      list of plain attributes gives the dict of that list. */
  lemma HeaderRoundTrip(attrs: seq<(string, string)>)
    requires |attrs| > 0 && Plain(attrs)
    ensures ParseAttributes(HeaderLine(attrs)) == Success(ToMap(attrs))
  {
    var items := Items(attrs);
    forall k | 0 <= k < |items|
      ensures ' ' !in items[k]
    {
      ItemShape(attrs[k]);
    }
    SplitJoin(items, ' ');
    ParseItems(attrs);
  }

  /** The line of an empty attribute list does not parse: the one empty
      item has no '='. */
  lemma EmptyHeaderRejected()
    ensures ParseAttributes(HeaderLine([])) == Failure(MalformedHeader)
  {
    assert Split("", ' ') == [""];
    assert Split("", '=') == [""];
  }

  /** What `save_saf` writes, `open_saf` reads back: the same rate, channel
      count, length and precision and format 1, provided the library's
      sample precision is the one written and the checksum text holds no
      space or '='; a header written with another precision is rejected. */
  lemma SafRoundTrip(channels: nat, rate: nat, precision: int, length: nat, md5: string, samplePrecision: int)
    requires ' ' !in md5 && '=' !in md5
    ensures OpenSafHeader(SafMagic, SaveSafHeader(channels, rate, precision, length, md5), samplePrecision) ==
              if precision != samplePrecision then Failure(PrecisionMismatch)
              else Success(Opened(SafHeader(rate, channels, length, precision, SafFormat)))
  {
    var attrs := SafAttributes(channels, rate, precision, length, md5);
    SafAttributesPlain(channels, rate, precision, length, md5);
    HeaderRoundTrip(attrs);
    SafAttributesMap(channels, rate, precision, length, md5);
    ParseShowInt(rate);
    ParseShowInt(channels);
    ParseShowInt(length);
    ParseShowInt(precision);
    ParseShowInt(SafFormat);
  }

  lemma SafAttributesPlain(channels: nat, rate: nat, precision: int, length: nat, md5: string)
    requires ' ' !in md5 && '=' !in md5
    ensures Plain(SafAttributes(channels, rate, precision, length, md5))
  {
    ShowIntPlain(Build);
    ShowIntPlain(SafFormat);
    ShowIntPlain(channels);
    ShowIntPlain(rate);
    ShowIntPlain(precision);
    ShowIntPlain(length);
    assert ' ' !in VersionStr && '=' !in VersionStr;
  }

  /** The dict of the attributes maps each integer key to its text. */
  lemma SafAttributesMap(channels: nat, rate: nat, precision: int, length: nat, md5: string)
    ensures var m := ToMap(SafAttributes(channels, rate, precision, length, md5));
            "rate" in m && m["rate"] == ShowInt(rate) &&
            "channels" in m && m["channels"] == ShowInt(channels) &&
            "length" in m && m["length"] == ShowInt(length) &&
            "precision" in m && m["precision"] == ShowInt(precision) &&
            "format" in m && m["format"] == ShowInt(SafFormat)
  {
    var attrs := SafAttributes(channels, rate, precision, length, md5);
    ToMapLookup(attrs, 2);
    ToMapLookup(attrs, 3);
    ToMapLookup(attrs, 4);
    ToMapLookup(attrs, 5);
    ToMapLookup(attrs, 6);
  }
}
