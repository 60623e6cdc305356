/**
 What the walk over the chunks means: on any file it stays in step with the chunk lengths, and
 on a file written from chunks it ends with the last format and the last sample data.
 */
module WavGrammar {
  import opened Bytes
  import opened WavReader
  import opened PcmInput

  // ----- resynchronisation, on any file

  /** The one exit that has read 16 bytes without taking them off the bytes left. */
  predicate ShortExtensible(file: seq<byte>, pos: nat, length: nat) {
    && length >= 8 && pos + 8 <= |file|
    && Tag(file, pos) == FMT
    && 16 <= UInt32(file, pos + 4) < 28
    && UInt32(file, pos + 4) <= length - 8
    && FormatAt(file, pos + 8).format == EXTENSIBLE
  }

  /** One round keeps cursor plus bytes left on the end of the RIFF chunk, except for that exit. */
  lemma StepKeepsEnd(file: seq<byte>, pos: nat, length: nat, wav: Wav)
    requires 8 <= length < TWO_31 && pos + length <= |file|
    ensures var s := ChunkStep(file, pos, length, wav);
            && (s.Next? ==> s.pos + s.length == pos + length
                            && s.pos == pos + 8 + UInt32(file, pos + 4))
            && (s.Stop? ==> s.pos + s.length
                            == if ShortExtensible(file, pos, length) then pos + length + 16 else pos + length)
    ensures ShortExtensible(file, pos, length) ==> ChunkStep(file, pos, length, wav).Stop?
  {
    hide FormatAt, Tag, Signed32;
  }

  /** Somewhere on its way from `pos` the inner loop meets a short extensible format. */
  predicate MeetsShortExtensible(file: seq<byte>, pos: nat, length: nat, wav: Wav)
    decreases length
  {
    length >= 8
    && (ShortExtensible(file, pos, length)
        || var s := ChunkStep(file, pos, length, wav);
           s.Next? && MeetsShortExtensible(file, s.pos, s.length, s.wav))
  }

  /** The inner loop leaves the cursor so that skipping what is left ends on the end of the RIFF chunk. */
  lemma {:induction false} WalkKeepsEnd(file: seq<byte>, pos: nat, length: nat, wav: Wav)
    requires length < TWO_31 && pos + length <= |file|
    ensures var s := WalkChunks(file, pos, length, wav);
            s.Stop? ==> s.pos + s.length
                        == if MeetsShortExtensible(file, pos, length, wav) then pos + length + 16 else pos + length
    decreases length
  {
    if length >= 8 {
      hide ChunkStep, ShortExtensible;
      StepKeepsEnd(file, pos, length, wav);
      var s := ChunkStep(file, pos, length, wav);
      if s.Next? {
        WalkKeepsEnd(file, s.pos, s.length, s.wav);
      }
    }
  }

  /** A chunk at `pos` whose length is neither a stream mark nor larger than the file allows. */
  predicate WholeChunk(file: seq<byte>, pos: nat) {
    && pos + 8 <= |file|
    && 0 < UInt32(file, pos + 4) < STREAM_LENGTH
    && pos + 8 + UInt32(file, pos + 4) <= |file|
  }

  /** The RIFF/WAVE chunk at `pos` holds a short extensible format the walk runs into. */
  predicate OutOfStep(file: seq<byte>, pos: nat, wav: Wav)
    requires WholeChunk(file, pos)
  {
    && Tag(file, pos) == RIFF && UInt32(file, pos + 4) >= 4 && Tag(file, pos + 8) == WAVE
    && MeetsShortExtensible(file, pos + 12, UInt32(file, pos + 4) - 4, wav)
  }

  /**
   Resynchronisation: whatever is inside a chunk, the outer loop goes on right behind it, 8 bytes
   and its length further, if and only if it does not run into a short extensible format.
   */
  lemma OuterLoopStaysInStep(file: seq<byte>, pos: nat, wav: Wav)
    requires WholeChunk(file, pos)
    requires RiffStep(file, pos, wav).Next?
    ensures RiffStep(file, pos, wav).pos == pos + 8 + UInt32(file, pos + 4) <==> !OutOfStep(file, pos, wav)
  {
    hide ChunkStep, ShortExtensible, MeetsShortExtensible;
    var size := UInt32(file, pos + 4);
    if Tag(file, pos) == RIFF && size >= 4 && Tag(file, pos + 8) == WAVE {
      WalkKeepsEnd(file, pos + 12, size - 4, wav);
    }
  }

  // ----- files written from chunks

  /** The raw fields of a `fmt ` chunk, and what follows them in the chunk. */
  datatype RawFormat = RawFormat(format: int, channels: int, sampleRate: int, byteRate: int, blockAlign: int,
                                 bitsPerSample: int, extension: seq<byte>)
  {
    predicate Valid() {
      && 0 <= format < 0x1_0000 && 0 <= channels < 0x1_0000
      && 0 <= sampleRate < TWO_32 && 0 <= byteRate < TWO_32
      && 0 <= blockAlign < 0x1_0000 && 0 <= bitsPerSample < 0x1_0000
      && |extension| < STREAM_LENGTH
      && (format == EXTENSIBLE ==> |extension| >= 12)
    }

    function Body(): (s: seq<byte>)
      requires Valid()
    {
      ToLittleEndian16(format) + ToLittleEndian16(channels) + ToLittleEndian32(sampleRate)
        + ToLittleEndian32(byteRate) + ToLittleEndian16(blockAlign) + ToLittleEndian16(bitsPerSample) + extension
    }

    /** The fields as the reader keeps them; an extensible format has its real one in the extension. */
    function Fields(): (f: Format)
      requires Valid()
    {
      Format(if format == EXTENSIBLE
             then Signed32(LittleEndian32(extension[8], extension[9], extension[10], extension[11])) else format,
             channels, Signed32(sampleRate), Signed32(byteRate), blockAlign, bitsPerSample)
    }
  }

  datatype Chunk = Fmt(raw: RawFormat) | Data(bytes: seq<byte>) | Other(tag: int, bytes: seq<byte>)
  {
    predicate Valid() {
      match this
      case Fmt(raw) => raw.Valid()
      case Data(bytes) => |bytes| < STREAM_LENGTH
      case Other(tag, bytes) => 0 <= tag < TWO_32 && tag != FMT && tag != DATA && |bytes| < STREAM_LENGTH
    }

    function ChunkTag(): (t: int)
      requires Valid()
      ensures 0 <= t < TWO_32
    {
      match this
      case Fmt(_) => FMT
      case Data(_) => DATA
      case Other(tag, _) => tag
    }

    function Body(): (s: seq<byte>)
      requires Valid()
      ensures |s| < STREAM_LENGTH + 16
    {
      match this
      case Fmt(raw) => raw.Body()
      case Data(bytes) => bytes
      case Other(_, bytes) => bytes
    }
  }

  /** The bytes of a chunk: "fmt ", "data" or another tag, the length, and the contents, without a pad byte. */
  lemma ChunkBytes(c: Chunk)
    requires c.Valid()
    ensures match c
            case Fmt(raw) =>
              Serialize(c)
              == [0x66, 0x6d, 0x74, 0x20] + ToLittleEndian32(16 + |raw.extension|)
                 + (ToLittleEndian16(raw.format) + ToLittleEndian16(raw.channels)
                    + ToLittleEndian32(raw.sampleRate) + ToLittleEndian32(raw.byteRate)
                    + ToLittleEndian16(raw.blockAlign) + ToLittleEndian16(raw.bitsPerSample) + raw.extension)
            case Data(bytes) => Serialize(c) == [0x64, 0x61, 0x74, 0x61] + ToLittleEndian32(|bytes|) + bytes
            case Other(tag, bytes) => Serialize(c) == ToBigEndian32(tag) + ToLittleEndian32(|bytes|) + bytes
  {
    hide ToLittleEndian16, ToLittleEndian32, BigEndian32, LittleEndian32;
    assert ToBigEndian32(FMT) == [0x66, 0x6d, 0x74, 0x20];
    assert ToBigEndian32(DATA) == [0x64, 0x61, 0x74, 0x61];
  }

  ghost predicate AllValid(chunks: seq<Chunk>) {
    forall i :: 0 <= i < |chunks| ==> chunks[i].Valid()
  }

  function Serialize(c: Chunk): (s: seq<byte>)
    requires c.Valid()
  {
    ToBigEndian32(c.ChunkTag()) + ToLittleEndian32(|c.Body()|) + c.Body()
  }

  /** Chunks one behind the other, without pad bytes. */
  ghost function SerializeAll(chunks: seq<Chunk>): (s: seq<byte>)
    requires AllValid(chunks)
  {
    if chunks == [] then [] else Serialize(chunks[0]) + SerializeAll(chunks[1..])
  }

  /** What one chunk at `at` means, when `left` bytes follow it in the RIFF chunk; `Return` when
      empty data, or any data of a stream, ends the walk. */
  function Meaning(c: Chunk, at: nat, left: nat, wav: Wav): (s: Step)
    requires c.Valid()
    ensures !s.Stop?
    ensures s.Next? ==> s.pos == at + 8 + |c.Body()| && s.length == left
  {
    var next := at + 8 + |c.Body()|;
    match c
    case Fmt(raw) => Next(next, left, wav.(fmt := raw.Fields()))
    case Data(bytes) =>
      var w := wav.(dataPos := at + 8, dataLength := |bytes|);
      if bytes == [] || wav.streamed then Return(w.(streamed := true)) else Next(next, left, w)
    case Other(_, _) => Next(next, left, wav)
  }

  /** What chunks that fill the RIFF chunk mean to the reader, the first of them standing at `at`. */
  ghost function Digest(chunks: seq<Chunk>, at: nat, wav: Wav): (s: Step)
    requires AllValid(chunks)
    ensures !s.Next?
  {
    if chunks == [] then Stop(at, 0, wav) else
    var s := Meaning(chunks[0], at, 0, wav);
    if s.Return? then s else Digest(chunks[1..], s.pos, s.wav)
  }

  /** `s` stands in the file at `at`. */
  ghost predicate StandsAt(file: seq<byte>, at: nat, s: seq<byte>) {
    at + |s| <= |file| && file[at..at + |s|] == s
  }

  lemma StandsSplit(file: seq<byte>, at: nat, a: seq<byte>, b: seq<byte>)
    ensures StandsAt(file, at, a + b) <==> StandsAt(file, at, a) && StandsAt(file, at + |a|, b)
  {
    if at + |a| + |b| <= |file| {
      var w := file[at..at + |a + b|];
      assert w[..|a|] == file[at..at + |a|] && w[|a|..] == file[at + |a|..at + |a| + |b|];
      assert w == w[..|a|] + w[|a|..];
    }
  }

  lemma ReadTag(file: seq<byte>, at: nat, t: int)
    requires 0 <= t < TWO_32 && StandsAt(file, at, ToBigEndian32(t))
    ensures at + 4 <= |file| && Tag(file, at) == t
  {
    hide BigEndian32;
    var s := ToBigEndian32(t);
    assert file[at] == s[0] && file[at + 1] == s[1] && file[at + 2] == s[2] && file[at + 3] == s[3] by {
      assert file[at..at + 4] == s;
    }
  }

  lemma ReadUInt32(file: seq<byte>, at: nat, v: int)
    requires 0 <= v < TWO_32 && StandsAt(file, at, ToLittleEndian32(v))
    ensures at + 4 <= |file| && UInt32(file, at) == v
  {
    hide LittleEndian32;
    var s := ToLittleEndian32(v);
    assert file[at] == s[0] && file[at + 1] == s[1] && file[at + 2] == s[2] && file[at + 3] == s[3] by {
      assert file[at..at + 4] == s;
    }
  }

  lemma ReadUInt16(file: seq<byte>, at: nat, v: int)
    requires 0 <= v < 0x1_0000 && StandsAt(file, at, ToLittleEndian16(v))
    ensures at + 2 <= |file| && UInt16(file, at) == v
  {
    hide LittleEndian16;
    var s := ToLittleEndian16(v);
    assert file[at] == s[0] && file[at + 1] == s[1] by {
      assert file[at..at + 2] == s;
    }
  }

  /** A file that starts with a RIFF/WAVE chunk of 28 bytes: a `fmt ` chunk of 16 in the extensible format. */
  function ShortExtensibleFile(fields: seq<byte>, rest: seq<byte>): (file: seq<byte>)
    requires |fields| == 14
  {
    ToBigEndian32(RIFF) + ToLittleEndian32(28) + ToBigEndian32(WAVE)
      + ToBigEndian32(FMT) + ToLittleEndian32(16) + ToLittleEndian16(EXTENSIBLE) + fields + rest
  }

  lemma ShortExtensibleFields(fields: seq<byte>, rest: seq<byte>)
    requires |fields| == 14
    ensures var file := ShortExtensibleFile(fields, rest);
            && |file| >= 36
            && Tag(file, 0) == RIFF && UInt32(file, 4) == 28 && Tag(file, 8) == WAVE
            && Tag(file, 12) == FMT && UInt32(file, 16) == 16 && UInt16(file, 20) == EXTENSIBLE
  {
    hide StandsAt, Tag, UInt32, UInt16, ToBigEndian32, ToLittleEndian32, ToLittleEndian16;
    hide BigEndian32, LittleEndian32, LittleEndian16;
    var file := ShortExtensibleFile(fields, rest);
    var a, b, c, d, e, f := ToBigEndian32(RIFF), ToLittleEndian32(28), ToBigEndian32(WAVE), ToBigEndian32(FMT),
      ToLittleEndian32(16), ToLittleEndian16(EXTENSIBLE);
    StandsWhole(file);
    StandsSplit(file, 0, a + b + c + d + e + f + fields, rest);
    StandsSplit(file, 0, a + b + c + d + e + f, fields);
    StandsSplit(file, 0, a + b + c + d + e, f);
    StandsSplit(file, 0, a + b + c + d, e);
    StandsSplit(file, 0, a + b + c, d);
    StandsSplit(file, 0, a + b, c);
    StandsSplit(file, 0, a, b);
    ReadTag(file, 0, RIFF);
    ReadUInt32(file, 4, 28);
    ReadTag(file, 8, WAVE);
    ReadTag(file, 12, FMT);
    ReadUInt32(file, 16, 16);
    ReadUInt16(file, 20, EXTENSIBLE);
  }

  lemma StandsWhole(file: seq<byte>)
    ensures StandsAt(file, 0, file)
  {
  }

  /** Behind this chunk, which ends at 36, the next one is looked for at 52, whatever follows. */
  lemma ShortExtensibleSkipsAhead(fields: seq<byte>, rest: seq<byte>, wav: Wav)
    requires |fields| == 14
    ensures var file := ShortExtensibleFile(fields, rest);
            && WholeChunk(file, 0) && 8 + UInt32(file, 4) == 36
            && OutOfStep(file, 0, wav)
            && RiffStep(file, 0, wav).Next? && RiffStep(file, 0, wav).pos == 52
  {
    hide Tag, UInt32, UInt16, Signed32, ChunkStep, ShortExtensibleFile;
    var file := ShortExtensibleFile(fields, rest);
    ShortExtensibleFields(fields, rest);
    assert ShortExtensible(file, 12, 24);
    StepKeepsEnd(file, 12, 24, wav);
  }

  lemma ReadFields(file: seq<byte>, at: nat, raw: RawFormat)
    requires raw.Valid() && StandsAt(file, at, raw.Body())
    ensures |raw.Body()| == 16 + |raw.extension|
    ensures FormatAt(file, at) == Format(raw.format, raw.channels, Signed32(raw.sampleRate), Signed32(raw.byteRate),
                                         raw.blockAlign, raw.bitsPerSample)
    ensures raw.format == EXTENSIBLE ==>
              FormatAt(file, at).(format := Signed32(UInt32(file, at + 24))) == raw.Fields()
    ensures raw.format != EXTENSIBLE ==> FormatAt(file, at) == raw.Fields()
  {
    hide StandsAt, UInt32, UInt16, Signed32, ToLittleEndian16, ToLittleEndian32, LittleEndian32;
    var f0, f1, f2, f3, f4, f5 := ToLittleEndian16(raw.format), ToLittleEndian16(raw.channels),
      ToLittleEndian32(raw.sampleRate), ToLittleEndian32(raw.byteRate), ToLittleEndian16(raw.blockAlign),
      ToLittleEndian16(raw.bitsPerSample);
    StandsSplit(file, at, f0 + f1 + f2 + f3 + f4 + f5, raw.extension);
    StandsSplit(file, at, f0 + f1 + f2 + f3 + f4, f5);
    StandsSplit(file, at, f0 + f1 + f2 + f3, f4);
    StandsSplit(file, at, f0 + f1 + f2, f3);
    StandsSplit(file, at, f0 + f1, f2);
    StandsSplit(file, at, f0, f1);
    ReadUInt16(file, at, raw.format);
    ReadUInt16(file, at + 2, raw.channels);
    ReadUInt32(file, at + 4, raw.sampleRate);
    ReadUInt32(file, at + 8, raw.byteRate);
    ReadUInt16(file, at + 12, raw.blockAlign);
    ReadUInt16(file, at + 14, raw.bitsPerSample);
    if raw.format == EXTENSIBLE {
      ReadExtension(file, at + 16, raw.extension);
    }
  }

  lemma ReadExtension(file: seq<byte>, at: nat, extension: seq<byte>)
    requires StandsAt(file, at, extension) && |extension| >= 12
    ensures UInt32(file, at + 8) == LittleEndian32(extension[8], extension[9], extension[10], extension[11])
  {
    assert forall k :: 0 <= k < 12 ==> file[at + k] == extension[k] by {
      assert file[at..at + |extension|] == extension;
    }
  }

  lemma {:induction false} ReadHeader(file: seq<byte>, at: nat, c: Chunk)
    requires c.Valid() && StandsAt(file, at, Serialize(c))
    ensures at + 8 + |c.Body()| <= |file|
    ensures Tag(file, at) == c.ChunkTag() && UInt32(file, at + 4) == |c.Body()|
    ensures StandsAt(file, at + 8, c.Body())
    ensures |Serialize(c)| == 8 + |c.Body()|
  {
    hide StandsAt, Tag, UInt32;
    var t, n := ToBigEndian32(c.ChunkTag()), ToLittleEndian32(|c.Body()|);
    StandsSplit(file, at, t + n, c.Body());
    StandsSplit(file, at, t, n);
    ReadTag(file, at, c.ChunkTag());
    ReadUInt32(file, at + 4, |c.Body()|);
    assert at + 8 + |c.Body()| <= |file| by {
      StandsInside(file, at + 8, c.Body());
    }
  }

  lemma StandsInside(file: seq<byte>, at: nat, s: seq<byte>)
    requires StandsAt(file, at, s)
    ensures at + |s| <= |file|
  {
  }

  /** A format in its chunk, of which `length` bytes are left. */
  lemma ReadFormat(file: seq<byte>, at: nat, length: nat, raw: RawFormat, wav: Wav)
    requires raw.Valid() && StandsAt(file, at, raw.Body())
    requires |raw.Body()| <= length && |raw.Body()| < TWO_31
    ensures FmtStep(file, at, length, |raw.Body()|, wav)
            == Next(at + |raw.Body()|, length - |raw.Body()|, wav.(fmt := raw.Fields()))
  {
    hide UInt32, FormatAt, Signed32, LittleEndian32, StandsAt, RawFormat.Body, RawFormat.Fields;
    ReadFields(file, at, raw);
    StandsInside(file, at, raw.Body());
  }

  /** One chunk, read by one round of the inner loop. */
  lemma ReadOneChunk(file: seq<byte>, at: nat, length: nat, c: Chunk, wav: Wav)
    requires c.Valid() && StandsAt(file, at, Serialize(c))
    requires 8 + |c.Body()| <= length
    ensures ChunkStep(file, at, length, wav) == Meaning(c, at, length - 8 - |c.Body()|, wav)
  {
    hide Tag, UInt32, StandsAt, Serialize, FmtStep, RawFormat.Body, RawFormat.Fields, RawFormat.Valid;
    ReadHeader(file, at, c);
    match c
    case Fmt(raw) => ReadFormat(file, at + 8, length - 8, raw, wav);
    case Data(_) =>
    case Other(_, _) =>
  }

  /** The two sizes a `fmt ` chunk is measured by: 16 bytes, and 28 for format 0xfffe. */
  lemma FormatSizes(file: seq<byte>, at: nat, length: nat, body: seq<byte>, wav: Wav)
    requires 8 + |body| <= length < TWO_32
    requires StandsAt(file, at, [0x66, 0x6d, 0x74, 0x20] + ToLittleEndian32(|body|) + body)
    ensures var s := ChunkStep(file, at, length, wav);
            && (|body| < 16 ==> s == Stop(at + 8, length - 8, wav))
            && (|body| >= 16 && body[0] == 0xfe && body[1] == 0xff ==> (s.Stop? <==> |body| < 28))
            && (|body| >= 16 && !(body[0] == 0xfe && body[1] == 0xff) ==> s.Next?)
  {
    hide StandsAt, Tag, UInt32, ToLittleEndian32, Signed32;
    var tag: seq<byte> := [0x66, 0x6d, 0x74, 0x20];
    var size := ToLittleEndian32(|body|);
    StandsSplit(file, at, tag + size, body);
    StandsSplit(file, at, tag, size);
    assert tag == ToBigEndian32(FMT);
    ReadTag(file, at, FMT);
    ReadUInt32(file, at + 4, |body|);
    StandsInside(file, at + 8, body);
    if |body| >= 16 {
      FirstBytes(file, at + 8, body);
    }
  }

  lemma FirstBytes(file: seq<byte>, at: nat, body: seq<byte>)
    requires StandsAt(file, at, body) && |body| >= 2
    ensures FormatAt(file, at).format == 0xfffe <==> body[0] == 0xfe && body[1] == 0xff
  {
    hide UInt32, Signed32;
    assert file[at..at + |body|][0] == body[0] && file[at..at + |body|][1] == body[1];
  }

  lemma {:induction false} FirstChunk(file: seq<byte>, at: nat, chunks: seq<Chunk>)
    requires chunks != [] && AllValid(chunks) && StandsAt(file, at, SerializeAll(chunks))
    ensures chunks[0].Valid() && StandsAt(file, at, Serialize(chunks[0]))
    ensures var next := at + 8 + |chunks[0].Body()|;
            && AllValid(chunks[1..]) && StandsAt(file, next, SerializeAll(chunks[1..]))
            && at + |SerializeAll(chunks)| == next + |SerializeAll(chunks[1..])|
  {
    hide StandsAt, Serialize;
    StandsSplit(file, at, Serialize(chunks[0]), SerializeAll(chunks[1..]));
    ReadHeader(file, at, chunks[0]);
  }

  /** One round of the inner loop, and what is left to do. */
  lemma WalkNext(file: seq<byte>, at: nat, length: nat, wav: Wav)
    requires 8 <= length
    ensures var s := ChunkStep(file, at, length, wav);
            WalkChunks(file, at, length, wav) == if s.Next? then WalkChunks(file, s.pos, s.length, s.wav) else s
  {
    hide ChunkStep;
  }

  lemma DigestNext(chunks: seq<Chunk>, at: nat, wav: Wav)
    requires chunks != [] && AllValid(chunks)
    ensures chunks[0].Valid() && AllValid(chunks[1..])
    ensures var s := Meaning(chunks[0], at, 0, wav);
            Digest(chunks, at, wav) == if s.Return? then s else Digest(chunks[1..], s.pos, s.wav)
  {
    hide Meaning;
  }

  lemma WalkNothing(file: seq<byte>, at: nat, chunks: seq<Chunk>, wav: Wav)
    requires chunks == []
    ensures AllValid(chunks) && SerializeAll(chunks) == [] && WalkChunks(file, at, 0, wav) == Digest(chunks, at, wav)
  {
  }

  /** The inner loop on chunks that fill the RIFF chunk. */
  lemma {:induction false} WalkIsDigest(file: seq<byte>, at: nat, length: nat, chunks: seq<Chunk>, wav: Wav)
    requires AllValid(chunks) && StandsAt(file, at, SerializeAll(chunks)) && length == |SerializeAll(chunks)|
    ensures WalkChunks(file, at, length, wav) == Digest(chunks, at, wav)
    decreases |chunks|
  {
    hide *;
    if chunks == [] {
      WalkNothing(file, at, chunks, wav);
    } else {
      FirstChunk(file, at, chunks);
      DigestNext(chunks, at, wav);
      var left := length - 8 - |chunks[0].Body()|;
      ReadOneChunk(file, at, length, chunks[0], wav);
      MeaningLeft(chunks[0], at, left, wav);
      WalkNext(file, at, length, wav);
      var s := ChunkStep(file, at, length, wav);
      if s.Next? {
        WalkIsDigest(file, s.pos, s.length, chunks[1..], s.wav);
      }
    }
  }

  /** The bytes left are only carried along. */
  lemma MeaningLeft(c: Chunk, at: nat, left: nat, wav: Wav)
    requires c.Valid()
    ensures var s, t := Meaning(c, at, left, wav), Meaning(c, at, 0, wav);
            if s.Return? then s == t else t == Next(s.pos, 0, s.wav)
  {
  }

  // ----- whole files

  /** A top-level chunk: not RIFF at all, RIFF of another form, or RIFF/WAVE. */
  datatype Top = Foreign(tag: int, bytes: seq<byte>) | OtherForm(form: int, bytes: seq<byte>) | Wave(chunks: seq<Chunk>)
  {
    ghost predicate Valid() {
      match this
      case Foreign(tag, bytes) => 0 <= tag < TWO_32 && tag != RIFF && 0 < |bytes| < STREAM_LENGTH
      case OtherForm(form, bytes) => 0 <= form < TWO_32 && form != WAVE && |bytes| < STREAM_LENGTH - 4
      case Wave(chunks) => AllValid(chunks) && |SerializeAll(chunks)| < STREAM_LENGTH - 4
    }

    ghost function TopTag(): (t: int)
      requires Valid()
      ensures 0 <= t < TWO_32
    {
      if Foreign? then tag else RIFF
    }

    ghost function Body(): (s: seq<byte>)
      requires Valid()
      ensures 0 < |s| < STREAM_LENGTH
    {
      match this
      case Foreign(_, bytes) => bytes
      case OtherForm(form, bytes) => ToBigEndian32(form) + bytes
      case Wave(chunks) => ToBigEndian32(WAVE) + SerializeAll(chunks)
    }
  }

  ghost predicate AllTopsValid(tops: seq<Top>) {
    forall i :: 0 <= i < |tops| ==> tops[i].Valid()
  }

  ghost function SerializeTop(t: Top): (s: seq<byte>)
    requires t.Valid()
  {
    ToBigEndian32(t.TopTag()) + ToLittleEndian32(|t.Body()|) + t.Body()
  }

  /** The bytes of a RIFF/WAVE file: "RIFF", the length of the rest, "WAVE", and the chunks. */
  lemma WaveBytes(chunks: seq<Chunk>)
    requires Wave(chunks).Valid()
    ensures var s := SerializeAll(chunks);
            SerializeTop(Wave(chunks))
            == [0x52, 0x49, 0x46, 0x46] + ToLittleEndian32(4 + |s|) + ([0x57, 0x41, 0x56, 0x45] + s)
  {
    hide ToLittleEndian32, BigEndian32, LittleEndian32, SerializeAll;
    assert ToBigEndian32(RIFF) == [0x52, 0x49, 0x46, 0x46];
    assert ToBigEndian32(WAVE) == [0x57, 0x41, 0x56, 0x45];
  }

  ghost function SerializeTops(tops: seq<Top>): (s: seq<byte>)
    requires AllTopsValid(tops)
  {
    if tops == [] then [] else SerializeTop(tops[0]) + SerializeTops(tops[1..])
  }

  /** What one top-level chunk at `at` means: the next position, or the end of the walk. */
  ghost function TopMeaning(t: Top, at: nat, wav: Wav): (s: Step)
    requires t.Valid()
    ensures !s.Stop?
  {
    var next := at + 8 + |t.Body()|;
    match t
    case Foreign(_, _) => Next(next, 0, wav)
    case OtherForm(_, _) => Next(next, 0, wav)
    case Wave(chunks) =>
      var s := Digest(chunks, at + 12, wav);
      if s.Return? then s else Next(next, 0, s.wav)
  }

  ghost function DigestTops(tops: seq<Top>, at: nat, wav: Wav): (r: Wav)
    requires AllTopsValid(tops)
  {
    if tops == [] then wav else
    var s := TopMeaning(tops[0], at, wav);
    if s.Return? then s.wav else DigestTops(tops[1..], s.pos, s.wav)
  }

  lemma {:induction false} DigestEnd(file: seq<byte>, chunks: seq<Chunk>, at: nat, wav: Wav)
    requires AllValid(chunks) && StandsAt(file, at, SerializeAll(chunks))
    ensures Digest(chunks, at, wav).Stop? ==>
              Digest(chunks, at, wav).pos == at + |SerializeAll(chunks)| && Digest(chunks, at, wav).length == 0
    decreases |chunks|
  {
    hide Meaning, StandsAt, SerializeAll, Chunk.Valid, Chunk.Body;
    if chunks == [] {
      assert SerializeAll(chunks) == [] by { WalkNothing(file, at, chunks, wav); }
    } else {
      FirstChunk(file, at, chunks);
      var s := Meaning(chunks[0], at, 0, wav);
      if s.Next? {
        DigestEnd(file, chunks[1..], s.pos, s.wav);
      }
    }
  }

  lemma ReadTop(file: seq<byte>, at: nat, t: Top)
    requires t.Valid() && StandsAt(file, at, SerializeTop(t))
    ensures at + 8 + |t.Body()| <= |file|
    ensures Tag(file, at) == t.TopTag() && UInt32(file, at + 4) == |t.Body()|
    ensures StandsAt(file, at + 8, t.Body())
    ensures |SerializeTop(t)| == 8 + |t.Body()|
  {
    hide StandsAt, Tag, UInt32;
    var tag, n := ToBigEndian32(t.TopTag()), ToLittleEndian32(|t.Body()|);
    StandsSplit(file, at, tag + n, t.Body());
    StandsSplit(file, at, tag, n);
    ReadTag(file, at, t.TopTag());
    ReadUInt32(file, at + 4, |t.Body()|);
    StandsInside(file, at + 8, t.Body());
  }

  lemma {:induction false} RiffIsMeaning(file: seq<byte>, at: nat, t: Top, wav: Wav)
    requires t.Valid() && StandsAt(file, at, SerializeTop(t))
    ensures RiffStep(file, at, wav) == TopMeaning(t, at, wav)
  {
    hide Tag, UInt32, StandsAt, SerializeTop, ToBigEndian32, SerializeAll, WalkChunks, Digest, AllValid;
    ReadTop(file, at, t);
    match t
    case Foreign(_, _) =>
    case OtherForm(form, bytes) =>
      StandsSplit(file, at + 8, ToBigEndian32(form), bytes);
      ReadTag(file, at + 8, form);
    case Wave(chunks) =>
      StandsSplit(file, at + 8, ToBigEndian32(WAVE), SerializeAll(chunks));
      ReadTag(file, at + 8, WAVE);
      WalkIsDigest(file, at + 12, |SerializeAll(chunks)|, chunks, wav);
      DigestEnd(file, chunks, at + 12, wav);
  }

  lemma FirstTop(file: seq<byte>, at: nat, tops: seq<Top>)
    requires tops != [] && AllTopsValid(tops) && at <= |file| && file[at..] == SerializeTops(tops)
    ensures tops[0].Valid() && StandsAt(file, at, SerializeTop(tops[0]))
    ensures var next := at + 8 + |tops[0].Body()|;
            AllTopsValid(tops[1..]) && next <= |file| && file[next..] == SerializeTops(tops[1..])
  {
    hide SerializeTop, Top.Body, Top.Valid;
    assert StandsAt(file, at, SerializeTops(tops));
    StandsSplit(file, at, SerializeTop(tops[0]), SerializeTops(tops[1..]));
    ReadTop(file, at, tops[0]);
    var next := at + |SerializeTop(tops[0])|;
    assert file[next..] == file[next..next + |SerializeTops(tops[1..])|];
  }

  lemma WalkTopsNext(file: seq<byte>, at: nat, tops: seq<Top>, wav: Wav)
    requires tops != [] && AllTopsValid(tops)
    ensures tops[0].Valid() && AllTopsValid(tops[1..])
    ensures var s := RiffStep(file, at, wav);
            Walk(file, at, wav) == if s.Return? then s.wav else Walk(file, s.pos, s.wav)
    ensures var s := TopMeaning(tops[0], at, wav);
            DigestTops(tops, at, wav) == if s.Return? then s.wav else DigestTops(tops[1..], s.pos, s.wav)
  {
    hide RiffStep, TopMeaning;
  }

  lemma WalkNoTops(file: seq<byte>, at: nat, tops: seq<Top>, wav: Wav)
    requires tops == [] && at <= |file| && AllTopsValid(tops) && file[at..] == SerializeTops(tops)
    ensures Walk(file, at, wav) == DigestTops(tops, at, wav)
  {
    assert |file[at..]| == 0;
  }

  /** Opening a file written from top-level chunks gives exactly what the chunks mean. */
  lemma {:induction false} WalkIsDigestTops(file: seq<byte>, at: nat, tops: seq<Top>, wav: Wav)
    requires AllTopsValid(tops) && at <= |file| && file[at..] == SerializeTops(tops)
    ensures Walk(file, at, wav) == DigestTops(tops, at, wav)
    decreases |tops|
  {
    hide *;
    if tops == [] {
      WalkNoTops(file, at, tops, wav);
    } else {
      FirstTop(file, at, tops);
      RiffIsMeaning(file, at, tops[0], wav);
      WalkTopsNext(file, at, tops, wav);
      var s := TopMeaning(tops[0], at, wav);
      if s.Next? {
        TopMeaningNext(tops[0], at, wav);
        WalkIsDigestTops(file, s.pos, tops[1..], s.wav);
      }
    }
  }

  lemma {:induction false} TopMeaningNext(t: Top, at: nat, wav: Wav)
    requires t.Valid() && TopMeaning(t, at, wav).Next?
    ensures TopMeaning(t, at, wav).pos == at + 8 + |t.Body()|
  {
  }

  // ----- the last format and the last data win

  /** The last `fmt ` chunk, as fields; `f` when there is none. */
  ghost function LastFormat(chunks: seq<Chunk>, f: Format): (r: Format)
    requires AllValid(chunks)
  {
    if chunks == [] then f else
    LastFormat(chunks[1..], if chunks[0].Fmt? then chunks[0].raw.Fields() else f)
  }

  /** The last `data` chunk; `d` when there is none. */
  function LastData(chunks: seq<Chunk>, d: seq<byte>): (r: seq<byte>) {
    if chunks == [] then d else LastData(chunks[1..], if chunks[0].Data? then chunks[0].bytes else d)
  }

  ghost predicate NoEmptyData(chunks: seq<Chunk>) {
    forall i :: 0 <= i < |chunks| && chunks[i].Data? ==> chunks[i].bytes != []
  }

  /** `d` is the sample data `wav` points to. */
  ghost predicate PointsTo(file: seq<byte>, wav: Wav, d: seq<byte>) {
    !wav.streamed && wav.dataLength == |d| && StandsAt(file, wav.dataPos, d)
  }

  lemma MeaningPointsTo(file: seq<byte>, at: nat, c: Chunk, wav: Wav, d: seq<byte>)
    requires c.Valid() && StandsAt(file, at, Serialize(c)) && PointsTo(file, wav, d)
    requires c.Data? ==> c.bytes != []
    ensures var s := Meaning(c, at, 0, wav);
            && s.Next?
            && s.wav.fmt == (if c.Fmt? then c.raw.Fields() else wav.fmt)
            && s.wav.dataPos == (if c.Data? then at + 8 else wav.dataPos)
            && PointsTo(file, s.wav, if c.Data? then c.bytes else d)
  {
    hide StandsAt, Serialize;
    ReadHeader(file, at, c);
  }

  lemma LastNext(chunks: seq<Chunk>, f: Format, d: seq<byte>)
    requires AllValid(chunks) && NoEmptyData(chunks) && chunks != []
    ensures var c := chunks[0];
            && c.Valid() && (c.Data? ==> c.bytes != [])
            && AllValid(chunks[1..]) && NoEmptyData(chunks[1..])
            && LastFormat(chunks, f) == LastFormat(chunks[1..], if c.Fmt? then c.raw.Fields() else f)
            && LastData(chunks, d) == LastData(chunks[1..], if c.Data? then c.bytes else d)
  {
    hide Chunk.Valid, RawFormat.Fields;
  }

  lemma LastOfNone(chunks: seq<Chunk>, at: nat, wav: Wav, d: seq<byte>)
    requires chunks == []
    ensures AllValid(chunks) && Digest(chunks, at, wav) == Stop(at, 0, wav)
    ensures LastFormat(chunks, wav.fmt) == wav.fmt && LastData(chunks, d) == d
  {
  }

  lemma {:induction false} DigestIsLast(file: seq<byte>, at: nat, chunks: seq<Chunk>, wav: Wav, d: seq<byte>)
    requires AllValid(chunks) && NoEmptyData(chunks)
    requires StandsAt(file, at, SerializeAll(chunks)) && PointsTo(file, wav, d)
    ensures var s := Digest(chunks, at, wav);
            && s.Stop?
            && s.wav.fmt == LastFormat(chunks, wav.fmt)
            && PointsTo(file, s.wav, LastData(chunks, d))
    decreases |chunks|
  {
    hide *;
    if chunks == [] {
      LastOfNone(chunks, at, wav, d);
    } else {
      var c := chunks[0];
      FirstChunk(file, at, chunks);
      LastNext(chunks, wav.fmt, d);
      DigestNext(chunks, at, wav);
      MeaningPointsTo(file, at, c, wav, d);
      var s := Meaning(c, at, 0, wav);
      DigestIsLast(file, s.pos, chunks[1..], s.wav, if c.Data? then c.bytes else d);
    }
  }

  /** The last `data` chunk is the `i`-th of the chunks. */
  ghost predicate LastDataAt(chunks: seq<Chunk>, i: nat) {
    i < |chunks| && chunks[i].Data? && forall j :: i < j < |chunks| ==> !chunks[j].Data?
  }

  lemma {:induction false} LastDataIs(chunks: seq<Chunk>, i: nat, d: seq<byte>)
    requires LastDataAt(chunks, i)
    ensures LastData(chunks, d) == chunks[i].bytes
    decreases |chunks|
  {
    if i > 0 {
      LastDataIs(chunks[1..], i - 1, if chunks[0].Data? then chunks[0].bytes else d);
    } else {
      NoMoreData(chunks[1..], chunks[0].bytes);
    }
  }

  lemma {:induction false} NoMoreData(chunks: seq<Chunk>, d: seq<byte>)
    requires forall j :: 0 <= j < |chunks| ==> !chunks[j].Data?
    ensures LastData(chunks, d) == d
  {
    if chunks != [] {
      NoMoreData(chunks[1..], d);
    }
  }

  /** Bytes of the first `i` chunks. */
  lemma PrefixLength(chunks: seq<Chunk>, i: nat)
    requires AllValid(chunks) && 0 < i <= |chunks|
    ensures chunks[0].Valid() && AllValid(chunks[1..][..i - 1]) && AllValid(chunks[..i])
    ensures |SerializeAll(chunks[..i])| == 8 + |chunks[0].Body()| + |SerializeAll(chunks[1..][..i - 1])|
  {
    hide Chunk.Valid, Chunk.Body;
    assert chunks[..i][1..] == chunks[1..][..i - 1];
  }

  /** The last data chunk is found where it stands. */
  lemma {:induction false} DigestPosition(chunks: seq<Chunk>, at: nat, wav: Wav, i: nat)
    requires AllValid(chunks) && NoEmptyData(chunks) && !wav.streamed
    requires LastDataAt(chunks, i)
    ensures Digest(chunks, at, wav).wav.dataPos == at + |SerializeAll(chunks[..i])| + 8
    decreases |chunks|
  {
    DigestNext(chunks, at, wav);
    var s := Meaning(chunks[0], at, 0, wav);
    if i > 0 {
      PrefixLength(chunks, i);
      hide SerializeAll, Digest, Chunk.Valid, Chunk.Body;
      DigestPosition(chunks[1..], s.pos, s.wav, i - 1);
    } else {
      hide Digest, Chunk.Valid, Chunk.Body;
      DigestKeepsPosition(chunks[1..], s.pos, s.wav);
    }
  }

  lemma {:induction false} DigestKeepsPosition(chunks: seq<Chunk>, at: nat, wav: Wav)
    requires AllValid(chunks) && forall j :: 0 <= j < |chunks| ==> !chunks[j].Data?
    ensures Digest(chunks, at, wav).wav.dataPos == wav.dataPos
    decreases |chunks|
  {
    if chunks != [] {
      DigestNext(chunks, at, wav);
      var s := Meaning(chunks[0], at, 0, wav);
      DigestKeepsPosition(chunks[1..], s.pos, s.wav);
    }
  }

  /** The last `fmt ` chunk is the `i`-th of the chunks. */
  ghost predicate LastFormatAt(chunks: seq<Chunk>, i: nat) {
    i < |chunks| && chunks[i].Fmt? && forall j :: i < j < |chunks| ==> !chunks[j].Fmt?
  }

  lemma {:induction false} LastFormatIs(chunks: seq<Chunk>, i: nat, f: Format)
    requires AllValid(chunks) && LastFormatAt(chunks, i)
    ensures chunks[i].Valid() && LastFormat(chunks, f) == chunks[i].raw.Fields()
    decreases |chunks|
  {
    hide RawFormat.Fields;
    if i > 0 {
      LastFormatIs(chunks[1..], i - 1, if chunks[0].Fmt? then chunks[0].raw.Fields() else f);
    } else {
      NoMoreFormats(chunks[1..], chunks[0].raw.Fields());
    }
  }

  lemma {:induction false} NoMoreFormats(chunks: seq<Chunk>, f: Format)
    requires AllValid(chunks) && forall j :: 0 <= j < |chunks| ==> !chunks[j].Fmt?
    ensures LastFormat(chunks, f) == f
  {
    if chunks != [] {
      NoMoreFormats(chunks[1..], f);
    }
  }

  /** The `i`-th chunk is the first `data` chunk without bytes. */
  ghost predicate FirstEmptyAt(chunks: seq<Chunk>, i: nat) {
    i < |chunks| && chunks[i] == Data([]) && NoEmptyData(chunks[..i])
  }

  lemma {:induction false} FirstEmpty(chunks: seq<Chunk>) returns (i: nat)
    requires !NoEmptyData(chunks)
    ensures FirstEmptyAt(chunks, i)
    decreases |chunks|
  {
    var k := |chunks| - 1;
    if NoEmptyData(chunks[..k]) {
      i := k;
    } else {
      i := FirstEmpty(chunks[..k]);
      assert chunks[..k][..i] == chunks[..i];
    }
  }

  /** An empty data chunk counts as the start of a stream and ends the walk. */
  lemma {:induction false} DigestStops(chunks: seq<Chunk>, at: nat, wav: Wav, i: nat)
    requires AllValid(chunks) && !wav.streamed && FirstEmptyAt(chunks, i)
    ensures Digest(chunks, at, wav)
            == Return(Wav(LastFormat(chunks[..i], wav.fmt), 0, true, at + |SerializeAll(chunks[..i])| + 8))
    decreases |chunks|
  {
    hide Digest, Chunk.Valid, Chunk.Body, RawFormat.Fields;
    DigestNext(chunks, at, wav);
    var s := Meaning(chunks[0], at, 0, wav);
    if i > 0 {
      PrefixLength(chunks, i);
      assert chunks[..i][1..] == chunks[1..][..i - 1];
      assert chunks[..i][0] == chunks[0];
      hide SerializeAll;
      DigestStops(chunks[1..], s.pos, s.wav, i - 1);
    }
  }

  lemma {:induction false} SerializeSplit(chunks: seq<Chunk>, i: nat)
    requires AllValid(chunks) && i <= |chunks|
    ensures AllValid(chunks[..i]) && AllValid(chunks[i..])
    ensures SerializeAll(chunks) == SerializeAll(chunks[..i]) + SerializeAll(chunks[i..])
  {
    hide Serialize, Chunk.Valid;
    if i > 0 {
      SerializeSplit(chunks[1..], i - 1);
      assert chunks[..i][1..] == chunks[1..][..i - 1] && chunks[1..][i - 1..] == chunks[i..];
      assert chunks[..i][0] == chunks[0];
    } else {
      assert chunks[i..] == chunks;
    }
  }

  /** What opening a RIFF/WAVE file written from chunks comes down to. */
  lemma OpenIsDigest(chunks: seq<Chunk>)
    requires Wave(chunks).Valid()
    ensures var file := SerializeTop(Wave(chunks));
            && StandsAt(file, 12, SerializeAll(chunks)) && |file| == 12 + |SerializeAll(chunks)|
            && Walk(file, 0, EMPTY) == Digest(chunks, 12, EMPTY).wav
  {
    hide SerializeTop, Serialize, Digest, AllValid;
    var t := Wave(chunks);
    var file := SerializeTop(t);
    assert [t][1..] == [] && SerializeTops([t]) == file && file[0..] == file;
    WalkIsDigestTops(file, 0, [t], EMPTY);
    StandsWhole(file);
    ReadTop(file, 0, t);
    StandsSplit(file, 8, ToBigEndian32(WAVE), SerializeAll(chunks));
  }

  /**
   Round trip: opening a RIFF/WAVE file written from chunks, none of whose data chunks is empty,
   yields the fields of the last format and leaves the cursor on the first byte of the last data,
   behind the RIFF header, the chunks before it, and its own header.  With an empty data chunk,
   and only then, the file is opened as a stream from the first of these on.
   */
  lemma {:induction false} OpenRoundTrip(chunks: seq<Chunk>)
    requires Wave(chunks).Valid()
    ensures var w := Walk(SerializeTop(Wave(chunks)), 0, EMPTY);
            w.streamed <==> !NoEmptyData(chunks)
    ensures NoEmptyData(chunks) ==>
              var file, d := SerializeTop(Wave(chunks)), LastData(chunks, []);
              var w := Walk(file, 0, EMPTY);
              && w.fmt == LastFormat(chunks, EMPTY.fmt)
              && w.dataLength == |d|
              && w.dataPos + |d| <= |file| && file[w.dataPos..w.dataPos + |d|] == d
              && forall i: nat :: LastDataAt(chunks, i) ==>
                   d == chunks[i].bytes && w.dataPos == 12 + |SerializeAll(chunks[..i])| + 8
    ensures forall i: nat :: NoEmptyData(chunks) && LastFormatAt(chunks, i) ==>
              chunks[i].Valid() && Walk(SerializeTop(Wave(chunks)), 0, EMPTY).fmt == chunks[i].raw.Fields()
    ensures forall i: nat :: FirstEmptyAt(chunks, i) ==>
              var w := Walk(SerializeTop(Wave(chunks)), 0, EMPTY);
              && w.fmt == LastFormat(chunks[..i], EMPTY.fmt)
              && w.dataLength == 0 && w.dataPos == 12 + |SerializeAll(chunks[..i])| + 8
  {
    hide SerializeTop, SerializeAll, Digest, LastData, LastFormat, Walk;
    var file := SerializeTop(Wave(chunks));
    OpenIsDigest(chunks);
    forall i: nat | FirstEmptyAt(chunks, i)
      ensures Digest(chunks, 12, EMPTY)
              == Return(Wav(LastFormat(chunks[..i], EMPTY.fmt), 0, true, 12 + |SerializeAll(chunks[..i])| + 8))
    {
      DigestStops(chunks, 12, EMPTY, i);
    }
    if NoEmptyData(chunks) {
      DigestIsLast(file, 12, chunks, EMPTY, []);
      forall i: nat | LastFormatAt(chunks, i)
        ensures chunks[i].Valid() && LastFormat(chunks, EMPTY.fmt) == chunks[i].raw.Fields()
      {
        LastFormatIs(chunks, i, EMPTY.fmt);
      }
      forall i: nat | LastDataAt(chunks, i)
        ensures LastData(chunks, []) == chunks[i].bytes
        ensures Walk(file, 0, EMPTY).dataPos == 12 + |SerializeAll(chunks[..i])| + 8
      {
        LastDataIs(chunks, i, []);
        DigestPosition(chunks, 12, EMPTY, i);
      }
    } else {
      var i := FirstEmpty(chunks);
    }
  }

  /**
   Reading on from there gives the last data chunk, whatever the sizes of the reads, or all the
   chunks behind the first empty one, headers included.
   */
  lemma {:induction false} SamplesRoundTrip(chunks: seq<Chunk>)
    requires Wave(chunks).Valid()
    ensures var file := SerializeTop(Wave(chunks));
            var w := Walk(file, 0, EMPTY);
            && w.dataLength >= 0
            && var d := DataFrom(file, Cursor(w.dataPos, w.dataLength), w.streamed);
            && (NoEmptyData(chunks) ==> d == LastData(chunks, []))
            && (forall i: nat :: FirstEmptyAt(chunks, i) ==> d == SerializeAll(chunks[i + 1..]))
  {
    hide SerializeTop, Walk, NoEmptyData, FirstEmptyAt, SerializeAll, AllValid;
    OpenRoundTrip(chunks);
    if !NoEmptyData(chunks) {
      var _ := FirstEmpty(chunks);
    }
    forall i: nat | FirstEmptyAt(chunks, i)
      ensures Walk(SerializeTop(Wave(chunks)), 0, EMPTY).streamed
      ensures i + 1 <= |chunks| && AllValid(chunks[i + 1..])
      ensures var file := SerializeTop(Wave(chunks));
              var w := Walk(file, 0, EMPTY);
              w.dataPos <= |file| && file[w.dataPos..] == SerializeAll(chunks[i + 1..])
    {
      BehindEmpty(chunks, i);
    }
  }

  /** What stands behind the first empty data chunk. */
  lemma BehindEmpty(chunks: seq<Chunk>, i: nat)
    requires Wave(chunks).Valid() && FirstEmptyAt(chunks, i)
    ensures i < |chunks| && AllValid(chunks[i + 1..]) && AllValid(chunks[..i]) && !NoEmptyData(chunks)
    ensures var file, at := SerializeTop(Wave(chunks)), 12 + |SerializeAll(chunks[..i])| + 8;
            at <= |file| && file[at..] == SerializeAll(chunks[i + 1..])
  {
    hide SerializeTop, StandsAt, Serialize;
    var file := SerializeTop(Wave(chunks));
    OpenIsDigest(chunks);
    SerializeSplit(chunks, i);
    assert chunks[i..][0] == chunks[i] && chunks[i..][1..] == chunks[i + 1..];
    var head, rest := SerializeAll(chunks[..i]), SerializeAll(chunks[i + 1..]);
    EmptySize(chunks[i]);
    assert SerializeAll(chunks[i..]) == Serialize(chunks[i]) + rest;
    StandsSplit(file, 12, head, Serialize(chunks[i]) + rest);
    StandsSplit(file, 12 + |head|, Serialize(chunks[i]), rest);
    StandsToEnd(file, 12 + |head| + 8, rest);
  }

  lemma EmptySize(c: Chunk)
    requires c == Data([])
    ensures c.Valid() && |Serialize(c)| == 8
  {
  }

  lemma StandsToEnd(file: seq<byte>, at: nat, s: seq<byte>)
    requires StandsAt(file, at, s) && at + |s| == |file|
    ensures file[at..] == s
  {
  }

  // ----- streams

  /** The inner loop passes chunks that are not data, also when more bytes are left than they fill. */
  lemma {:induction false} WalkPast(file: seq<byte>, at: nat, length: nat, chunks: seq<Chunk>, wav: Wav)
    requires AllValid(chunks) && forall j :: 0 <= j < |chunks| ==> !chunks[j].Data?
    requires StandsAt(file, at, SerializeAll(chunks)) && |SerializeAll(chunks)| <= length
    ensures var n := |SerializeAll(chunks)|;
            WalkChunks(file, at, length, wav)
            == WalkChunks(file, at + n, length - n, wav.(fmt := LastFormat(chunks, wav.fmt)))
    decreases |chunks|
  {
    hide WalkChunks, ChunkStep, SerializeAll, StandsAt, Serialize, Chunk.Valid, RawFormat.Fields, Chunk.Body;
    if chunks == [] {
      WalkNothing(file, at, chunks, wav);
    } else {
      var c := chunks[0];
      FirstChunk(file, at, chunks);
      ReadOneChunk(file, at, length, c, wav);
      WalkNext(file, at, length, wav);
      var s := ChunkStep(file, at, length, wav);
      WalkPast(file, s.pos, s.length, chunks[1..], s.wav);
    }
  }

  /** A RIFF length of zero, or of 0x7fff0000 and more, is that of a stream. */
  lemma StreamStep(file: seq<byte>, n: int)
    requires n == 0 || 0x7fff_0000 <= n < TWO_32
    requires StandsAt(file, 0, [0x52, 0x49, 0x46, 0x46]) && StandsAt(file, 4, ToLittleEndian32(n))
    requires StandsAt(file, 8, [0x57, 0x41, 0x56, 0x45])
    ensures var s := WalkChunks(file, 12, 0xffff_fffb, EMPTY.(streamed := true));
            s.Return? ==> Walk(file, 0, EMPTY) == s.wav
  {
    hide Tag, UInt32, WalkChunks, ToLittleEndian32, StandsAt;
    assert ToBigEndian32(RIFF) == [0x52, 0x49, 0x46, 0x46];
    assert ToBigEndian32(WAVE) == [0x57, 0x41, 0x56, 0x45];
    ReadTag(file, 0, RIFF);
    ReadUInt32(file, 4, n);
    ReadTag(file, 8, WAVE);
  }

  lemma DataOfStream(file: seq<byte>, at: nat, length: nat, size: int, wav: Wav)
    requires 0 <= size < TWO_32 && size + 8 <= length && wav.streamed
    requires StandsAt(file, at, [0x64, 0x61, 0x74, 0x61]) && StandsAt(file, at + 4, ToLittleEndian32(size))
    ensures WalkChunks(file, at, length, wav) == Return(wav.(dataPos := at + 8, dataLength := size))
  {
    hide Tag, UInt32, WalkChunks, ToLittleEndian32, StandsAt;
    assert ToBigEndian32(DATA) == [0x64, 0x61, 0x74, 0x61];
    ReadTag(file, at, DATA);
    ReadUInt32(file, at + 4, size);
    WalkNext(file, at, length, wav);
  }

  /**
   A stream, as a program writes it that cannot go back to fill in the lengths: opening it yields the
   last format before the first data chunk, the cursor behind the header of that chunk, and all that
   follows as sample data, whatever length the header gives.
   */
  lemma OpenStream(file: seq<byte>, n: int, chunks: seq<Chunk>, size: int, rest: seq<byte>)
    requires n == 0 || 0x7fff_0000 <= n < TWO_32
    requires AllValid(chunks) && forall j :: 0 <= j < |chunks| ==> !chunks[j].Data?
    requires 0 <= size && |SerializeAll(chunks)| + 8 + size <= 0xffff_fffb
    requires file == [0x52, 0x49, 0x46, 0x46] + ToLittleEndian32(n) + [0x57, 0x41, 0x56, 0x45] + SerializeAll(chunks)
                     + [0x64, 0x61, 0x74, 0x61] + ToLittleEndian32(size) + rest
    ensures var at := 20 + |SerializeAll(chunks)|;
            && Walk(file, 0, EMPTY) == Wav(LastFormat(chunks, EMPTY.fmt), size, true, at)
            && DataFrom(file, Cursor(at, size), true) == rest
  {
    hide Walk, WalkChunks, SerializeAll, StandsAt, AllValid, ToLittleEndian32, LastFormat;
    var riff: seq<byte>, wave: seq<byte>, data: seq<byte> :=
      [0x52, 0x49, 0x46, 0x46], [0x57, 0x41, 0x56, 0x45], [0x64, 0x61, 0x74, 0x61];
    var a, s, b := ToLittleEndian32(n), SerializeAll(chunks), ToLittleEndian32(size);
    assert file == riff + a + wave + s + data + b + rest;
    StandsWhole(file);
    StandsSplit(file, 0, riff + a + wave + s + data + b, rest);
    StandsSplit(file, 0, riff + a + wave + s + data, b);
    StandsSplit(file, 0, riff + a + wave + s, data);
    StandsSplit(file, 0, riff + a + wave, s);
    StandsSplit(file, 0, riff + a, wave);
    StandsSplit(file, 0, riff, a);
    StreamStep(file, n);
    var wav := EMPTY.(streamed := true);
    WalkPast(file, 12, 0xffff_fffb, chunks, wav);
    DataOfStream(file, 12 + |s|, 0xffff_fffb - |s|, size, wav.(fmt := LastFormat(chunks, wav.fmt)));
    StandsToEnd(file, 20 + |s|, rest);
  }
}
