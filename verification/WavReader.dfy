/**
 The RIFF/WAVE reader: `wav_read_open` walks nested chunks with a file cursor and an unsigned
 count of the bytes left, `wav_read_data` hands out the sample data in pieces.
 */
module WavReader {
  import opened Bytes

  const RIFF := 0x52494646
  const WAVE := 0x57415645
  const FMT := 0x666d7420
  const DATA := 0x64617461

  /** Chunk lengths from here on mean a stream of unknown size. */
  const STREAM_LENGTH := 0x7fff_0000
  const EXTENSIBLE := 0xfffe

  datatype Format = Format(
    format: int, channels: int, sampleRate: int, byteRate: int, blockAlign: int, bitsPerSample: int)

  /** What is known about the file so far; `dataPos` is where the last sample data starts. */
  datatype Wav = Wav(fmt: Format, dataLength: int, streamed: bool, dataPos: nat)

  const EMPTY := Wav(Format(0, 0, 0, 0, 0, 0), 0, false, 0)

  // ----- what the reads at a position give, also past the end of the file

  /** The position after reading `n` bytes. */
  function Advance(file: seq<byte>, pos: nat, n: nat): (p: nat)
    ensures pos <= p <= pos + n && (p < pos + n ==> p >= |file|) && (p > pos ==> p <= |file|)
  {
    if pos + n <= |file| then pos + n else if pos <= |file| then |file| else pos
  }

  function Tag(file: seq<byte>, pos: nat): (t: int)
    ensures 0 <= t < TWO_32
  {
    if pos + 4 <= |file| then BigEndian32(file[pos], file[pos + 1], file[pos + 2], file[pos + 3]) else TWO_32 - 1
  }

  /** A missing byte reads as -1, which sets all bits from its place up. */
  function UInt32(file: seq<byte>, pos: nat): (v: int)
    ensures 0 <= v < TWO_32
  {
    if pos + 4 <= |file| then LittleEndian32(file[pos], file[pos + 1], file[pos + 2], file[pos + 3])
    else if pos + 3 == |file| then LittleEndian32(file[pos], file[pos + 1], file[pos + 2], 0xff)
    else if pos + 2 == |file| then LittleEndian32(file[pos], file[pos + 1], 0xff, 0xff)
    else if pos + 1 == |file| then LittleEndian32(file[pos], 0xff, 0xff, 0xff)
    else TWO_32 - 1
  }

  function UInt16(file: seq<byte>, pos: nat): (v: int)
    ensures 0 <= v < 0x1_0000
  {
    if pos + 2 <= |file| then LittleEndian16(file[pos], file[pos + 1])
    else if pos + 1 == |file| then LittleEndian16(file[pos], 0xff)
    else 0xffff
  }

  /** Each byte of a number is the one in the file, or 255 behind the end; a tag with a missing byte is all ones. */
  lemma ReadBytes(file: seq<byte>, pos: nat)
    ensures var b := (k: nat) => if k < |file| then file[k] as int else 0xff;
            && UInt32(file, pos) == b(pos) + 0x100 * b(pos + 1) + 0x1_0000 * b(pos + 2) + 0x100_0000 * b(pos + 3)
            && UInt16(file, pos) == b(pos) + 0x100 * b(pos + 1)
            && Tag(file, pos) == (if pos + 4 > |file| then 0xffff_ffff else
                                  0x100_0000 * b(pos) + 0x1_0000 * b(pos + 1) + 0x100 * b(pos + 2) + b(pos + 3))
  {
  }

  // ----- the walk over the chunks

  /** The end of one sub-chunk: the next one, the end of the inner loop, or the end of the whole walk. */
  datatype Step = Next(pos: nat, length: nat, wav: Wav) | Stop(pos: nat, length: nat, wav: Wav) | Return(wav: Wav)

  /** The six fields at `pos`. */
  function FormatAt(file: seq<byte>, pos: nat): (f: Format) {
    var p2 := Advance(file, pos, 2);
    var p4 := Advance(file, p2, 2);
    var p8 := Advance(file, p4, 4);
    var p12 := Advance(file, p8, 4);
    var p14 := Advance(file, p12, 2);
    Format(UInt16(file, pos), UInt16(file, p2), Signed32(UInt32(file, p4)), Signed32(UInt32(file, p8)),
           UInt16(file, p12), UInt16(file, p14))
  }

  /** `skip` takes its count as a signed number and does nothing for a negative one. */
  function Skipped(file: seq<byte>, pos: nat, n: int): (p: nat)
    requires 0 <= n < TWO_32
    ensures pos <= p
  {
    if n < TWO_31 then Advance(file, pos, n) else pos
  }

  /** So a length of 2^31 and more is not skipped at all, and any other one up to the end of the file. */
  lemma HugeSkip(file: seq<byte>, pos: nat, n: int)
    requires 0 <= n < TWO_32 && pos <= |file|
    ensures Skipped(file, pos, n)
            == if n >= 0x8000_0000 then pos else if pos + n <= |file| then pos + n else |file|
  {
  }

  /** A `fmt ` chunk of `size` bytes at `pos`, of which `length` are left in the RIFF chunk. */
  function FmtStep(file: seq<byte>, pos: nat, length: nat, size: int, wav: Wav): (s: Step)
    requires 0 <= size <= length && size < TWO_32
  {
    if size < 16 then Stop(pos, length, wav) else
    var f := FormatAt(file, pos);
    var p := Advance(file, pos, 16);
    if f.format == EXTENSIBLE then
      if size < 28 then Stop(p, length, wav.(fmt := f)) else
      var q := Advance(file, p, 8);
      var g := f.(format := Signed32(UInt32(file, q)));
      Next(Skipped(file, Advance(file, q, 4), size - 28), length - size, wav.(fmt := g))
    else
      Next(Skipped(file, p, size - 16), length - size, wav.(fmt := f))
  }

  function DataStep(pos: nat, length: nat, size: int, wav: Wav): (s: Step)
    requires 0 <= size <= length
  {
    var w := wav.(dataPos := pos, dataLength := size);
    if size == 0 || wav.streamed then Return(w.(streamed := true))
    else Next(pos + size, length - size, w)
  }

  /** One round of the inner loop. */
  function ChunkStep(file: seq<byte>, pos: nat, length: nat, wav: Wav): (s: Step)
    requires 8 <= length
    ensures s.Next? ==> s.length <= length - 8 && s.pos >= pos
    ensures s.Stop? ==> s.pos >= pos
  {
    if pos + 4 > |file| then Stop(Advance(file, pos, 4), length, wav) else
    var subtag, size := Tag(file, pos), UInt32(file, pos + 4);
    var body, left := Advance(file, pos + 4, 4), length - 8;
    if left < size then Stop(body, left, wav)
    else if subtag == FMT then FmtStep(file, body, left, size, wav)
    else if subtag == DATA then DataStep(body, left, size, wav)
    else Next(Skipped(file, body, size), left - size, wav)
  }

  /** The inner loop; never ends in `Next`. */
  function WalkChunks(file: seq<byte>, pos: nat, length: nat, wav: Wav): (s: Step)
    ensures !s.Next?
    ensures s.Stop? ==> s.pos >= pos
    decreases length
  {
    if length < 8 then Stop(pos, length, wav) else
    var s := ChunkStep(file, pos, length, wav);
    if s.Next? then WalkChunks(file, s.pos, s.length, s.wav) else s
  }

  /** One round of the outer loop: where the next chunk is looked for, or the end of the walk. */
  function RiffStep(file: seq<byte>, pos: nat, wav: Wav): (s: Step)
    ensures s.Next? ==> pos + 4 <= |file| && s.pos > pos
    ensures !s.Stop?
  {
    if pos + 4 > |file| then Return(wav) else
    var tag, size := Tag(file, pos), UInt32(file, pos + 4);
    var body := Advance(file, pos + 4, 4);
    var stream := size == 0 || size >= STREAM_LENGTH;
    var length := if stream then TWO_32 - 1 else size;
    var w := if stream then wav.(streamed := true) else wav;
    if tag != RIFF || length < 4 then Next(body + length, 0, w) else
    var chunks := Advance(file, body, 4);
    if Tag(file, body) != WAVE then Next(chunks + (length - 4), 0, w) else
    var s := WalkChunks(file, chunks, length - 4, w);
    if s.Return? then s else Next(s.pos + s.length, 0, s.wav)
  }

  /** The outer loop, from `pos` to the end of the file. */
  function Walk(file: seq<byte>, pos: nat, wav: Wav): (r: Wav)
    decreases if pos <= |file| then |file| - pos else 0
  {
    var s := RiffStep(file, pos, wav);
    if s.Return? then s.wav else Walk(file, s.pos, s.wav)
  }

  // ----- struct wav_reader and its file

  /** `v | c << 8 * k` for an unsigned number of `width` values, with `place` = 256 to the power `k`;
      `c` is a byte, or -1 at the end of the file. */
  function OrByte(v: int, c: int, place: int, width: int): (r: int)
    requires place in {1, 0x100, 0x1_0000, 0x100_0000} && width in {0x1_0000, TWO_32} && 256 * place <= width
    requires 0 <= v < width && -1 <= c < 256
    requires c >= 0 ==> v < place
    ensures 0 <= r < width
  {
    if c < 0 then v % place + (width - place) else v + c * place
  }

  /** The place in the sample data: the file cursor and the bytes not yet asked for. */
  datatype Cursor = Cursor(pos: nat, left: int)

  /** What a request is cut down to. */
  function Wanted(c: Cursor, streamed: bool, length: nat): (n: nat)
    requires 0 <= c.left
  {
    if length > c.left && !streamed then c.left else length
  }

  /** The bytes one `wav_read_data` delivers. */
  function Piece(file: seq<byte>, c: Cursor, streamed: bool, length: nat): (s: seq<byte>)
    requires 0 <= c.left
  {
    var n := Wanted(c, streamed, length);
    if c.pos > |file| then [] else if c.pos + n <= |file| then file[c.pos..c.pos + n] else file[c.pos..]
  }

  function AfterRead(file: seq<byte>, c: Cursor, streamed: bool, length: nat): (d: Cursor)
    requires 0 <= c.left
    ensures 0 <= d.left
  {
    Cursor(c.pos + |Piece(file, c, streamed, length)|, (c.left - Wanted(c, streamed, length)) % TWO_32)
  }

  /** What `fread` delivers of a cut-down request of `n` bytes. */
  lemma PieceRead(file: seq<byte>, c: Cursor, streamed: bool, length: nat, n: nat)
    requires 0 <= c.left
    requires var wanted := Wanted(c, streamed, length);
             n == if c.pos + wanted <= |file| then wanted else if c.pos <= |file| then |file| - c.pos else 0
    ensures Piece(file, c, streamed, length) == if n == 0 then [] else file[c.pos..c.pos + n]
    ensures AfterRead(file, c, streamed, length)
            == Cursor(c.pos + n, (c.left - Wanted(c, streamed, length)) % TWO_32)
  {
  }

  class Reader {
    const file: seq<byte>
    var pos: nat
    var eof: bool

    var dataLength: int
    var format: int
    var sampleRate: int
    var bitsPerSample: int
    var channels: int
    var byteRate: int
    var blockAlign: int
    var streamed: bool

    /** The end-of-file flag is only up when there is nothing left to read. */
    ghost predicate Valid()
      reads this
    {
      && (eof ==> pos >= |file|)
      && 0 <= dataLength < TWO_32
    }

    ghost function Fmt(): (f: Format)
      reads this
    {
      Format(format, channels, sampleRate, byteRate, blockAlign, bitsPerSample)
    }

    ghost function Info(dataPos: nat): (w: Wav)
      reads this
    {
      Wav(Fmt(), dataLength, streamed, dataPos)
    }

    /** `fopen` and the cleared structure. */
    constructor (file: seq<byte>)
      ensures Valid() && this.file == file && pos == 0 && Info(0) == EMPTY
    {
      this.file := file;
      pos, eof, streamed := 0, false, false;
      dataLength, format, sampleRate, bitsPerSample := 0, 0, 0, 0;
      channels, byteRate, blockAlign := 0, 0, 0;
    }

    method Fgetc() returns (c: int)
      requires Valid()
      modifies this`pos, this`eof
      ensures Valid()
      ensures pos == Advance(file, old(pos), 1)
      ensures c == if old(pos) < |file| then file[old(pos)] else -1
      ensures old(pos) >= |file| ==> eof
      ensures eof == (old(eof) || old(pos) >= |file|)
    {
      if pos < |file| {
        c := file[pos];
        pos := pos + 1;
      } else {
        c := -1;
        eof := true;
      }
    }

    /** `fseek` to a position, possibly past the end; clears the end-of-file flag. */
    method Seek(target: nat)
      modifies this`pos, this`eof
      ensures pos == target && !eof
    {
      pos, eof := target, false;
    }

    method ReadTag() returns (tag: int)
      requires Valid()
      modifies this`pos, this`eof
      ensures Valid() && tag == Tag(file, old(pos)) && pos == Advance(file, old(pos), 4)
      ensures eof <==> old(eof) || old(pos) + 4 > |file|
    {
      tag := 0;
      for i := 0 to 4
        invariant Valid() && pos == Advance(file, old(pos), i)
        invariant eof <==> old(eof) || (i > 0 && old(pos) + i > |file|)
        invariant i > 0 && old(pos) + i > |file| ==> tag == TWO_32 - 1
        invariant old(pos) + i <= |file| ==> tag == Shifted(file, old(pos), i)
      {
        var c := Fgetc();
        tag := if c < 0 then TWO_32 - 1 else tag * 256 % TWO_32 + c;
      }
      if old(pos) + 4 <= |file| {
        ShiftedAll(file, old(pos));
      }
    }

    method ReadInt32() returns (v: int)
      requires Valid()
      modifies this`pos, this`eof
      ensures Valid() && v == UInt32(file, old(pos)) && pos == Advance(file, old(pos), 4)
      ensures eof <==> old(eof) || old(pos) + 4 > |file|
    {
      v := 0;
      var c := Fgetc();
      v := OrByte(v, c, 1, TWO_32);
      c := Fgetc();
      v := OrByte(v, c, 0x100, TWO_32);
      c := Fgetc();
      v := OrByte(v, c, 0x1_0000, TWO_32);
      c := Fgetc();
      v := OrByte(v, c, 0x100_0000, TWO_32);
    }

    method ReadInt16() returns (v: int)
      requires Valid()
      modifies this`pos, this`eof
      ensures Valid() && v == UInt16(file, old(pos)) && pos == Advance(file, old(pos), 2)
      ensures eof <==> old(eof) || old(pos) + 2 > |file|
    {
      v := 0;
      var c := Fgetc();
      v := OrByte(v, c, 1, 0x1_0000);
      c := Fgetc();
      v := OrByte(v, c, 0x100, 0x1_0000);
    }

    /** `skip(wr->wav, n)` with an unsigned count passed for a signed one. */
    method Skip(count: int)
      requires Valid() && 0 <= count < TWO_32
      modifies this`pos, this`eof
      ensures Valid() && pos == Skipped(file, old(pos), count)
    {
      var n := Signed32(count);
      var i := 0;
      while i < n
        invariant 0 <= i && (n >= 0 ==> i <= n) && (n < 0 ==> i == 0)
        invariant Valid() && pos == Advance(file, old(pos), i)
      {
        var _ := Fgetc();
        i := i + 1;
      }
    }

    method ReadFormat()
      requires Valid()
      modifies this
      ensures Valid() && pos == Advance(file, old(pos), 16)
      ensures Fmt() == FormatAt(file, old(pos))
      ensures dataLength == old(dataLength) && streamed == old(streamed)
    {
      hide UInt32, UInt16, Signed32;
      format := ReadInt16();
      channels := ReadInt16();
      var rate := ReadInt32();
      sampleRate := Signed32(rate);
      rate := ReadInt32();
      byteRate := Signed32(rate);
      blockAlign := ReadInt16();
      bitsPerSample := ReadInt16();
    }

    /** The body of the inner loop; `next` tells whether the loop goes on, breaks, or the function returns. */
    method ReadChunk(length: nat, dataPos: nat) returns (next: Flow, left: nat, newDataPos: nat)
      requires Valid() && 8 <= length
      modifies this
      ensures Valid()
      ensures ChunkStep(file, old(pos), length, old(Info(dataPos)))
              == match next
                 case Continue => Next(pos, left, Info(newDataPos))
                 case Break => Stop(pos, left, Info(newDataPos))
                 case Exit => Return(Info(newDataPos))
      ensures next.Exit? ==> pos == newDataPos
    {
      hide UInt32, UInt16, FormatAt, Signed32, Tag;
      left, newDataPos := length, dataPos;
      var subtag := ReadTag();
      if eof {
        return Break, left, newDataPos;
      }
      var sublength := ReadInt32();
      left := left - 8;
      if left < sublength {
        return Break, left, newDataPos;
      }
      if subtag == FMT {
        if sublength < 16 {
          return Break, left, newDataPos;
        }
        ReadFormat();
        if format == EXTENSIBLE {
          if sublength < 28 {
            return Break, left, newDataPos;
          }
          Skip(8);
          var tag := ReadInt32();
          format := Signed32(tag);
          Skip(sublength - 28);
        } else {
          Skip(sublength - 16);
        }
      } else if subtag == DATA {
        newDataPos := pos;
        dataLength := sublength;
        if dataLength == 0 || streamed {
          streamed := true;
          return Exit, left, newDataPos;
        }
        Seek(pos + sublength);
      } else {
        Skip(sublength);
      }
      left := left - sublength;
      next := Continue;
    }

    /** The body of the outer loop. */
    method ReadRiff(dataPos: nat) returns (next: Flow, newDataPos: nat)
      requires Valid()
      modifies this
      ensures Valid()
      ensures RiffStep(file, old(pos), old(Info(dataPos)))
              == if next.Continue? then Next(pos, 0, Info(newDataPos)) else Return(Info(newDataPos))
      ensures next.Exit? ==> pos == newDataPos
    {
      hide UInt32, ChunkStep, Tag;
      newDataPos := dataPos;
      var tag := ReadTag();
      if eof {
        return Break, newDataPos;
      }
      var length := ReadInt32();
      if length == 0 || length >= STREAM_LENGTH {
        streamed := true;
        length := TWO_32 - 1;
      }
      if tag != RIFF || length < 4 {
        Seek(pos + length);
        return Continue, newDataPos;
      }
      var tag2 := ReadTag();
      length := length - 4;
      if tag2 != WAVE {
        Seek(pos + length);
        return Continue, newDataPos;
      }
      ghost var walk := WalkChunks(file, pos, length, Info(newDataPos));
      while length >= 8
        invariant Valid() && 0 <= length
        invariant WalkChunks(file, pos, length, Info(newDataPos)) == walk
        decreases length
      {
        next, length, newDataPos := ReadChunk(length, newDataPos);
        match next
        case Continue =>
        case Break =>
          assert walk == Stop(pos, length, Info(newDataPos));
          break;
        case Exit =>
          return;
      }
      assert walk == Stop(pos, length, Info(newDataPos));
      if length > 0 {
        Seek(pos + length);
      }
      next := Continue;
    }

    /** `wav_read_open` on the opened file: leaves the cursor on the first byte of the sample data. */
    method Open()
      requires Valid() && pos == 0 && Info(0) == EMPTY
      modifies this
      ensures Valid() && Info(pos) == Walk(file, 0, EMPTY)
    {
      hide RiffStep;
      var dataPos: nat, next := 0, Continue;
      while next.Continue?
        invariant Valid()
        invariant next.Continue? ==> Walk(file, pos, Info(dataPos)) == Walk(file, 0, EMPTY)
        invariant !next.Continue? ==> Info(dataPos) == Walk(file, 0, EMPTY)
        invariant next.Exit? ==> pos == dataPos
        decreases next.Continue?, if pos <= |file| then |file| - pos else 0
      {
        next, dataPos := ReadRiff(dataPos);
      }
      if next.Break? {
        Seek(dataPos);
      }
    }

    /** `wav_get_header`. */
    method GetHeader() returns (ok: bool, fmt: Format, length: int)
      ensures fmt == Fmt() && length == dataLength
      ensures ok <==> fmt.format != 0 && fmt.sampleRate != 0
    {
      fmt := Format(format, channels, sampleRate, byteRate, blockAlign, bitsPerSample);
      length := dataLength;
      ok := format != 0 && sampleRate != 0;
    }

    ghost function Position(): (c: Cursor)
      reads this
    {
      Cursor(pos, dataLength)
    }

    /** `wav_read_data`: what `fread` delivers of the request, which is charged in full to `data_length`. */
    method ReadData(data: array<byte>, length: nat) returns (n: nat)
      requires Valid() && length <= data.Length && length <= INT_MAX
      modifies this`pos, this`eof, this`dataLength, data
      ensures Valid()
      ensures n <= data.Length
      ensures data[..n] == Piece(file, old(Position()), streamed, length) && data[n..] == old(data[n..])
      ensures Position() == AfterRead(file, old(Position()), streamed, length)
    {
      hide Piece, AfterRead;
      ghost var c := Position();
      var wanted := length;
      if wanted > dataLength && !streamed {
        wanted := dataLength;
      }
      n := if pos + wanted <= |file| then wanted else if pos <= |file| then |file| - pos else 0;
      forall i | 0 <= i < n {
        data[i] := file[pos + i];
      }
      PieceRead(file, c, streamed, length, n);
      eof := eof || n < wanted;
      pos := pos + n;
      dataLength := (dataLength - wanted) % TWO_32;
    }
  }

  /** How the body of one of the two loops ends. */
  datatype Flow = Continue | Break | Exit
}