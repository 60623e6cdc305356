/**
 Reading the sample data in pieces, and the part of the AAC encoder's main loop that turns
 them into 16-bit samples.
 */
module PcmInput {
  import opened Arithmetic
  import opened Bytes
  import opened WavReader
  import opened Sequences

  // ----- any sequence of requests

  function Sum(requests: seq<nat>): (n: nat) {
    if requests == [] then 0 else requests[0] + Sum(requests[1..])
  }

  /** All bytes delivered for the requests, one after the other. */
  function Delivered(file: seq<byte>, c: Cursor, streamed: bool, requests: seq<nat>): (s: seq<byte>)
    requires 0 <= c.left
    decreases |requests|
  {
    if requests == [] then [] else
    Piece(file, c, streamed, requests[0])
      + Delivered(file, AfterRead(file, c, streamed, requests[0]), streamed, requests[1..])
  }

  function AfterAll(file: seq<byte>, c: Cursor, streamed: bool, requests: seq<nat>): (d: Cursor)
    requires 0 <= c.left
    ensures 0 <= d.left
    decreases |requests|
  {
    if requests == [] then c else
    AfterAll(file, AfterRead(file, c, streamed, requests[0]), streamed, requests[1..])
  }

  function Min(a: nat, b: nat): (m: nat) {
    if a <= b then a else b
  }

  lemma OneRead(file: seq<byte>, c: Cursor, length: nat)
    requires 0 <= c.left < TWO_32 && c.pos <= |file|
    ensures var k := Min(length, c.left);
            var n := Min(k, |file| - c.pos);
            && Piece(file, c, false, length) == file[c.pos..c.pos + n]
            && AfterRead(file, c, false, length) == Cursor(c.pos + n, c.left - k)
  {
  }

  lemma NoReads(file: seq<byte>, c: Cursor)
    requires 0 <= c.left
    ensures Sum([]) == 0 && Delivered(file, c, false, []) == [] && AfterAll(file, c, false, []) == c
  {
  }

  lemma Unrolled(file: seq<byte>, c: Cursor, requests: seq<nat>)
    requires 0 <= c.left && requests != []
    ensures Sum(requests) == requests[0] + Sum(requests[1..])
    ensures var d := AfterRead(file, c, false, requests[0]);
            && Delivered(file, c, false, requests)
               == Piece(file, c, false, requests[0]) + Delivered(file, d, false, requests[1..])
            && AfterAll(file, c, false, requests) == AfterAll(file, d, false, requests[1..])
  {
  }

  /**
   Chunked reading of a file with a known data length: the pieces join to one stretch of the
   file, as long as the requests, the data and the file allow, whatever the sizes asked for.
   */
  lemma {:induction false} ChunkedReading(file: seq<byte>, c: Cursor, requests: seq<nat>)
    requires 0 <= c.left < TWO_32 && c.pos <= |file|
    ensures var n := Min(Sum(requests), c.left);
            && Delivered(file, c, false, requests) == file[c.pos..c.pos + Min(n, |file| - c.pos)]
            && AfterAll(file, c, false, requests).left == c.left - n
    decreases |requests|
  {
    hide Piece, AfterRead, Delivered, AfterAll, Sum;
    if requests == [] {
      NoReads(file, c);
    } else {
      Unrolled(file, c, requests);
      OneRead(file, c, requests[0]);
      var d := AfterRead(file, c, false, requests[0]);
      ChunkedReading(file, d, requests[1..]);
      var n := Min(Min(Sum(requests), c.left), |file| - c.pos);
      JoinSlices(file, c.pos, d.pos, c.pos + n);
    }
  }

  /** Bytes delivered and bytes left add up, exactly as long as the file really holds what is read. */
  lemma BytesConserved(file: seq<byte>, c: Cursor, requests: seq<nat>)
    requires 0 <= c.left < TWO_32 && c.pos <= |file|
    ensures |Delivered(file, c, false, requests)| + AfterAll(file, c, false, requests).left == c.left
            <==> c.pos + Min(Sum(requests), c.left) <= |file|
  {
    ChunkedReading(file, c, requests);
  }

  /** Four bytes of data are promised and one is there: one is delivered, and none are left. */
  lemma TruncatedDataIsLost(file: seq<byte>, c: Cursor)
    requires |file| == 1 && c == Cursor(0, 4)
    ensures Delivered(file, c, false, [4]) == file && AfterAll(file, c, false, [4]).left == 0
  {
    Unrolled(file, c, [4]);
    OneRead(file, c, 4);
    assert file[0..1] == file;
    NoReads(file, AfterRead(file, c, false, 4));
  }

  // ----- conversion to samples

  /** `in[0] | (in[1] << 8)` stored as `int16_t`. */
  function Sample(lo: byte, hi: byte): (v: int)
    ensures -0x8000 <= v < 0x8000
    ensures v % 0x1_0000 == LittleEndian16(lo, hi)
  {
    var u := LittleEndian16(lo, hi);
    if u < 0x8000 then u else u - 0x1_0000
  }

  /** The little-endian samples in `s`; an odd last byte is no sample. */
  function Samples(s: seq<byte>): (v: seq<int>)
    ensures |v| == |s| / 2
  {
    seq(|s| / 2, i requires 0 <= i < |s| / 2 => Sample(s[2 * i], s[2 * i + 1]))
  }

  /** Samples as the file stores them, the low byte first. */
  function Pcm(v: seq<int>): (s: seq<byte>)
    requires forall i :: 0 <= i < |v| ==> -0x8000 <= v[i] < 0x8000
    ensures |s| == 2 * |v|
  {
    seq(2 * |v|, k requires 0 <= k < 2 * |v| =>
      if k % 2 == 0 then v[k / 2] % 256 else v[k / 2] % 0x1_0000 / 256)
  }

  lemma PcmBytes(v: seq<int>, i: nat)
    requires i < |v| && forall k :: 0 <= k < |v| ==> -0x8000 <= v[k] < 0x8000
    ensures Pcm(v)[2 * i] == v[i] % 256 && Pcm(v)[2 * i + 1] == v[i] % 0x1_0000 / 256
  {
    DivModUnique(2 * i, i, 0, 2);
    DivModUnique(2 * i + 1, i, 1, 2);
  }

  lemma SampleAt(s: seq<byte>, i: nat)
    requires 2 * i + 1 < |s|
    ensures i < |s| / 2 && Samples(s)[i] == Sample(s[2 * i], s[2 * i + 1])
  {
    hide Sample;
  }

  /** Any samples come back from the bytes that store them; one more byte adds nothing. */
  lemma {:induction false} SamplesOfPcm(v: seq<int>, odd: seq<byte>)
    requires |odd| <= 1 && forall i :: 0 <= i < |v| ==> -0x8000 <= v[i] < 0x8000
    ensures Samples(Pcm(v) + odd) == v
  {
    hide Pcm, Sample, Samples;
    var s := Pcm(v) + odd;
    DivModUnique(|s|, |v|, |odd|, 2);
    forall i: nat | i < |v|
      ensures Samples(s)[i] == v[i]
    {
      PcmBytes(v, i);
      SampleAt(s, i);
      SampleOfBytes(s[2 * i], s[2 * i + 1], v[i]);
    }
  }

  lemma SampleOfBytes(lo: byte, hi: byte, v: int)
    requires -0x8000 <= v < 0x8000 && lo == v % 256 && hi == v % 0x1_0000 / 256
    ensures Sample(lo, hi) == v
  {
    assert v % 0x1_0000 == if v < 0 then v + 0x1_0000 else v;
    assert lo + hi * 256 == v % 0x1_0000;
  }

  lemma SamplesAppend(a: seq<byte>, b: seq<byte>)
    requires |a| % 2 == 0
    ensures Samples(a + b) == Samples(a) + Samples(b)
  {
    var s := a + b;
    forall i | 0 <= i < |s| / 2
      ensures Samples(s)[i] == (Samples(a) + Samples(b))[i]
    {
      if i >= |a| / 2 {
        var k := i - |a| / 2;
        assert s[2 * i] == b[2 * k] && s[2 * i + 1] == b[2 * k + 1];
      }
    }
  }

  /** The bytes from the cursor on that belong to the sample data. */
  function DataFrom(file: seq<byte>, c: Cursor, streamed: bool): (s: seq<byte>)
    requires 0 <= c.left
  {
    if c.pos > |file| then []
    else if streamed || c.pos + c.left > |file| then file[c.pos..]
    else file[c.pos..c.pos + c.left]
  }

  /** One more read of the loop: a piece and what is left; a piece of odd length is the last one. */
  lemma ReadSplitsData(file: seq<byte>, c: Cursor, streamed: bool, length: nat)
    requires 0 <= c.left < TWO_32 && length % 2 == 0
    ensures var piece := Piece(file, c, streamed, length);
            var d := AfterRead(file, c, streamed, length);
            && DataFrom(file, c, streamed) == piece + DataFrom(file, d, streamed)
            && (|piece| % 2 == 1 ==> DataFrom(file, d, streamed) == [])
            && (piece == [] && length > 0 ==> DataFrom(file, c, streamed) == [])
  {
    var piece := Piece(file, c, streamed, length);
    var d := AfterRead(file, c, streamed, length);
    if !streamed {
      assert d.left == c.left - Wanted(c, streamed, length);
    }
    if c.pos <= |file| {
      assert d.pos == c.pos + |piece| && piece == file[c.pos..d.pos];
      if streamed || c.pos + c.left > |file| {
        assert file[c.pos..] == file[c.pos..d.pos] + file[d.pos..];
      } else {
        assert file[c.pos..c.pos + c.left] == file[c.pos..d.pos] + file[d.pos..c.pos + c.left];
      }
    }
  }

  /** Only the last piece is shorter than the request. */
  lemma ShortRead(file: seq<byte>, c: Cursor, streamed: bool, length: nat)
    requires 0 <= c.left < TWO_32 && length % 2 == 0
    ensures var n := |Piece(file, c, streamed, length)|;
            && n <= length
            && (n / 2 != length / 2 ==>
                  n / 2 < length / 2 && DataFrom(file, AfterRead(file, c, streamed, length), streamed) == [])
  {
    ReadSplitsData(file, c, streamed, length);
    if !streamed {
      assert AfterRead(file, c, streamed, length).left == c.left - Wanted(c, streamed, length);
    }
  }

  /** The inner loop of the encoder: fills `convertBuf` from the bytes read. */
  method ConvertSamples(inputBuf: array<byte>, read: nat, convertBuf: array<int>)
    requires read <= inputBuf.Length && read / 2 <= convertBuf.Length
    modifies convertBuf
    ensures convertBuf[..read / 2] == Samples(inputBuf[..read])
  {
    for i := 0 to read / 2
      invariant forall k :: 0 <= k < i ==> convertBuf[k] == Samples(inputBuf[..read])[k]
    {
      convertBuf[i] := Sample(inputBuf[2 * i], inputBuf[2 * i + 1]);
    }
  }

  /**
   The main loop without the codec: read, convert, pass the samples on, until a read delivers
   nothing and the encoder is told that the input has ended.  `calls` is what the encoder gets.
   */
  method FeedEncoder(reader: Reader, inputSize: nat) returns (calls: seq<seq<int>>, samples: seq<int>)
    requires reader.Valid() && 0 < inputSize <= INT_MAX && inputSize % 2 == 0
    modifies reader`pos, reader`eof, reader`dataLength
    ensures reader.Valid()
    ensures samples == Samples(DataFrom(reader.file, old(reader.Position()), reader.streamed))
    ensures samples == Concat(calls)
    ensures forall k :: 0 <= k < |calls| ==>
              if k + 1 < |calls| then |calls[k]| == inputSize / 2 else |calls[k]| <= inputSize / 2
  {
    hide Samples, DataFrom, Piece, AfterRead, Concat;
    var inputBuf := new byte[inputSize];
    var convertBuf := new int[inputSize / 2];
    calls, samples := [], [];
    NothingJoined();
    ghost var streamed := reader.streamed;
    ghost var all := DataFrom(reader.file, reader.Position(), streamed);
    while true
      invariant reader.Valid() && reader.streamed == streamed
      invariant Samples(all) == samples + Samples(DataFrom(reader.file, reader.Position(), streamed))
      invariant samples == Concat(calls)
      invariant forall k :: 0 <= k < |calls| - 1 ==> |calls[k]| == inputSize / 2
      invariant calls != [] && |calls[|calls| - 1]| != inputSize / 2 ==>
                  |calls[|calls| - 1]| < inputSize / 2
                  && DataFrom(reader.file, reader.Position(), streamed) == []
      decreases |DataFrom(reader.file, reader.Position(), streamed)|
    {
      ghost var c := reader.Position();
      var read := reader.ReadData(inputBuf, inputSize);
      ghost var piece := Piece(reader.file, c, streamed, inputSize);
      ReadSplitsData(reader.file, c, streamed, inputSize);
      ShortRead(reader.file, c, streamed, inputSize);
      ConvertSamples(inputBuf, read, convertBuf);
      if read == 0 {
        break;
      }
      AppendPiece(samples, piece, DataFrom(reader.file, reader.Position(), streamed));
      ConcatLast(calls, convertBuf[..read / 2]);
      calls := calls + [convertBuf[..read / 2]];
      samples := samples + convertBuf[..read / 2];
    }
    assert samples + [] == samples;
  }

  lemma NothingJoined()
    ensures Concat<int>([]) == [] && Samples([]) == []
  {
  }

  lemma AppendPiece(samples: seq<int>, piece: seq<byte>, rest: seq<byte>)
    requires |piece| % 2 == 1 ==> rest == []
    ensures samples + Samples(piece + rest) == (samples + Samples(piece)) + Samples(rest)
  {
    if |piece| % 2 == 1 {
      assert piece + rest == piece;
    } else {
      SamplesAppend(piece, rest);
    }
  }
}
