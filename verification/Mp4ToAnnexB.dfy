/**
 Conversion of MP4 video packets (NAL units behind 4-byte lengths) into an Annex B byte
 stream: `alloc_start_code_and_copy` and `h264_mp4toannexb`.
 */
module Mp4ToAnnexB {
  import opened Bytes
  import opened Results
  import opened AnnexB
  import opened ParameterSets

  // ----- the packet as a list of units

  /** A unit of the packet; `kind` is what the converter takes for its type, the low five bits of
      the byte behind the length, which belongs to the next record when the payload is empty. */
  datatype NalUnit = NalUnit(kind: int, payload: seq<byte>)

  const IDR := 5

  function NalSize(d: seq<byte>, at: nat): (n: int)
    requires at + 4 <= |d|
  {
    Signed32(BigEndian32(d[at], d[at + 1], d[at + 2], d[at + 3]))
  }

  /** The units read one after the other from `at`, as far as the lengths stay inside the packet. */
  function UnitsFrom(d: seq<byte>, size: nat, at: nat): (us: seq<NalUnit>)
    requires Padded(d, size)
    decreases size - at
  {
    if at + 4 > size then [] else
    var n := NalSize(d, at);
    if n < 0 || n > size - (at + 4) then [] else
    [NalUnit(d[at + 4] % 32, d[at + 4..at + 4 + n])] + UnitsFrom(d, size, at + 4 + n)
  }

  lemma UnitsNext(d: seq<byte>, size: nat, at: nat)
    requires Padded(d, size) && at + 4 <= size && 0 <= NalSize(d, at) <= size - (at + 4)
    ensures var next := at + 4 + NalSize(d, at);
            UnitsFrom(d, size, at) == [NalUnit(d[at + 4] % 32, d[at + 4..next])] + UnitsFrom(d, size, next)
  {
    hide NalSize;
  }

  function FrameLength(us: seq<NalUnit>): (n: nat) {
    if us == [] then 0 else 4 + |us[0].payload| + FrameLength(us[1..])
  }

  lemma FrameLengthOne(u: NalUnit)
    ensures FrameLength([u]) == 4 + |u.payload|
  {
    assert [u][1..] == [];
  }

  /** The packet is used up by its units, and there is at least one. */
  ghost predicate ExactlyFramed(d: seq<byte>, size: nat)
    requires Padded(d, size)
  {
    size > 0 && FrameLength(UnitsFrom(d, size, 0)) == size
  }

  // ----- the byte stream of a list of units

  /** What one unit adds: the parameter sets before an IDR unit, then the unit. */
  function CodedUnit(u: NalUnit, first: bool, sets: ParameterSets): (c: seq<CodedNal>) {
    (if u.kind == IDR then Coded(sets.sps + sets.pps) else []) + [CodedNal(first, u.payload)]
  }

  function CodedUnits(us: seq<NalUnit>, sets: ParameterSets): (c: seq<CodedNal>) {
    if us == [] then [] else
    var k := |us| - 1;
    CodedUnits(us[..k], sets) + CodedUnit(us[k], k == 0, sets)
  }

  function Emit(us: seq<NalUnit>, sets: ParameterSets): (s: seq<byte>) {
    Stream(CodedUnits(us, sets))
  }

  /** The bytes the next unit appends. */
  function Chunk(u: NalUnit, first: bool, sets: ParameterSets): (s: seq<byte>) {
    (if u.kind == IDR then AnnexBOf(sets) else []) + StartCode(first) + u.payload
  }

  lemma EmitNext(us: seq<NalUnit>, k: nat, sets: ParameterSets)
    requires k < |us|
    ensures Emit(us[..k + 1], sets) == Emit(us[..k], sets) + Chunk(us[k], k == 0, sets)
    ensures |Emit(us[..k], sets)| < |Emit(us[..k + 1], sets)|
  {
    hide Stream, Coded;
    var done := us[..k + 1];
    assert done[..k] == us[..k];
    StreamAppend(CodedUnits(us[..k], sets), CodedUnit(us[k], k == 0, sets));
    ChunkIsStream(us[k], k == 0, sets);
  }

  lemma ChunkIsStream(u: NalUnit, first: bool, sets: ParameterSets)
    ensures Stream(CodedUnit(u, first, sets)) == Chunk(u, first, sets)
  {
    var last := [CodedNal(first, u.payload)];
    assert Stream(last) == StartCode(first) + u.payload;
    if u.kind == IDR {
      StreamAppend(Coded(sets.sps + sets.pps), last);
    } else {
      assert CodedUnit(u, first, sets) == last;
    }
  }

  /** Earlier output is shorter than later output. */
  lemma {:induction false} EmitGrows(us: seq<NalUnit>, j: nat, k: nat, sets: ParameterSets)
    requires j <= k <= |us|
    ensures |Emit(us[..j], sets)| <= |Emit(us[..k], sets)|
    ensures j < k ==> |Emit(us[..j], sets)| < |Emit(us[..k], sets)|
    decreases k
  {
    hide Emit;
    if j < k {
      EmitGrows(us, j, k - 1, sets);
      EmitNext(us, k - 1, sets);
    }
  }

  // ----- alloc_start_code_and_copy

  /** An output packet; `av_grow_packet` fails when the packet would get larger than `limit`. */
  class Packet {
    const limit: nat
    var data: array<byte>
    var size: nat

    ghost predicate Valid()
      reads this, data
    {
      size == data.Length
    }

    ghost function Contents(): (s: seq<byte>)
      requires Valid()
      reads this, data
      ensures |s| == size
    {
      data[..]
    }

    constructor (limit: nat)
      ensures Valid() && Contents() == [] && this.limit == limit && fresh(data)
    {
      this.limit := limit;
      data := new byte[0];
      size := 0;
    }

    /** `av_grow_packet`: a larger buffer with the old contents; the new bytes are unspecified. */
    method Grow(growBy: nat) returns (ok: bool)
      requires Valid()
      modifies this
      ensures Valid()
      ensures ok == (old(size) + growBy <= limit)
      ensures ok ==> size == old(size) + growBy && fresh(data) && data[..old(size)] == old(Contents())
      ensures !ok ==> size == old(size) && data == old(data)
    {
      ok := size + growBy <= limit;
      if ok {
        var grown := new byte[size + growBy];
        forall i | 0 <= i < size {
          grown[i] := data[i];
        }
        data, size := grown, size + growBy;
      }
    }

    /** Appends `spsPps`, a start code (four bytes at the front of the packet, three behind) and a unit. */
    method AllocStartCodeAndCopy(spsPps: array?<byte>, spsPpsSize: nat, input: array<byte>, from: nat, inSize: nat)
      returns (ok: bool)
      requires Valid()
      requires if spsPps == null then spsPpsSize == 0 else spsPpsSize <= spsPps.Length
      requires from + inSize <= input.Length
      modifies this
      ensures Valid()
      ensures var sets := if spsPps == null then [] else spsPps[..spsPpsSize];
              var appended := sets + StartCode(old(size) == 0) + input[from..from + inSize];
              && ok == (old(size) + |appended| <= limit)
              && Contents() == if ok then old(Contents()) + appended else old(Contents())
      ensures ok ==> fresh(data)
      ensures !ok ==> data == old(data)
    {
      var offset := size;
      var nalHeaderSize := if offset != 0 then 3 else 4;
      ok := Grow(spsPpsSize + inSize + nalHeaderSize);
      if ok {
        FillIn(data, offset, spsPps, spsPpsSize, input, from, inSize);
      }
    }
  }

  /** The three stores into a grown packet: parameter sets, unit, and the start code between them. */
  method FillIn(data: array<byte>, offset: nat, spsPps: array?<byte>, spsPpsSize: nat,
                input: array<byte>, from: nat, inSize: nat)
    requires data != spsPps && data != input
    requires if spsPps == null then spsPpsSize == 0 else spsPpsSize <= spsPps.Length
    requires from + inSize <= input.Length
    requires data.Length == offset + spsPpsSize + |StartCode(offset == 0)| + inSize
    modifies data
    ensures var sets := if spsPps == null then [] else spsPps[..spsPpsSize];
            data[..] == old(data[..])[..offset] + (sets + StartCode(offset == 0) + input[from..from + inSize])
  {
    hide StartCode, Overwritten;
    ghost var d0, code, unit := data[..], StartCode(offset == 0), input[from..from + inSize];
    ghost var sets := if spsPps == null then [] else spsPps[..spsPpsSize];
    CopyOptional(data, offset, spsPps, spsPpsSize);
    CopyBytes(data, data.Length - inSize, input, from, inSize);
    StoreStartCode(data, offset + spsPpsSize, offset == 0);
    Assembled(d0, offset, sets, code, unit);
  }

  /** Copies the parameter sets, if there are any. */
  method CopyOptional(data: array<byte>, offset: nat, spsPps: array?<byte>, spsPpsSize: nat)
    requires data != spsPps && offset + spsPpsSize <= data.Length
    requires if spsPps == null then spsPpsSize == 0 else spsPpsSize <= spsPps.Length
    modifies data
    ensures var sets := if spsPps == null then [] else spsPps[..spsPpsSize];
            data[..] == Overwritten(old(data[..]), offset, sets)
  {
    if spsPps != null {
      CopyBytes(data, offset, spsPps, 0, spsPpsSize);
    }
  }

  /** Parameter sets, unit and start code, stored in this order behind the old contents of a grown packet. */
  lemma Assembled(d0: seq<byte>, offset: nat, sets: seq<byte>, code: seq<byte>, unit: seq<byte>)
    requires offset + |sets| + |code| + |unit| == |d0|
    ensures var d1 := Overwritten(d0, offset, sets);
            var d2 := Overwritten(d1, |d1| - |unit|, unit);
            Overwritten(d2, offset + |sets|, code) == d0[..offset] + (sets + code + unit)
  {
  }

  /** The output file, as the list of what each `fwrite` put into it. */
  class ByteSink {
    var writes: seq<seq<byte>>

    constructor ()
      ensures writes == []
    {
      writes := [];
    }

    method Write(buffer: array<byte>, n: nat)
      requires n <= buffer.Length
      modifies this
      ensures writes == old(writes) + [buffer[..n]]
    {
      writes := writes + [buffer[..n]];
    }
  }

  // ----- h264_mp4toannexb

  /** The output packet after the first `n` units. */
  function OutputAfter(us: seq<NalUnit>, sets: ParameterSets, n: nat): (s: seq<byte>)
    requires n <= |us|
  {
    Emit(us[..n], sets)
  }

  /** What the first `k` units make the converter write: after each unit, all of the output so far. */
  function Trace(us: seq<NalUnit>, sets: ParameterSets, k: nat): (t: seq<seq<byte>>)
    requires k <= |us|
    ensures |t| == k
  {
    seq(k, i requires 0 <= i < k => OutputAfter(us, sets, i + 1))
  }

  /** The parameter sets the record stands for; none when it does not convert. */
  function SetsOf(extradata: seq<byte>, size: nat): (sets: ParameterSets)
    requires Padded(extradata, size)
  {
    if RecordOf(extradata, size).Some? then RecordOf(extradata, size).value else ParameterSets([], [])
  }

  /** Shifts the four length bytes into a 32-bit signed size. */
  method ReadNalSize(data: array<byte>, at: nat) returns (n: int)
    requires at + 4 <= data.Length
    ensures n == NalSize(data[..], at)
  {
    var bits := 0;
    for i := 0 to 4
      invariant bits == Shifted(data[..], at, i)
    {
      bits := (bits * 256 + data[at + i]) % TWO_32;
    }
    ShiftedAll(data[..], at);
    n := Signed32(bits);
  }

  /** The state of the loop after `k` units. */
  ghost predicate Converted(d: seq<byte>, size: nat, us: seq<NalUnit>, k: nat, at: nat)
    requires Padded(d, size)
  {
    && k <= |us| && at <= size
    && us == UnitsFrom(d, size, 0)
    && us[k..] == UnitsFrom(d, size, at)
    && at == FrameLength(us[..k])
  }

  lemma {:induction false} FrameLengthAppend(a: seq<NalUnit>, b: seq<NalUnit>)
    ensures FrameLength(a + b) == FrameLength(a) + FrameLength(b)
  {
    if a == [] {
      assert a + b == b;
    } else {
      assert (a + b)[1..] == a[1..] + b;
      FrameLengthAppend(a[1..], b);
    }
  }

  lemma ConvertedStart(d: seq<byte>, size: nat)
    requires Padded(d, size)
    ensures Converted(d, size, UnitsFrom(d, size, 0), 0, 0)
  {
  }

  lemma ConvertedUnit(d: seq<byte>, size: nat, us: seq<NalUnit>, k: nat, at: nat)
    requires Padded(d, size) && Converted(d, size, us, k, at)
    requires at + 4 <= size && 0 <= NalSize(d, at) <= size - (at + 4)
    ensures var n := NalSize(d, at);
            && k < |us|
            && us[k] == NalUnit(d[at + 4] % 32, d[at + 4..at + 4 + n])
            && Converted(d, size, us, k + 1, at + 4 + n)
  {
    hide NalSize, UnitsFrom, FrameLength;
    var n := NalSize(d, at);
    var u := NalUnit(d[at + 4] % 32, d[at + 4..at + 4 + n]);
    UnitsNext(d, size, at);
    assert us[k] == us[k..][0] == u && us[k + 1..] == us[k..][1..];
    assert us[..k + 1] == us[..k] + [u];
    FrameLengthAppend(us[..k], [u]);
    FrameLengthOne(u);
  }

  lemma ConvertedStops(d: seq<byte>, size: nat, us: seq<NalUnit>, k: nat, at: nat)
    requires Padded(d, size) && Converted(d, size, us, k, at)
    requires at + 4 > size || NalSize(d, at) < 0 || NalSize(d, at) > size - (at + 4)
    ensures k == |us| && (ExactlyFramed(d, size) <==> size > 0 && at == size)
  {
    assert us[k..] == [];
    assert us[..k] == us;
  }

  /** Exactly the first `k` units fit into the output. */
  ghost predicate Fit(us: seq<NalUnit>, sets: ParameterSets, limit: nat, k: nat) {
    && k <= |us|
    && forall i: nat :: 0 < i <= |us| ==> (i <= k <==> |OutputAfter(us, sets, i)| <= limit)
  }

  /** Which units fit is settled by the first that does not. */
  lemma FitUpTo(us: seq<NalUnit>, sets: ParameterSets, limit: nat, k: nat)
    requires k <= |us|
    requires k > 0 ==> |OutputAfter(us, sets, k)| <= limit
    requires k < |us| ==> |OutputAfter(us, sets, k + 1)| > limit
    ensures Fit(us, sets, limit, k)
  {
    hide Emit;
    forall i: nat | 0 < i <= |us|
      ensures i <= k <==> |OutputAfter(us, sets, i)| <= limit
    {
      if i <= k {
        EmitGrows(us, i, k, sets);
      } else {
        EmitGrows(us, k + 1, i, sets);
      }
    }
  }

  /** Appends one unit to the output, behind the parameter sets if it is an IDR unit. */
  method AppendUnitTo(out: Packet, unitType: int, data: array<byte>, from: nat, nalSize: nat,
                      extradata: array<byte>, extradataSize: nat)
    returns (ok: bool)
    requires out.Valid()
    requires from + nalSize <= data.Length
    requires Padded(extradata[..], extradataSize)
    requires unitType == IDR ==> Convertible(extradata[..], extradataSize, INPUT_PADDING)
    modifies out
    ensures out.Valid()
    ensures var u := NalUnit(unitType, data[from..from + nalSize]);
            var chunk := Chunk(u, old(out.size) == 0, SetsOf(extradata[..], extradataSize));
            && ok == (old(out.size) + |chunk| <= out.limit)
            && out.Contents() == if ok then old(out.Contents()) + chunk else old(out.Contents())
    ensures ok ==> fresh(out.data)
  {
    hide RecordOf, AnnexBOf, StartCode;
    if unitType == IDR {
      var _, spsPps, spsPpsSize := ExtradataToAnnexB(extradata, extradataSize, INPUT_PADDING);
      ok := out.AllocStartCodeAndCopy(spsPps, spsPpsSize, data, from, nalSize);
    } else {
      ok := out.AllocStartCodeAndCopy(null, 0, data, from, nalSize);
    }
  }

  /** Appends one unit and, when there was room for it, writes the whole output packet. */
  method EmitUnit(out: Packet, unitType: int, data: array<byte>, from: nat, nalSize: nat,
                  extradata: array<byte>, extradataSize: nat, sink: ByteSink)
    returns (ok: bool)
    requires out.Valid()
    requires from + nalSize <= data.Length
    requires Padded(extradata[..], extradataSize)
    requires unitType == IDR ==> Convertible(extradata[..], extradataSize, INPUT_PADDING)
    modifies out, sink
    ensures out.Valid()
    ensures var u := NalUnit(unitType, data[from..from + nalSize]);
            var chunk := Chunk(u, old(out.size) == 0, SetsOf(extradata[..], extradataSize));
            && ok == (old(out.size) + |chunk| <= out.limit)
            && (ok ==> out.Contents() == old(out.Contents()) + chunk)
            && sink.writes == if ok then old(sink.writes) + [out.Contents()] else old(sink.writes)
    ensures ok ==> fresh(out.data)
  {
    hide Chunk, SetsOf, Convertible, Padded;
    ok := AppendUnitTo(out, unitType, data, from, nalSize, extradata, extradataSize);
    if ok {
      assert out.data[..out.size] == out.Contents();
      sink.Write(out.data, out.size);
    }
  }

  /** How the conversion of a packet ends when `k` units have been written. */
  ghost predicate Ends(d: seq<byte>, size: nat, sets: ParameterSets, limit: nat, k: nat, status: Status)
    requires Padded(d, size)
  {
    var us := UnitsFrom(d, size, 0);
    && Fit(us, sets, limit, k)
    && status == if k < |us| then OutOfMemory else if ExactlyFramed(d, size) then Success else InvalidData
  }

  /** `after` is `before` and what the first `k` units make the converter write. */
  ghost predicate Wrote(before: seq<seq<byte>>, after: seq<seq<byte>>, us: seq<NalUnit>, sets: ParameterSets, k: nat) {
    k <= |us| && after == before + Trace(us, sets, k)
  }

  /** What a conversion leaves in the sink, and how it ends. */
  ghost predicate Converts(d: seq<byte>, size: nat, sets: ParameterSets, limit: nat,
                           before: seq<seq<byte>>, after: seq<seq<byte>>, status: Status)
    requires Padded(d, size)
  {
    var k := |after| - |before|;
    k >= 0 && Wrote(before, after, UnitsFrom(d, size, 0), sets, k) && Ends(d, size, sets, limit, k, status)
  }

  /** Some unit of the packet is taken for an IDR unit. */
  ghost predicate HasIdr(us: seq<NalUnit>) {
    exists i :: 0 <= i < |us| && us[i].kind == IDR
  }

  lemma IdrUnit(us: seq<NalUnit>, k: nat)
    requires k < |us|
    ensures us[k].kind == IDR ==> HasIdr(us)
  {
  }

  /**
   Converts the packet in the first `size` bytes of `data`, writing all of the output so far to
   `sink` after every unit.  Growing the output fails beyond `limit` bytes.
   */
  method ConvertPacket(data: array<byte>, size: nat, extradata: array<byte>, extradataSize: nat,
                       limit: nat, sink: ByteSink)
    returns (status: Status)
    requires Padded(data[..], size) && size <= INT_MAX
    requires Padded(extradata[..], extradataSize)
    requires HasIdr(UnitsFrom(data[..], size, 0)) ==> Convertible(extradata[..], extradataSize, INPUT_PADDING)
    modifies sink
    ensures Converts(data[..], size, SetsOf(extradata[..], extradataSize), limit,
                     old(sink.writes), sink.writes, status)
  {
    hide UnitsFrom, SetsOf, OutputAfter, NalSize, Convertible, Chunk, Converted, HasIdr, Wrote, Converts,
         Packet.Contents;
    ghost var d, us, sets := data[..], UnitsFrom(data[..], size, 0), SetsOf(extradata[..], extradataSize);
    ghost var k, before := 0, sink.writes;
    var out := new Packet(limit);
    var buf, cumulSize := 0, 0;
    ConvertedStart(d, size);
    EmitNothing(before, us, sets);
    while true
      invariant Converted(d, size, us, k, buf) && k <= |us| && cumulSize == buf
      invariant buf < size || buf == 0
      invariant data[..] == d
      invariant fresh(out) && out.Valid() && fresh(out.data) && out.limit == limit
      invariant out.Contents() == OutputAfter(us, sets, k)
      invariant k > 0 ==> 0 < |OutputAfter(us, sets, k)| <= limit
      invariant Wrote(before, sink.writes, us, sets, k)
      decreases size - buf
    {
      if buf + 4 > size {
        EndsInvalid(d, size, us, k, buf, sets, limit, before, sink.writes);
        return InvalidData;
      }
      var nalSize := ReadNalSize(data, buf);
      var unitType := data[buf + 4] % 32;
      if nalSize > size - (buf + 4) || nalSize < 0 {
        EndsInvalid(d, size, us, k, buf, sets, limit, before, sink.writes);
        return InvalidData;
      }
      ConvertedUnit(d, size, us, k, buf);
      IdrUnit(us, k);
      OutputNext(us, k, sets);
      WroteNext(before, sink.writes, us, sets, k);
      assert data[buf + 4..buf + 4 + nalSize] == d[buf + 4..buf + 4 + nalSize];
      var ok := EmitUnit(out, unitType, data, buf + 4, nalSize, extradata, extradataSize, sink);
      if !ok {
        EndsOutOfMemory(d, size, us, k, sets, limit, before, sink.writes);
        return OutOfMemory;
      }
      k := k + 1;
      buf := buf + 4 + nalSize;
      cumulSize := (cumulSize + nalSize + 4) % TWO_32;
      if cumulSize >= size {
        break;
      }
    }
    EndsWell(d, size, us, k, buf, sets, limit, before, sink.writes);
    status := Success;
  }

  lemma EndsInvalid(d: seq<byte>, size: nat, us: seq<NalUnit>, k: nat, at: nat, sets: ParameterSets, limit: nat,
                    before: seq<seq<byte>>, after: seq<seq<byte>>)
    requires Padded(d, size) && Converted(d, size, us, k, at) && (at < size || at == 0)
    requires at + 4 > size || NalSize(d, at) < 0 || NalSize(d, at) > size - (at + 4)
    requires Wrote(before, after, us, sets, k) && (k > 0 ==> |OutputAfter(us, sets, k)| <= limit)
    ensures Converts(d, size, sets, limit, before, after, InvalidData)
  {
    hide NalSize, OutputAfter, Trace;
    ConvertedStops(d, size, us, k, at);
    FitUpTo(us, sets, limit, k);
  }

  lemma EndsOutOfMemory(d: seq<byte>, size: nat, us: seq<NalUnit>, k: nat, sets: ParameterSets, limit: nat,
                        before: seq<seq<byte>>, after: seq<seq<byte>>)
    requires Padded(d, size) && us == UnitsFrom(d, size, 0) && Wrote(before, after, us, sets, k)
    requires k < |us| && (k > 0 ==> |OutputAfter(us, sets, k)| <= limit) && |OutputAfter(us, sets, k + 1)| > limit
    ensures Converts(d, size, sets, limit, before, after, OutOfMemory)
  {
    hide UnitsFrom, OutputAfter, Trace;
    FitUpTo(us, sets, limit, k);
  }

  lemma EndsWell(d: seq<byte>, size: nat, us: seq<NalUnit>, k: nat, at: nat, sets: ParameterSets, limit: nat,
                 before: seq<seq<byte>>, after: seq<seq<byte>>)
    requires Padded(d, size) && Converted(d, size, us, k, at) && at == size && k > 0
    requires Wrote(before, after, us, sets, k) && |OutputAfter(us, sets, k)| <= limit
    ensures Converts(d, size, sets, limit, before, after, Success)
  {
    hide OutputAfter, Trace;
    ConvertedStops(d, size, us, k, at);
    FitUpTo(us, sets, limit, k);
  }

  lemma EmitNothing(before: seq<seq<byte>>, us: seq<NalUnit>, sets: ParameterSets)
    ensures OutputAfter(us, sets, 0) == [] && Wrote(before, before, us, sets, 0)
  {
  }

  lemma OutputNext(us: seq<NalUnit>, k: nat, sets: ParameterSets)
    requires k < |us|
    ensures OutputAfter(us, sets, k + 1) == OutputAfter(us, sets, k) + Chunk(us[k], k == 0, sets)
    ensures OutputAfter(us, sets, k + 1) != []
  {
    hide Emit;
    EmitNext(us, k, sets);
  }

  lemma WroteNext(before: seq<seq<byte>>, after: seq<seq<byte>>, us: seq<NalUnit>, sets: ParameterSets, k: nat)
    requires k < |us| && Wrote(before, after, us, sets, k)
    ensures Wrote(before, after + [OutputAfter(us, sets, k + 1)], us, sets, k + 1)
  {
    hide OutputAfter;
  }

  // ----- the loop over all packets of the input

  datatype MediaPacket = MediaPacket(stream: int, data: array<byte>, size: nat)

  /** The packets of the video stream, in order. */
  function VideoOnly(packets: seq<MediaPacket>, video: int): (r: seq<MediaPacket>)
    ensures forall i :: 0 <= i < |r| ==> r[i] in packets && r[i].stream == video
    ensures forall p :: p in packets && p.stream == video ==> p in r
  {
    if packets == [] then [] else
    var last := packets[|packets| - 1];
    VideoOnly(packets[..|packets| - 1], video) + (if last.stream == video then [last] else [])
  }

  /** The buffers of the video stream's packets have room for the reads beyond their end. */
  ghost predicate VideoPadded(packets: seq<MediaPacket>, video: int)
    reads set p | p in packets :: p.data
  {
    forall i :: 0 <= i < |packets| && packets[i].stream == video ==> Padded(packets[i].data[..], packets[i].size)
  }

  /** The units of every packet of the video stream. */
  ghost function VideoUnits(packets: seq<MediaPacket>, video: int): (r: seq<seq<NalUnit>>)
    requires VideoPadded(packets, video)
    reads set p | p in packets :: p.data
  {
    if packets == [] then [] else
    var last := packets[|packets| - 1];
    VideoUnits(packets[..|packets| - 1], video)
      + (if last.stream == video then [UnitsFrom(last.data[..], last.size, 0)] else [])
  }

  lemma VideoUnitsNext(packets: seq<MediaPacket>, video: int, i: nat)
    requires i < |packets| && VideoPadded(packets, video)
    ensures VideoUnits(packets[..i + 1], video)
            == if packets[i].stream == video
               then VideoUnits(packets[..i], video) + [UnitsFrom(packets[i].data[..], packets[i].size, 0)]
               else VideoUnits(packets[..i], video)
  {
    hide UnitsFrom;
    assert packets[..i + 1][..i] == packets[..i];
  }

  /** All writes for a list of packets, each given by its units. */
  function Traces(uss: seq<seq<NalUnit>>, sets: ParameterSets): (t: seq<seq<byte>>) {
    if uss == [] then [] else
    var last := uss[|uss| - 1];
    Traces(uss[..|uss| - 1], sets) + Trace(last, sets, |last|)
  }

  lemma TracesNext(before: seq<seq<byte>>, uss: seq<seq<NalUnit>>, us: seq<NalUnit>, sets: ParameterSets)
    ensures before + Traces(uss + [us], sets) == before + Traces(uss, sets) + Trace(us, sets, |us|)
  {
    hide Trace;
    assert (uss + [us])[..|uss|] == uss;
  }

  /** The output for this packet stays within the limit, and the record it may need converts. */
  ghost predicate Extractable(p: MediaPacket, record: seq<byte>, recordSize: nat, limit: nat)
    requires Padded(record, recordSize)
    reads p.data
  {
    && Padded(p.data[..], p.size) && p.size <= INT_MAX
    && var us := UnitsFrom(p.data[..], p.size, 0);
    && (HasIdr(us) ==> Convertible(record, recordSize, INPUT_PADDING))
    && |OutputAfter(us, SetsOf(record, recordSize), |us|)| <= limit
  }

  /** One packet of the video stream; its status is not looked at. */
  method ExtractPacket(p: MediaPacket, extradata: array<byte>, extradataSize: nat, limit: nat, sink: ByteSink)
    requires Padded(extradata[..], extradataSize)
    requires Extractable(p, extradata[..], extradataSize, limit)
    modifies sink
    ensures var us := UnitsFrom(p.data[..], p.size, 0);
            sink.writes == old(sink.writes) + Trace(us, SetsOf(extradata[..], extradataSize), |us|)
  {
    hide UnitsFrom, HasIdr, SetsOf, OutputAfter, Convertible, Trace, Padded, Converts, ExactlyFramed, Extractable;
    ghost var sets := SetsOf(extradata[..], extradataSize);
    ExtractableNeeds(p, extradata[..], extradataSize, limit);
    var status := ConvertPacket(p.data, p.size, extradata, extradataSize, limit, sink);
    AllWritten(p.data[..], p.size, sets, limit, old(sink.writes), sink.writes, status);
  }

  /** Reads the input to its end and converts what belongs to the video stream. */
  method ExtractVideo(packets: seq<MediaPacket>, video: int, extradata: array<byte>, extradataSize: nat,
                      limit: nat, sink: ByteSink)
    requires Padded(extradata[..], extradataSize) && VideoPadded(packets, video)
    requires forall i :: 0 <= i < |packets| && packets[i].stream == video ==>
               Extractable(packets[i], extradata[..], extradataSize, limit)
    modifies sink
    ensures sink.writes
            == old(sink.writes) + Traces(VideoUnits(packets, video), SetsOf(extradata[..], extradataSize))
  {
    hide UnitsFrom, SetsOf, Trace, Padded, Extractable, VideoUnits, Traces, VideoPadded;
    ghost var sets, before := SetsOf(extradata[..], extradataSize), sink.writes;
    VideoPaddedUpTo(packets, video);
    NoUnits(packets[..0], video, sets);
    for i := 0 to |packets|
      invariant VideoPadded(packets[..i], video)
      invariant sink.writes == before + Traces(VideoUnits(packets[..i], video), sets)
    {
      VideoPaddedUpTo(packets, video);
      VideoUnitsNext(packets, video, i);
      if packets[i].stream == video {
        ExtractableNeeds(packets[i], extradata[..], extradataSize, limit);
        TracesNext(before, VideoUnits(packets[..i], video),
                   UnitsFrom(packets[i].data[..], packets[i].size, 0), sets);
        ExtractPacket(packets[i], extradata, extradataSize, limit, sink);
      }
    }
    assert packets[..|packets|] == packets;
  }

  lemma NoUnits(packets: seq<MediaPacket>, video: int, sets: ParameterSets)
    requires packets == []
    ensures VideoPadded(packets, video) && Traces(VideoUnits(packets, video), sets) == []
  {
  }

  lemma VideoPaddedUpTo(packets: seq<MediaPacket>, video: int)
    requires VideoPadded(packets, video)
    ensures forall i :: 0 <= i <= |packets| ==> VideoPadded(packets[..i], video)
  {
  }

  lemma ExtractableNeeds(p: MediaPacket, record: seq<byte>, recordSize: nat, limit: nat)
    requires Padded(record, recordSize) && Extractable(p, record, recordSize, limit)
    ensures Padded(p.data[..], p.size) && p.size <= INT_MAX
    ensures var us := UnitsFrom(p.data[..], p.size, 0);
            && (HasIdr(us) ==> Convertible(record, recordSize, INPUT_PADDING))
            && |OutputAfter(us, SetsOf(record, recordSize), |us|)| <= limit
  {
  }

  /** When growing succeeds, every unit is written. */
  lemma AllWritten(d: seq<byte>, size: nat, sets: ParameterSets, limit: nat,
                   before: seq<seq<byte>>, after: seq<seq<byte>>, status: Status)
    requires Padded(d, size) && Converts(d, size, sets, limit, before, after, status)
    requires var us := UnitsFrom(d, size, 0); |OutputAfter(us, sets, |us|)| <= limit
    ensures var us := UnitsFrom(d, size, 0); after == before + Trace(us, sets, |us|)
    ensures status == if ExactlyFramed(d, size) then Success else InvalidData
  {
    hide OutputAfter, Trace, UnitsFrom;
  }
}
