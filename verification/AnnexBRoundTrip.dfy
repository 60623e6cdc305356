/**
 What a decoder finds in the output of the converter.  A packet is the framing of a list of
 NAL units; the output decodes to those units, with the parameter sets before each IDR unit.
 */
module AnnexBRoundTrip {
  import opened Bytes
  import opened AnnexB
  import opened ParameterSets
  import opened Mp4ToAnnexB
  import opened Sequences

  // ----- packets as framed lists

  /** A NAL unit whose length is a non-negative 32-bit signed number. */
  type Nal = n: seq<byte> | |n| < TWO_31

  /** An MP4 video packet: every unit behind its 4-byte length. */
  function Frame(nals: seq<Nal>): (s: seq<byte>) {
    if nals == [] then [] else ToBigEndian32(|nals[0]|) + nals[0] + Frame(nals[1..])
  }

  lemma FrameBytes(nal: Nal)
    ensures var s := Frame([nal]);
            && |s| == 4 + |nal| && s[4..] == nal
            && s[0] as int * 0x100_0000 + s[1] as int * 0x1_0000 + s[2] as int * 0x100 + s[3] as int == |nal|
  {
    assert [nal][1..] == [];
    var n := ToBigEndian32(|nal|);
    assert Frame([nal]) == n + nal;
  }

  ghost predicate FramedAt(d: seq<byte>, size: nat, at: nat, nals: seq<Nal>) {
    at <= size <= |d| && d[at..size] == Frame(nals)
  }

  function Payloads(us: seq<NalUnit>): (nals: seq<seq<byte>>)
    ensures |nals| == |us|
  {
    seq(|us|, i requires 0 <= i < |us| => us[i].payload)
  }

  lemma {:induction false} BigEndian32Code(b0: byte, b1: byte, b2: byte, b3: byte, n: int)
    requires 0 <= n < TWO_31
    ensures Signed32(BigEndian32(b0, b1, b2, b3)) == n <==> ToBigEndian32(n) == [b0, b1, b2, b3]
  {
    var s := ToBigEndian32(n);
    assert BigEndian32(s[0], s[1], s[2], s[3]) == n;
    if BigEndian32(b0, b1, b2, b3) == n {
      BigEndian32Injective(b0, b1, b2, b3, s[0], s[1], s[2], s[3]);
    }
  }

  lemma BigEndian32Injective(a0: byte, a1: byte, a2: byte, a3: byte, b0: byte, b1: byte, b2: byte, b3: byte)
    requires BigEndian32(a0, a1, a2, a3) == BigEndian32(b0, b1, b2, b3)
    ensures a0 == b0 && a1 == b1 && a2 == b2 && a3 == b3
  {
  }

  lemma {:induction false} FramedCons(d: seq<byte>, size: nat, at: nat, nals: seq<Nal>)
    requires at <= size <= |d| && nals != []
    ensures FramedAt(d, size, at, nals)
            <==> && at + 4 + |nals[0]| <= size
                 && NalSize(d, at) == |nals[0]|
                 && nals[0] == d[at + 4..at + 4 + |nals[0]|]
                 && FramedAt(d, size, at + 4 + |nals[0]|, nals[1..])
  {
    hide BigEndian32, Signed32;
    var n, rest := nals[0], Frame(nals[1..]);
    var code := ToBigEndian32(|n|);
    assert Frame(nals) == code + n + rest;
    if at + 4 + |n| <= size {
      BigEndian32Code(d[at], d[at + 1], d[at + 2], d[at + 3], |n|);
      assert d[at..at + 4] == [d[at], d[at + 1], d[at + 2], d[at + 3]];
      if size == at + 4 + |n| + |rest| {
        JoinedParts(d, at, code, n, rest);
      }
    }
  }

  lemma HeadOfUnits(u: NalUnit, rest: seq<NalUnit>)
    ensures Payloads([u] + rest) == [u.payload] + Payloads(rest)
    ensures FrameLength([u] + rest) == 4 + |u.payload| + FrameLength(rest)
  {
    assert ([u] + rest)[1..] == rest;
  }

  lemma UnitsCons(d: seq<byte>, size: nat, at: nat)
    requires Padded(d, size) && at + 4 <= size && 0 <= NalSize(d, at) <= size - (at + 4)
    ensures var next := at + 4 + NalSize(d, at);
            var u := NalUnit(d[at + 4] % 32, d[at + 4..next]);
            var us := UnitsFrom(d, size, at);
            && us == [u] + UnitsFrom(d, size, next)
            && Payloads(us) == [u.payload] + Payloads(UnitsFrom(d, size, next))
            && FrameLength(us) == 4 + |u.payload| + FrameLength(UnitsFrom(d, size, next))
  {
    hide NalSize, UnitsFrom, FrameLength, Payloads;
    var next := at + 4 + NalSize(d, at);
    UnitsNext(d, size, at);
    HeadOfUnits(NalUnit(d[at + 4] % 32, d[at + 4..next]), UnitsFrom(d, size, next));
  }

  /** Reading a packet to its end gives the units it frames. */
  lemma {:induction false} FramedComplete(d: seq<byte>, size: nat, at: nat, nals: seq<Nal>)
    requires Padded(d, size) && FramedAt(d, size, at, nals)
    ensures Payloads(UnitsFrom(d, size, at)) == nals
    ensures at + FrameLength(UnitsFrom(d, size, at)) == size
    decreases |nals|, 1
  {
    if nals == [] {
      assert |d[at..size]| == 0;
    } else {
      FramedCompleteStep(d, size, at, nals);
    }
  }

  lemma FramedCompleteStep(d: seq<byte>, size: nat, at: nat, nals: seq<Nal>)
    requires Padded(d, size) && FramedAt(d, size, at, nals) && nals != [] && at <= size <= |d|
    ensures Payloads(UnitsFrom(d, size, at)) == nals
    ensures at + FrameLength(UnitsFrom(d, size, at)) == size
    decreases |nals|, 0
  {
    hide *;
    FramedCons(d, size, at, nals);
    FramedComplete(d, size, at + 4 + |nals[0]|, nals[1..]);
    UnitsCons(d, size, at);
    assert nals == [nals[0]] + nals[1..];
  }

  /** Units that use up a packet are what it frames. */
  lemma {:induction false} FramedSound(d: seq<byte>, size: nat, at: nat)
    requires Padded(d, size) && at + FrameLength(UnitsFrom(d, size, at)) == size
    ensures var nals := Payloads(UnitsFrom(d, size, at));
            (forall i :: 0 <= i < |nals| ==> |nals[i]| < TWO_31) && FramedAt(d, size, at, nals)
    decreases size - at, 1
  {
    if UnitsFrom(d, size, at) == [] {
      assert d[at..size] == [];
    } else {
      assert at + 4 <= size && 0 <= NalSize(d, at) <= size - (at + 4);
      UnitsCons(d, size, at);
      FramedSoundStep(d, size, at);
    }
  }

  lemma {:induction false} FramedSoundStep(d: seq<byte>, size: nat, at: nat)
    requires Padded(d, size) && at + 4 <= size && 0 <= NalSize(d, at) <= size - (at + 4)
    requires at + FrameLength(UnitsFrom(d, size, at)) == size
    ensures var nals := Payloads(UnitsFrom(d, size, at));
            (forall i :: 0 <= i < |nals| ==> |nals[i]| < TWO_31) && FramedAt(d, size, at, nals)
    decreases size - at, 0
  {
    hide UnitsFrom, FrameLength, Payloads, FramedAt, BigEndian32;
    UnitsCons(d, size, at);
    var next := at + 4 + NalSize(d, at);
    FramedSound(d, size, next);
    var nals := Payloads(UnitsFrom(d, size, at));
    assert nals[1..] == Payloads(UnitsFrom(d, size, next));
    FramedCons(d, size, at, nals);
  }

  /** The packet in the first `size` bytes of `d` frames exactly the units `nals`. */
  ghost predicate IsPacketOf(d: seq<byte>, size: nat, nals: seq<Nal>) {
    nals != [] && FramedAt(d, size, 0, nals)
  }

  /** The packets the converter accepts are the framings of non-empty lists of units. */
  lemma ExactlyFramedIff(d: seq<byte>, size: nat)
    requires Padded(d, size)
    ensures ExactlyFramed(d, size) <==> exists nals :: IsPacketOf(d, size, nals)
    ensures forall nals :: IsPacketOf(d, size, nals) ==> Payloads(UnitsFrom(d, size, 0)) == nals
  {
    forall nals | IsPacketOf(d, size, nals)
      ensures ExactlyFramed(d, size) && Payloads(UnitsFrom(d, size, 0)) == nals
    {
      FramedComplete(d, size, 0, nals);
      FramedCons(d, size, 0, nals);
    }
    if ExactlyFramed(d, size) {
      FramedSound(d, size, 0);
      var nals: seq<Nal> := Payloads(UnitsFrom(d, size, 0));
      assert IsPacketOf(d, size, nals);
    }
  }

  // ----- what the output decodes to

  predicate IsIdr(nal: seq<byte>) {
    nal != [] && nal[0] % 32 == IDR
  }

  /** An IDR unit is one of type 5, whatever the three bits before its type. */
  lemma IdrBytes(nal: seq<byte>)
    ensures IsIdr(nal) <==> nal != [] && nal[0] in {0x05, 0x25, 0x45, 0x65, 0x85, 0xa5, 0xc5, 0xe5}
  {
    if nal != [] {
      assert nal[0] == nal[0] / 32 * 32 + nal[0] % 32;
    }
  }

  /** The units with all SPS and then all PPS before each IDR unit. */
  function Expand(nals: seq<seq<byte>>, sets: ParameterSets): (r: seq<seq<byte>>) {
    if nals == [] then [] else
    (if IsIdr(nals[0]) then sets.sps + sets.pps else []) + [nals[0]] + Expand(nals[1..], sets)
  }

  ghost predicate NonEmpty(nals: seq<Nal>) {
    forall i :: 0 <= i < |nals| ==> nals[i] != []
  }

  /** The units of a packet whose units are not empty. */
  ghost function UnitsOf(nals: seq<Nal>): (us: seq<NalUnit>)
    requires NonEmpty(nals)
    ensures |us| == |nals|
  {
    seq(|nals|, i requires 0 <= i < |nals| => NalUnit(nals[i][0] % 32, nals[i]))
  }

  /** A unit that is not empty has the type in its own first byte. */
  lemma {:induction false} KindOf(d: seq<byte>, size: nat, at: nat, i: nat)
    requires Padded(d, size) && i < |UnitsFrom(d, size, at)|
    requires |UnitsFrom(d, size, at)[i].payload| > 0
    ensures UnitsFrom(d, size, at)[i].kind == UnitsFrom(d, size, at)[i].payload[0] % 32
    decreases i
  {
    UnitsCons(d, size, at);
    if i > 0 {
      var next := at + 4 + NalSize(d, at);
      assert UnitsFrom(d, size, at)[i] == UnitsFrom(d, size, next)[i - 1];
      KindOf(d, size, next, i - 1);
    }
  }

  /** What the converter reads from a packet of non-empty units. */
  lemma PacketUnits(d: seq<byte>, size: nat, nals: seq<Nal>)
    requires Padded(d, size) && IsPacketOf(d, size, nals)
    requires NonEmpty(nals)
    ensures UnitsFrom(d, size, 0) == UnitsOf(nals)
  {
    ExactlyFramedIff(d, size);
    var us := UnitsFrom(d, size, 0);
    forall i | 0 <= i < |us|
      ensures us[i] == UnitsOf(nals)[i]
    {
      assert Payloads(us)[i] == us[i].payload == nals[i];
      assert |us[i].payload| > 0;
      KindOf(d, size, 0, i);
      assert UnitsOf(nals)[i] == NalUnit(nals[i][0] % 32, nals[i]);
    }
  }

  lemma NalsAppend(a: seq<CodedNal>, b: seq<CodedNal>)
    ensures Nals(a + b) == Nals(a) + Nals(b)
  {
  }

  lemma NalsCoded(units: seq<seq<byte>>)
    ensures Nals(Coded(units)) == units
  {
  }

  lemma {:induction false} ExpandAppend(a: seq<seq<byte>>, b: seq<seq<byte>>, sets: ParameterSets)
    ensures Expand(a + b, sets) == Expand(a, sets) + Expand(b, sets)
  {
    if a == [] {
      assert a + b == b;
    } else {
      assert (a + b)[1..] == a[1..] + b;
      ExpandAppend(a[1..], b, sets);
    }
  }

  lemma ExpandOne(nal: seq<byte>, sets: ParameterSets)
    ensures Expand([nal], sets) == (if IsIdr(nal) then sets.sps + sets.pps else []) + [nal]
  {
    assert [nal][1..] == [];
  }

  /** The units the converter codes are the expanded units. */
  lemma {:induction false} CodedIsExpanded(nals: seq<Nal>, sets: ParameterSets)
    requires NonEmpty(nals)
    ensures Nals(CodedUnits(UnitsOf(nals), sets)) == Expand(nals, sets)
    decreases |nals|
  {
    if nals != [] {
      hide Nals, Coded, Expand;
      var k := |nals| - 1;
      var us, last := UnitsOf(nals), nals[k];
      assert nals == nals[..k] + [last];
      assert us[..k] == UnitsOf(nals[..k]);
      CodedIsExpanded(nals[..k], sets);
      ExpandAppend(nals[..k], [last], sets);
      ExpandOne(last, sets);
      NalsAppend(CodedUnits(us[..k], sets), CodedUnit(us[k], k == 0, sets));
      NalsOfCodedUnit(us[k], k == 0, sets);
    }
  }

  lemma NalsOfCodedUnit(u: NalUnit, first: bool, sets: ParameterSets)
    ensures Nals(CodedUnit(u, first, sets))
            == (if u.kind == IDR then sets.sps + sets.pps else []) + [u.payload]
  {
    NalsCoded(sets.sps + sets.pps);
  }

  /**
   Round trip of one packet, exactly: the packet's units, each IDR unit behind the parameter
   sets, are what a decoder finds in the final output, if and only if they are separable.
   */
  lemma {:induction false} PacketRoundTrip(d: seq<byte>, size: nat, nals: seq<Nal>, sets: ParameterSets)
    requires Padded(d, size) && IsPacketOf(d, size, nals)
    requires NonEmpty(nals)
    ensures var us := UnitsFrom(d, size, 0);
            Decode(OutputAfter(us, sets, |us|)) == Expand(nals, sets) <==> Separable(Expand(nals, sets))
  {
    hide *;
    PacketUnits(d, size, nals);
    CodedIsExpanded(nals, sets);
    WholeOutput(UnitsOf(nals), sets);
    DecodeStream(CodedUnits(UnitsOf(nals), sets));
  }

  lemma WholeOutput(us: seq<NalUnit>, sets: ParameterSets)
    ensures OutputAfter(us, sets, |us|) == Stream(CodedUnits(us, sets))
  {
    assert us[..|us|] == us;
  }

  /** Units and parameter sets all obey section 7.4.1 of H.264. */
  ghost predicate Standard(nals: seq<seq<byte>>, sets: ParameterSets) {
    && (forall i :: 0 <= i < |nals| ==> StandardNal(nals[i]))
    && (forall i :: 0 <= i < |sets.sps| ==> StandardNal(sets.sps[i]))
    && (forall i :: 0 <= i < |sets.pps| ==> StandardNal(sets.pps[i]))
  }

  lemma {:induction false} ExpandStandard(nals: seq<seq<byte>>, sets: ParameterSets)
    requires Standard(nals, sets)
    ensures Standard(Expand(nals, sets), sets)
  {
    if nals != [] {
      hide StandardNal;
      ExpandStandard(nals[1..], sets);
    }
  }

  /** For units and parameter sets that conform to the standard the round trip always holds. */
  lemma StandardPacketRoundTrip(d: seq<byte>, size: nat, nals: seq<Nal>, sets: ParameterSets)
    requires Padded(d, size) && IsPacketOf(d, size, nals) && Standard(nals, sets)
    ensures var us := UnitsFrom(d, size, 0);
            Decode(OutputAfter(us, sets, |us|)) == Expand(nals, sets)
  {
    assert forall i :: 0 <= i < |nals| ==> StandardNal(nals[i]);
    PacketRoundTrip(d, size, nals, sets);
    ExpandStandard(nals, sets);
    StandardNalsSeparable(Expand(nals, sets));
  }

  // ----- the file

  ghost function AllUnits(packets: seq<seq<Nal>>): (uss: seq<seq<NalUnit>>)
    requires forall p :: 0 <= p < |packets| ==> NonEmpty(packets[p])
    ensures |uss| == |packets|
  {
    seq(|packets|, p requires 0 <= p < |packets| => UnitsOf(packets[p]))
  }

  /** The file the converter leaves behind for a list of packets: all writes, one after the other. */
  ghost function FileOf(packets: seq<seq<Nal>>, sets: ParameterSets): (s: seq<byte>)
    requires forall p :: 0 <= p < |packets| ==> NonEmpty(packets[p])
  {
    Concat(Traces(AllUnits(packets), sets))
  }

  /** The packets frame these lists of units. */
  ghost predicate FramesOf(packets: seq<MediaPacket>, nalss: seq<seq<Nal>>)
    reads set p | p in packets :: p.data
  {
    && |packets| == |nalss|
    && forall i :: 0 <= i < |packets| ==>
         IsPacketOf(packets[i].data[..], packets[i].size, nalss[i]) && NonEmpty(nalss[i])
  }

  /**
   What `ExtractVideo` writes for an input whose video packets frame such lists, joined, is the file
   of these lists, whatever the packets of other streams hold.
   */
  lemma {:induction false} ExtractedFile(packets: seq<MediaPacket>, video: int, nalss: seq<seq<Nal>>,
                                         sets: ParameterSets)
    requires VideoPadded(packets, video) && FramesOf(VideoOnly(packets, video), nalss)
    ensures Concat(Traces(VideoUnits(packets, video), sets)) == FileOf(nalss, sets)
  {
    hide Traces, Concat;
    UnitsOfAll(packets, video, nalss);
  }

  lemma FramesLast(packets: seq<MediaPacket>, last: MediaPacket, nalss: seq<seq<Nal>>)
    requires FramesOf(packets + [last], nalss) && Padded(last.data[..], last.size)
    ensures nalss != []
    ensures var n := |nalss| - 1;
            FramesOf(packets, nalss[..n]) && NonEmpty(nalss[n])
            && UnitsFrom(last.data[..], last.size, 0) == UnitsOf(nalss[n])
  {
    hide Padded, IsPacketOf, NonEmpty, UnitsFrom, UnitsOf;
    var n := |nalss| - 1;
    assert (packets + [last])[n] == last;
    assert forall i :: 0 <= i < n ==> packets[i] == (packets + [last])[i];
    PacketUnits(last.data[..], last.size, nalss[n]);
  }

  lemma AllUnitsLast(nalss: seq<seq<Nal>>)
    requires nalss != [] && forall p :: 0 <= p < |nalss| ==> NonEmpty(nalss[p])
    ensures var n := |nalss| - 1; AllUnits(nalss) == AllUnits(nalss[..n]) + [UnitsOf(nalss[n])]
  {
    hide NonEmpty, UnitsOf;
  }

  lemma {:induction false} UnitsOfAll(packets: seq<MediaPacket>, video: int, nalss: seq<seq<Nal>>)
    requires VideoPadded(packets, video) && FramesOf(VideoOnly(packets, video), nalss)
    ensures VideoUnits(packets, video) == AllUnits(nalss)
    decreases |packets|
  {
    if packets != [] {
      hide Padded, IsPacketOf, NonEmpty, UnitsFrom, UnitsOf, AllUnits;
      var k := |packets| - 1;
      if packets[k].stream == video {
        FramesLast(VideoOnly(packets[..k], video), packets[k], nalss);
        UnitsOfAll(packets[..k], video, nalss[..|nalss| - 1]);
        AllUnitsLast(nalss);
      } else {
        UnitsOfAll(packets[..k], video, nalss);
      }
    }
  }

  lemma FileNext(packets: seq<seq<Nal>>, sets: ParameterSets)
    requires packets != [] && forall p :: 0 <= p < |packets| ==> NonEmpty(packets[p])
    ensures var p := |packets| - 1;
            FileOf(packets, sets) == FileOf(packets[..p], sets) + Concat(Trace(UnitsOf(packets[p]), sets, |packets[p]|))
  {
    hide Trace, NonEmpty, Concat, UnitsOf;
    var p := |packets| - 1;
    assert AllUnits(packets)[..p] == AllUnits(packets[..p]);
    ConcatAppend(Traces(AllUnits(packets[..p]), sets), Trace(UnitsOf(packets[p]), sets, |packets[p]|));
  }

  /** The units a player should get: those of each packet once. */
  function Wanted(packets: seq<seq<Nal>>, sets: ParameterSets): (r: seq<seq<byte>>) {
    if packets == [] then [] else
    var p := |packets| - 1;
    Wanted(packets[..p], sets) + Expand(packets[p], sets)
  }

  /** The units of the first `k` writes of a packet: the first unit, the first two, and so on. */
  function Repeated(nals: seq<Nal>, sets: ParameterSets, k: nat): (r: seq<seq<byte>>)
    requires k <= |nals|
  {
    if k == 0 then [] else Repeated(nals, sets, k - 1) + Expand(nals[..k], sets)
  }

  /** The units that really are in the file. */
  function Written(packets: seq<seq<Nal>>, sets: ParameterSets): (r: seq<seq<byte>>) {
    if packets == [] then [] else
    var p := |packets| - 1;
    Written(packets[..p], sets) + Repeated(packets[p], sets, |packets[p]|)
  }

  lemma {:induction false} TraceIsStream(nals: seq<Nal>, sets: ParameterSets, k: nat) returns (coded: seq<CodedNal>)
    requires NonEmpty(nals) && k <= |nals|
    ensures Concat(Trace(UnitsOf(nals), sets, k)) == Stream(coded)
    ensures Nals(coded) == Repeated(nals, sets, k)
    decreases k
  {
    hide Trace, Concat, Repeated, Emit, Stream, Nals, Expand, CodedUnits;
    var us := UnitsOf(nals);
    if k == 0 {
      coded := [];
      NothingTraced(nals, sets);
    } else {
      coded := TraceIsStream(nals, sets, k - 1);
      var write := CodedUnits(us[..k], sets);
      RepeatedNext(nals, sets, k);
      TraceGrows(us, sets, k);
      EmitIsStream(us[..k], sets);
      StreamAppend(coded, write);
      NalsAppend(coded, write);
      assert us[..k] == UnitsOf(nals[..k]);
      CodedIsExpanded(nals[..k], sets);
      coded := coded + write;
    }
  }

  lemma NothingTraced(nals: seq<Nal>, sets: ParameterSets)
    requires NonEmpty(nals)
    ensures Concat(Trace(UnitsOf(nals), sets, 0)) == Stream([]) && Nals([]) == Repeated(nals, sets, 0)
  {
  }

  lemma RepeatedNext(nals: seq<Nal>, sets: ParameterSets, k: nat)
    requires 0 < k <= |nals|
    ensures Repeated(nals, sets, k) == Repeated(nals, sets, k - 1) + Expand(nals[..k], sets)
  {
  }

  lemma TraceGrows(us: seq<NalUnit>, sets: ParameterSets, k: nat)
    requires 0 < k <= |us|
    ensures Concat(Trace(us, sets, k)) == Concat(Trace(us, sets, k - 1)) + Emit(us[..k], sets)
  {
    hide Emit, Concat;
    assert Trace(us, sets, k) == Trace(us, sets, k - 1) + [Emit(us[..k], sets)];
    ConcatLast(Trace(us, sets, k - 1), Emit(us[..k], sets));
  }

  lemma EmitIsStream(us: seq<NalUnit>, sets: ParameterSets)
    ensures Emit(us, sets) == Stream(CodedUnits(us, sets))
  {
  }

  lemma {:induction false} FileIsStream(packets: seq<seq<Nal>>, sets: ParameterSets) returns (coded: seq<CodedNal>)
    requires forall p :: 0 <= p < |packets| ==> NonEmpty(packets[p])
    ensures FileOf(packets, sets) == Stream(coded)
    ensures Nals(coded) == Written(packets, sets)
    decreases |packets|
  {
    if packets == [] {
      coded := [];
    } else {
      hide Trace, Concat, Stream, Nals, Repeated, UnitsOf, NonEmpty, FileOf;
      var p := |packets| - 1;
      coded := FileIsStream(packets[..p], sets);
      var more := TraceIsStream(packets[p], sets, |packets[p]|);
      FileNext(packets, sets);
      StreamAppend(coded, more);
      NalsAppend(coded, more);
      coded := coded + more;
    }
  }

  lemma {:induction false} RepeatedStandard(nals: seq<Nal>, sets: ParameterSets, k: nat)
    requires Standard(nals, sets) && k <= |nals|
    ensures Standard(Repeated(nals, sets, k), sets)
    decreases k
  {
    if k > 0 {
      hide StandardNal, Expand;
      RepeatedStandard(nals, sets, k - 1);
      ExpandStandard(nals[..k], sets);
    }
  }

  lemma {:induction false} WrittenStandard(packets: seq<seq<Nal>>, sets: ParameterSets)
    requires Standard([], sets) && forall p :: 0 <= p < |packets| ==> Standard(packets[p], sets)
    ensures Standard(Written(packets, sets), sets)
    decreases |packets|
  {
    if packets != [] {
      hide StandardNal, Repeated;
      var p := |packets| - 1;
      WrittenStandard(packets[..p], sets);
      RepeatedStandard(packets[p], sets, |packets[p]|);
    }
  }

  /** A packet leaves more units in the file than it has, unless it has just one. */
  lemma {:induction false} RepeatedLength(nals: seq<Nal>, sets: ParameterSets, k: nat)
    requires 0 < k <= |nals|
    ensures |Repeated(nals, sets, k)| >= |Expand(nals[..k], sets)| + k - 1
    ensures k == 1 ==> Repeated(nals, sets, k) == Expand(nals[..k], sets)
    decreases k
  {
    hide Expand;
    assert Repeated(nals, sets, k) == Repeated(nals, sets, k - 1) + Expand(nals[..k], sets);
    if k == 1 {
      assert Repeated(nals, sets, 0) == [];
    } else {
      RepeatedLength(nals, sets, k - 1);
      ExpandLength(nals[..k - 1], sets);
    }
  }

  lemma {:induction false} ExpandLength(nals: seq<seq<byte>>, sets: ParameterSets)
    ensures |Expand(nals, sets)| >= |nals|
  {
    if nals != [] {
      ExpandLength(nals[1..], sets);
    }
  }

  lemma {:induction false} RepeatedWhole(nals: seq<Nal>, sets: ParameterSets)
    requires nals != []
    ensures |Repeated(nals, sets, |nals|)| >= |Expand(nals, sets)|
    ensures Repeated(nals, sets, |nals|) == Expand(nals, sets)
            <==> |Repeated(nals, sets, |nals|)| == |Expand(nals, sets)|
    ensures Repeated(nals, sets, |nals|) == Expand(nals, sets) <==> |nals| == 1
  {
    hide Repeated, Expand;
    RepeatedLength(nals, sets, |nals|);
    assert nals[..|nals|] == nals;
  }

  /** Every packet has one unit. */
  ghost predicate SingleUnits(packets: seq<seq<Nal>>) {
    forall p :: 0 <= p < |packets| ==> |packets[p]| == 1
  }

  lemma SingleUnitsLast(packets: seq<seq<Nal>>)
    requires packets != []
    ensures var p := |packets| - 1;
            SingleUnits(packets) <==> SingleUnits(packets[..p]) && |packets[p]| == 1
  {
  }

  lemma {:induction false} WrittenLength(packets: seq<seq<Nal>>, sets: ParameterSets)
    requires forall p :: 0 <= p < |packets| ==> packets[p] != []
    ensures |Written(packets, sets)| >= |Wanted(packets, sets)|
    ensures Written(packets, sets) == Wanted(packets, sets)
            <==> |Written(packets, sets)| == |Wanted(packets, sets)|
    ensures Written(packets, sets) == Wanted(packets, sets) <==> SingleUnits(packets)
    decreases |packets|
  {
    if packets != [] {
      hide Repeated, Expand, SingleUnits;
      var p := |packets| - 1;
      SingleUnitsLast(packets);
      WrittenLength(packets[..p], sets);
      RepeatedWhole(packets[p], sets);
      SameAppended(Written(packets[..p], sets), Wanted(packets[..p], sets),
                   Repeated(packets[p], sets, |packets[p]|), Expand(packets[p], sets));
    }
  }

  lemma SameAppended<T>(a: seq<T>, b: seq<T>, x: seq<T>, y: seq<T>)
    requires |a| >= |b| && (a == b <==> |a| == |b|)
    requires |x| >= |y| && (x == y <==> |x| == |y|)
    ensures |a + x| >= |b + y|
    ensures a + x == b + y <==> |a + x| == |b + y|
    ensures a + x == b + y <==> a == b && x == y
  {
  }

  /**
   The file, exactly: it decodes to every write's units if and only if these are separable, and to
   the units of the packets if and only if each packet has a single unit and these are separable.
   A packet with more units has its earlier ones written again, because each write repeats all of
   the output so far.
   */
  lemma {:induction false} FileRoundTrip(packets: seq<seq<Nal>>, sets: ParameterSets)
    requires forall p :: 0 <= p < |packets| ==> packets[p] != [] && NonEmpty(packets[p])
    ensures Decode(FileOf(packets, sets)) == Written(packets, sets) <==> Separable(Written(packets, sets))
    ensures Decode(FileOf(packets, sets)) == Wanted(packets, sets)
            <==> SingleUnits(packets) && Separable(Wanted(packets, sets))
  {
    hide FileOf, Stream, Written, Wanted, Decode, Separable, NonEmpty, SingleUnits;
    var coded := FileIsStream(packets, sets);
    DecodeStream(coded);
    WrittenLength(packets, sets);
    DecodeAtLeast([], coded);
    assert [] + Stream(coded) == Stream(coded);
  }

  /** For units and parameter sets that conform to the standard everything is separable. */
  lemma {:induction false} StandardFileRoundTrip(packets: seq<seq<Nal>>, sets: ParameterSets)
    requires Standard([], sets)
    requires forall p :: 0 <= p < |packets| ==> packets[p] != [] && Standard(packets[p], sets)
    ensures forall p :: 0 <= p < |packets| ==> NonEmpty(packets[p])
    ensures Decode(FileOf(packets, sets)) == Written(packets, sets)
    ensures Decode(FileOf(packets, sets)) == Wanted(packets, sets) <==> SingleUnits(packets)
  {
    forall p, i | 0 <= p < |packets| && 0 <= i < |packets[p]|
      ensures packets[p][i] != []
    {
      assert StandardNal(packets[p][i]);
    }
    hide FileOf, Written, Wanted, StandardNal, Decode, Separable, SingleUnits;
    FileRoundTrip(packets, sets);
    WrittenStandard(packets, sets);
    StandardNalsSeparable(Written(packets, sets));
    WrittenLength(packets, sets);
  }

  lemma OnePacket(nals: seq<Nal>, sets: ParameterSets)
    ensures Written([nals], sets) == Repeated(nals, sets, |nals|) && Wanted([nals], sets) == Expand(nals, sets)
  {
    hide Repeated, Expand;
    var packets: seq<seq<Nal>> := [nals];
    assert packets[..0] == [];
  }

  lemma TwoUnits(a: Nal, b: Nal, sets: ParameterSets)
    requires !IsIdr(a) && !IsIdr(b)
    ensures Expand([a, b], sets) == [a, b] && Repeated([a, b], sets, 2) == [a, a, b]
  {
    var nals: seq<Nal> := [a, b];
    ExpandOne(a, sets);
    ExpandOne(b, sets);
    ExpandAppend([a], [b], sets);
    hide Expand;
    assert nals[..1] == [a] && nals[..2] == nals == [a] + [b];
    assert Repeated(nals, sets, 1) == [] + Expand(nals[..1], sets);
  }

  /** A packet of two units, the first of which is found in the file twice. */
  lemma FirstUnitTwice(a: Nal, b: Nal)
    requires a == [1] && b == [2]
    ensures var packets: seq<seq<Nal>>, sets := [[a, b]], ParameterSets([], []);
            && (forall p :: 0 <= p < |packets| ==> NonEmpty(packets[p]))
            && Wanted(packets, sets) == [a, b]
            && Decode(FileOf(packets, sets)) == [a, a, b]
  {
    var packets: seq<seq<Nal>>, sets := [[a, b]], ParameterSets([], []);
    assert StandardNal(a) && StandardNal(b);
    TwoUnits(a, b, sets);
    hide FileOf, Written, Wanted, StandardNal, Decode, Expand, Repeated;
    OnePacket([a, b], sets);
    StandardFileRoundTrip(packets, sets);
  }
}
