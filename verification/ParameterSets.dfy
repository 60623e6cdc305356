/**
 The `avcC` record (AVCDecoderConfigurationRecord of ISO/IEC 14496-15) and its conversion
 into start-code prefixed parameter sets, `h264_extradata_to_annexb`.
 */
module ParameterSets {
  import opened Arithmetic
  import opened Bytes
  import opened Results
  import opened AnnexB
  import opened Sequences

  /** `AV_INPUT_BUFFER_PADDING_SIZE`: readable bytes after the end of every input buffer. */
  const INPUT_PADDING := 64

  /** Most bytes a record can turn into: 31 SPS and 255 PPS of 65535 bytes, four more each. */
  const MAX_ANNEXB := 18744154

  /** A unit whose length fits the record's 16-bit field. */
  type Unit = u: seq<byte> | |u| < 0x1_0000

  datatype ParameterSets = ParameterSets(sps: seq<Unit>, pps: seq<Unit>)

  function Coded(nals: seq<seq<byte>>): (units: seq<CodedNal>)
    ensures |units| == |nals|
  {
    seq(|nals|, i requires 0 <= i < |nals| => CodedNal(true, nals[i]))
  }

  /** Every SPS, then every PPS, each behind 00 00 00 01. */
  function AnnexBOf(ps: ParameterSets): (s: seq<byte>) {
    Stream(Coded(ps.sps + ps.pps))
  }

  // ----- the record, read and written

  /** Units as the record stores them: a 16-bit length, then that many bytes. */
  function LengthPrefixed(units: seq<Unit>): (s: seq<byte>) {
    if units == [] then [] else ToBigEndian16(|units[0]|) + units[0] + LengthPrefixed(units[1..])
  }

  ghost predicate Padded(d: seq<byte>, size: nat) {
    size + INPUT_PADDING <= |d|
  }

  ghost predicate Within(size: nat, at: nat) {
    at <= size + 1 || at <= 7
  }

  /** Units read, and the position behind them. */
  datatype Units = Units(units: seq<Unit>, end: nat)

  /** Reads `n` units from `at`; `None` when one leaves the first `size` bytes. */
  function ReadUnits(d: seq<byte>, size: nat, at: nat, n: nat): (r: Option<Units>)
    requires Padded(d, size) && Within(size, at)
    ensures r.Some? ==> |r.value.units| == n && (r.value.end <= size || r.value.end == at)
    decreases n
  {
    if n == 0 then Some(Units([], at)) else
    var len := BigEndian16(d[at], d[at + 1]);
    if at + 2 + len > size then None else
    var rest := ReadUnits(d, size, at + 2 + len, n - 1);
    if rest.None? then None
    else Some(Units([d[at + 2..at + 2 + len]] + rest.value.units, rest.value.end))
  }

  /** The parameter sets of the record in the first `size` bytes of `d`. */
  function RecordOf(d: seq<byte>, size: nat): (r: Option<ParameterSets>)
    requires Padded(d, size)
  {
    var sps := ReadUnits(d, size, 6, d[5] % 32);
    if sps.None? then None else
    var at := sps.value.end;
    var pps := ReadUnits(d, size, at + 1, d[at]);
    if pps.None? then None else Some(ParameterSets(sps.value.units, pps.value.units))
  }

  /** `units` are stored at `at`, and the last of them ends inside the first `size` bytes. */
  ghost predicate StoredAt(d: seq<byte>, size: nat, at: nat, units: seq<Unit>) {
    var stored := LengthPrefixed(units);
    units == [] || (at + |stored| <= size <= |d| && d[at..at + |stored|] == stored)
  }

  /** `d` is a record of exactly the parameter sets `ps`, none of which leaves its first `size` bytes. */
  ghost predicate IsRecord(d: seq<byte>, size: nat, ps: ParameterSets)
    requires Padded(d, size)
  {
    && |ps.sps| == d[5] % 32
    && StoredAt(d, size, 6, ps.sps)
    && var at := 6 + |LengthPrefixed(ps.sps)|;
    && |ps.pps| == d[at]
    && StoredAt(d, size, at + 1, ps.pps)
  }

  lemma BigEndian16Code(b0: byte, b1: byte)
    ensures ToBigEndian16(BigEndian16(b0, b1)) == [b0, b1]
  {
  }

  lemma JoinedParts<T>(d: seq<T>, at: nat, x: seq<T>, y: seq<T>, z: seq<T>)
    requires at + |x| + |y| + |z| <= |d|
    ensures d[at..at + |x| + |y| + |z|] == x + y + z
            <==> && d[at..at + |x|] == x
                 && d[at + |x|..at + |x| + |y|] == y
                 && d[at + |x| + |y|..at + |x| + |y| + |z|] == z
  {
    var w := x + y + z;
    var e := d[at..at + |x| + |y| + |z|];
    SplitAt(d, at, at + |x|, at + |x| + |y|, at + |x| + |y| + |z|);
    if e == w {
      assert d[at..at + |x|] == e[..|x|] == x;
      assert d[at + |x|..at + |x| + |y|] == e[|x|..|x| + |y|] == y;
      assert d[at + |x| + |y|..at + |x| + |y| + |z|] == e[|x| + |y|..] == z;
    }
  }

  lemma LengthPrefixedCons(units: seq<Unit>)
    requires units != []
    ensures LengthPrefixed(units) == ToBigEndian16(|units[0]|) + units[0] + LengthPrefixed(units[1..])
  {
  }

  lemma NothingPrefixed(units: seq<Unit>)
    ensures units == [] ==> LengthPrefixed(units) == []
  {
  }

  /** A stored unit in front of stored units, and the other way round. */
  lemma StoredCons(d: seq<byte>, size: nat, at: nat, units: seq<Unit>)
    requires Padded(d, size) && Within(size, at)
    requires units != []
    ensures StoredAt(d, size, at, units)
            <==> && at + 2 + |units[0]| <= size
                 && |units[0]| == BigEndian16(d[at], d[at + 1])
                 && units[0] == d[at + 2..at + 2 + |units[0]|]
                 && StoredAt(d, size, at + 2 + |units[0]|, units[1..])
  {
    hide LengthPrefixed, BigEndian16, ToBigEndian16;
    var u, rest := units[0], LengthPrefixed(units[1..]);
    LengthPrefixedCons(units);
    NothingPrefixed(units[1..]);
    BigEndian16Code(d[at], d[at + 1]);
    assert d[at..at + 2] == [d[at], d[at + 1]];
    if at + 2 + |u| + |rest| <= size {
      JoinedParts(d, at, ToBigEndian16(|u|), u, rest);
    }
  }

  lemma ReadStep(d: seq<byte>, size: nat, at: nat, n: nat)
    requires Padded(d, size) && Within(size, at) && n > 0
    ensures var len := BigEndian16(d[at], d[at + 1]);
            ReadUnits(d, size, at, n) ==
            if at + 2 + len > size then None else
            var rest := ReadUnits(d, size, at + 2 + len, n - 1);
            if rest.None? then None
            else Some(Units([d[at + 2..at + 2 + len]] + rest.value.units, rest.value.end))
  {
  }

  lemma ReadConsForward(d: seq<byte>, size: nat, at: nat, n: nat)
    requires Padded(d, size) && Within(size, at) && n > 0
    requires ReadUnits(d, size, at, n).Some?
    ensures var Units(units, end) := ReadUnits(d, size, at, n).value;
                 && at + 2 + |units[0]| <= size
                 && |units[0]| == BigEndian16(d[at], d[at + 1])
                 && units[0] == d[at + 2..at + 2 + |units[0]|]
                 && ReadUnits(d, size, at + 2 + |units[0]|, n - 1) == Some(Units(units[1..], end))
  {
    ReadStep(d, size, at, n);
    var len := BigEndian16(d[at], d[at + 1]);
    var rest := ReadUnits(d, size, at + 2 + len, n - 1);
    var Units(units, end) := ReadUnits(d, size, at, n).value;
    assert units[1..] == rest.value.units;
  }

  lemma ReadConsBackward(d: seq<byte>, size: nat, at: nat, units: seq<Unit>, end: nat)
    requires Padded(d, size) && Within(size, at) && units != []
    requires at + 2 + |units[0]| <= size
    requires |units[0]| == BigEndian16(d[at], d[at + 1])
    requires units[0] == d[at + 2..at + 2 + |units[0]|]
    requires ReadUnits(d, size, at + 2 + |units[0]|, |units| - 1) == Some(Units(units[1..], end))
    ensures ReadUnits(d, size, at, |units|) == Some(Units(units, end))
  {
    ReadStep(d, size, at, |units|);
    assert units == [units[0]] + units[1..];
  }

  lemma NothingStored(d: seq<byte>, size: nat, at: nat, units: seq<Unit>)
    requires Padded(d, size) && Within(size, at) && units == []
    ensures StoredAt(d, size, at, units) && LengthPrefixed(units) == []
    ensures ReadUnits(d, size, at, 0) == Some(Units(units, at))
  {
  }

  /** What reading returns is stored there. */
  lemma {:induction false} ReadUnitsSound(d: seq<byte>, size: nat, at: nat, n: nat)
    requires Padded(d, size) && Within(size, at)
    requires ReadUnits(d, size, at, n).Some?
    ensures var Units(units, end) := ReadUnits(d, size, at, n).value;
            StoredAt(d, size, at, units) && end == at + |LengthPrefixed(units)|
    decreases n
  {
    hide ReadUnits, LengthPrefixed, StoredAt, BigEndian16;
    if n == 0 {
      NothingStored(d, size, at, []);
    } else {
      var Units(units, end) := ReadUnits(d, size, at, n).value;
      ReadConsForward(d, size, at, n);
      ReadUnitsSound(d, size, at + 2 + |units[0]|, n - 1);
      StoredCons(d, size, at, units);
      LengthPrefixedCons(units);
    }
  }

  /** What is stored there is what reading returns. */
  lemma {:induction false} ReadUnitsComplete(d: seq<byte>, size: nat, at: nat, units: seq<Unit>, end: nat)
    requires Padded(d, size) && Within(size, at)
    requires StoredAt(d, size, at, units) && end == at + |LengthPrefixed(units)|
    ensures ReadUnits(d, size, at, |units|) == Some(Units(units, end))
    decreases |units|
  {
    hide ReadUnits, LengthPrefixed, StoredAt, BigEndian16;
    if units == [] {
      NothingStored(d, size, at, units);
    } else {
      StoredCons(d, size, at, units);
      LengthPrefixedCons(units);
      ReadUnitsComplete(d, size, at + 2 + |units[0]|, units[1..], end);
      ReadConsBackward(d, size, at, units, end);
    }
  }

  lemma RecordSound(d: seq<byte>, size: nat, ps: ParameterSets)
    requires Padded(d, size) && RecordOf(d, size) == Some(ps)
    ensures IsRecord(d, size, ps)
  {
    var n := d[5] % 32;
    ReadUnitsSound(d, size, 6, n);
    var at := ReadUnits(d, size, 6, n).value.end;
    ReadUnitsSound(d, size, at + 1, d[at]);
  }

  lemma RecordComplete(d: seq<byte>, size: nat, ps: ParameterSets)
    requires Padded(d, size) && IsRecord(d, size, ps)
    ensures RecordOf(d, size) == Some(ps)
  {
    var at := 6 + |LengthPrefixed(ps.sps)|;
    ReadUnitsComplete(d, size, 6, ps.sps, at);
    ReadUnitsComplete(d, size, at + 1, ps.pps, at + 1 + |LengthPrefixed(ps.pps)|);
  }

  /** Reading a record, and being one of exactly those parameter sets, are the same thing. */
  lemma RecordOfIffIsRecord(d: seq<byte>, size: nat, ps: ParameterSets)
    requires Padded(d, size)
    ensures RecordOf(d, size) == Some(ps) <==> IsRecord(d, size, ps)
  {
    if RecordOf(d, size) == Some(ps) {
      RecordSound(d, size, ps);
    }
    if IsRecord(d, size, ps) {
      RecordComplete(d, size, ps);
    }
  }

  /**
   A record written out: five bytes the parser skips, the number of SPS in five bits, the SPS, the
   number of PPS in a byte, the PPS.  Whatever follows it, exactly its parameter sets are read back.
   */
  lemma WrittenRecord(head: seq<byte>, reserved: nat, ps: ParameterSets, rest: seq<byte>)
    requires |head| == 5 && reserved < 8 && |ps.sps| < 32 && |ps.pps| < 256 && |rest| >= INPUT_PADDING
    ensures var record := head + [reserved * 32 + |ps.sps|] + LengthPrefixed(ps.sps)
                          + [|ps.pps|] + LengthPrefixed(ps.pps);
            RecordOf(record + rest, |record|) == Some(ps)
  {
    hide LengthPrefixed, RecordOf;
    var a, b := LengthPrefixed(ps.sps), LengthPrefixed(ps.pps);
    var record := head + [reserved * 32 + |ps.sps|] + a + [|ps.pps|] + b;
    var d := record + rest;
    assert d[5] == reserved * 32 + |ps.sps|;
    DivModUnique(reserved * 32 + |ps.sps|, reserved, |ps.sps|, 32);
    var at := 6 + |a|;
    assert d[6..at] == a && d[at] == |ps.pps| && d[at + 1..at + 1 + |b|] == b;
    RecordOfIffIsRecord(d, |record|, ps);
  }

  /** The units of a record in the byte stream, one SPS and one PPS for example. */
  lemma AnnexBBytes(sps: Unit, pps: Unit)
    ensures AnnexBOf(ParameterSets([sps], [pps])) == [0, 0, 0, 1] + sps + [0, 0, 0, 1] + pps
    ensures LengthPrefixed([sps]) == ToBigEndian16(|sps|) + sps
  {
    CodedSnoc([sps], pps);
    CodedSnoc([], sps);
    assert Coded([]) == [];
    assert [] + [sps] == [sps] && [sps][1..] == [];
  }

  // ----- the size of the converted parameter sets

  function ConvertedLength(nals: seq<seq<byte>>): (n: nat) {
    if nals == [] then 0 else 4 + |nals[0]| + ConvertedLength(nals[1..])
  }

  lemma {:induction false} ConvertedLengthAppend(a: seq<seq<byte>>, b: seq<seq<byte>>)
    ensures ConvertedLength(a + b) == ConvertedLength(a) + ConvertedLength(b)
  {
    if a == [] {
      assert a + b == b;
    } else {
      assert (a + b)[1..] == a[1..] + b;
      ConvertedLengthAppend(a[1..], b);
    }
  }

  lemma {:induction false} StreamLength(nals: seq<seq<byte>>)
    ensures |Stream(Coded(nals))| == ConvertedLength(nals)
  {
    if nals != [] {
      assert Coded(nals)[1..] == Coded(nals[1..]);
      StreamLength(nals[1..]);
    }
  }

  lemma {:induction false} ConvertedLengthBound(units: seq<Unit>)
    ensures ConvertedLength(units) <= |units| * 65539
  {
    if units != [] {
      ConvertedLengthBound(units[1..]);
    }
  }

  /** The record is well formed, and its converted size passes the guard against `INT_MAX - padding`. */
  ghost predicate Convertible(d: seq<byte>, size: nat, padding: nat)
    requires Padded(d, size)
  {
    RecordOf(d, size).Some? && |AnnexBOf(RecordOf(d, size).value)| <= INT_MAX - padding
  }

  /** No record converts to more than `MAX_ANNEXB` bytes, so with this padding the guard never fires. */
  lemma GuardNeverFires(d: seq<byte>, size: nat, padding: nat)
    requires Padded(d, size) && padding <= 0x7fff_ffff - 18744154
    ensures Convertible(d, size, padding) <==> exists ps :: IsRecord(d, size, ps)
  {
    if RecordOf(d, size).Some? {
      var ps := RecordOf(d, size).value;
      RecordSound(d, size, ps);
      ConvertedLengthBound(ps.sps + ps.pps);
      StreamLength(ps.sps + ps.pps);
    }
    if ps :| IsRecord(d, size, ps) {
      RecordComplete(d, size, ps);
    }
  }

  // ----- what the loop has read, and what it has still to read

  ghost function Prepend(done: seq<Unit>, r: Option<Units>): (p: Option<Units>) {
    if r.None? then None else Some(Units(done + r.value.units, r.value.end))
  }

  /** `sps` and `pps` have been read; `left` more units of the current kind are stored at `at`. */
  ghost predicate Progress(d: seq<byte>, size: nat, inPps: bool, at: nat, left: nat, sps: seq<Unit>, pps: seq<Unit>)
    requires Padded(d, size)
  {
    && Within(size, at)
    && var all := ReadUnits(d, size, 6, d[5] % 32);
    if inPps then
      && all.Some? && all.value.units == sps
      && var e := all.value.end;
      ReadUnits(d, size, e + 1, d[e]) == Prepend(pps, ReadUnits(d, size, at, left))
    else
      pps == [] && all == Prepend(sps, ReadUnits(d, size, at, left))
  }

  lemma ProgressStart(d: seq<byte>, size: nat)
    requires Padded(d, size)
    ensures Progress(d, size, false, 6, d[5] % 32, [], [])
  {
    var r := ReadUnits(d, size, 6, d[5] % 32);
    if r.Some? {
      assert [] + r.value.units == r.value.units;
    }
  }

  lemma PrependStep(d: seq<byte>, size: nat, at: nat, left: nat, done: seq<Unit>)
    requires Padded(d, size) && Within(size, at) && left > 0
    requires at + 2 + BigEndian16(d[at], d[at + 1]) <= size
    ensures var len := BigEndian16(d[at], d[at + 1]);
            Prepend(done, ReadUnits(d, size, at, left))
            == Prepend(done + [d[at + 2..at + 2 + len]], ReadUnits(d, size, at + 2 + len, left - 1))
  {
    ReadStep(d, size, at, left);
    var len := BigEndian16(d[at], d[at + 1]);
    var u := d[at + 2..at + 2 + len];
    var r := ReadUnits(d, size, at + 2 + len, left - 1);
    if r.Some? {
      assert done + ([u] + r.value.units) == (done + [u]) + r.value.units;
    }
  }

  lemma ProgressUnit(d: seq<byte>, size: nat, inPps: bool, at: nat, left: nat, sps: seq<Unit>, pps: seq<Unit>)
    requires Padded(d, size) && Progress(d, size, inPps, at, left, sps, pps) && left > 0
    requires at + 2 + BigEndian16(d[at], d[at + 1]) <= size
    ensures var len := BigEndian16(d[at], d[at + 1]);
            var u := d[at + 2..at + 2 + len];
            if inPps then Progress(d, size, true, at + 2 + len, left - 1, sps, pps + [u])
            else Progress(d, size, false, at + 2 + len, left - 1, sps + [u], pps)
  {
    PrependStep(d, size, at, left, if inPps then pps else sps);
  }

  lemma ProgressToPps(d: seq<byte>, size: nat, at: nat, sps: seq<Unit>)
    requires Padded(d, size) && Progress(d, size, false, at, 0, sps, [])
    ensures Within(size, at + 1) && Progress(d, size, true, at + 1, d[at], sps, [])
  {
    assert sps + [] == sps;
    var r := ReadUnits(d, size, at + 1, d[at]);
    if r.Some? {
      assert [] + r.value.units == r.value.units;
    }
  }

  lemma ProgressDone(d: seq<byte>, size: nat, at: nat, sps: seq<Unit>, pps: seq<Unit>)
    requires Padded(d, size) && Progress(d, size, true, at, 0, sps, pps)
    ensures RecordOf(d, size) == Some(ParameterSets(sps, pps))
    ensures |Stream(Coded(sps + pps))| == ConvertedLength(sps + pps)
  {
    assert pps + [] == pps;
    StreamLength(sps + pps);
  }

  lemma ProgressOutside(d: seq<byte>, size: nat, padding: nat, inPps: bool, at: nat, left: nat,
                        sps: seq<Unit>, pps: seq<Unit>)
    requires Padded(d, size) && Progress(d, size, inPps, at, left, sps, pps) && left > 0
    requires at + 2 + BigEndian16(d[at], d[at + 1]) > size
    ensures !Convertible(d, size, padding)
  {
  }

  /** A record that goes on with a unit converts to at least what is done and that unit. */
  lemma ProgressTooBig(d: seq<byte>, size: nat, padding: nat, inPps: bool, at: nat, left: nat,
                       sps: seq<Unit>, pps: seq<Unit>)
    requires Padded(d, size) && Progress(d, size, inPps, at, left, sps, pps) && left > 0
    requires ConvertedLength(sps + pps) + 4 + BigEndian16(d[at], d[at + 1]) > INT_MAX - padding
    ensures !Convertible(d, size, padding)
  {
    if RecordOf(d, size).Some? {
      var ps := RecordOf(d, size).value;
      StreamLength(ps.sps + ps.pps);
      ConvertedLengthAppend(ps.sps, ps.pps);
      ConvertedLengthAppend(sps, pps);
      var more := ReadUnits(d, size, at, left);
      if more.Some? {
        ReadConsForward(d, size, at, left);
        ConvertedLengthAppend(if inPps then pps else sps, more.value.units);
      }
    }
  }

  // ----- h264_extradata_to_annexb

  /** `av_reallocp`, when it succeeds. */
  method Reallocate(buffer: array?<byte>, n: nat) returns (grown: array<byte>)
    ensures fresh(grown) && grown.Length == n
    ensures buffer != null ==>
              var kept := if buffer.Length <= n then buffer.Length else n;
              grown[..kept] == buffer[..kept]
  {
    grown := new byte[n];
    if buffer != null {
      forall i | 0 <= i < buffer.Length && i < n {
        grown[i] := buffer[i];
      }
    }
  }

  lemma CodedSnoc(done: seq<seq<byte>>, u: seq<byte>)
    ensures Stream(Coded(done + [u])) == Stream(Coded(done)) + [0, 0, 0, 1] + u
    ensures ConvertedLength(done + [u]) == ConvertedLength(done) + 4 + |u|
  {
    assert Coded(done + [u]) == Coded(done) + [CodedNal(true, u)];
    StreamAppend(Coded(done), [CodedNal(true, u)]);
    assert Stream([CodedNal(true, u)]) == [0, 0, 0, 1] + u;
    ConvertedLengthAppend(done, [u]);
  }

  /** `out` holds the converted units `done` and room for the padding; no buffer when there are none. */
  ghost predicate Holds(out: array?<byte>, totalSize: nat, padding: nat, done: seq<seq<byte>>)
    reads out
  {
    && totalSize == ConvertedLength(done)
    && (out == null ==> totalSize == 0 && Stream(Coded(done)) == [])
    && (out != null ==> out.Length == totalSize + padding && out[..totalSize] == Stream(Coded(done)))
  }

  lemma HoldsNothing(out: array?<byte>, padding: nat)
    requires out == null
    ensures Holds(out, 0, padding, [])
  {
  }

  /** One more parameter set at the end of `out`: a start code and the unit, in a larger buffer. */
  method AppendUnit(out: array?<byte>, oldSize: nat, padding: nat, extradata: array<byte>, at: nat, unitSize: nat,
                    ghost done: seq<seq<byte>>)
    returns (grown: array<byte>)
    requires at + 2 + unitSize <= extradata.Length
    requires Holds(out, oldSize, padding, done)
    ensures fresh(grown)
    ensures Holds(grown, oldSize + unitSize + 4, padding, done + [extradata[at + 2..at + 2 + unitSize]])
  {
    hide Stream, Coded, ConvertedLength, StartCode, Overwritten;
    var totalSize := oldSize + unitSize + 4;
    ghost var code, u := StartCode(true), extradata[at + 2..at + 2 + unitSize];
    FourBytes();
    grown := Reallocate(out, totalSize + padding);
    ghost var g := grown[..];
    assert g[..oldSize] == Stream(Coded(done)) by {
      if out != null {
        assert g[..oldSize] == grown[..out.Length][..oldSize] == out[..out.Length][..oldSize] == out[..oldSize];
      }
    }
    StoreStartCode(grown, totalSize - unitSize - 4, true);
    CopyBytes(grown, totalSize - unitSize, extradata, at + 2, unitSize);
    Appended(g, oldSize, code, u);
    assert grown[..totalSize] == grown[..][..totalSize];
    CodedSnoc(done, u);
  }

  lemma FourBytes()
    ensures StartCode(true) == [0, 0, 0, 1]
  {
  }

  lemma Appended(g: seq<byte>, oldSize: nat, code: seq<byte>, u: seq<byte>)
    requires oldSize + |code| + |u| <= |g|
    ensures var at := oldSize + |code|;
            Overwritten(Overwritten(g, oldSize, code), at, u)[..at + |u|] == g[..oldSize] + code + u
  {
  }

  /** Writes a start code in place. */
  method StoreStartCode(buffer: array<byte>, at: nat, zeroByte: bool)
    requires at + |StartCode(zeroByte)| <= buffer.Length
    modifies buffer
    ensures buffer[..] == Overwritten(old(buffer[..]), at, StartCode(zeroByte))
  {
    if zeroByte {
      buffer[at], buffer[at + 1], buffer[at + 2], buffer[at + 3] := 0, 0, 0, 1;
    } else {
      buffer[at], buffer[at + 1], buffer[at + 2] := 0, 0, 1;
    }
  }

  /** `memset(out + totalSize, 0, padding)`. */
  method ClearPadding(out: array<byte>, totalSize: nat)
    requires totalSize <= out.Length
    modifies out
    ensures out[..totalSize] == old(out[..totalSize])
    ensures forall i :: totalSize <= i < out.Length ==> out[i] == 0
  {
    forall i | totalSize <= i < out.Length {
      out[i] := 0;
    }
  }

  /**
   Converts the record in the first `size` bytes of `extradata`.  The loop is entered at the
   label `pps` when there is no SPS; the two counters are small enough for 8 bits.
   */
  method ExtradataToAnnexB(extradata: array<byte>, size: nat, padding: nat)
    returns (status: Status, out: array?<byte>, totalSize: nat)
    requires size + INPUT_PADDING <= extradata.Length
    requires padding <= INT_MAX
    ensures status == if Convertible(extradata[..], size, padding) then Success else InvalidData
    ensures status == Success
            <==> && RecordOf(extradata[..], size).Some?
                 && |AnnexBOf(RecordOf(extradata[..], size).value)| + padding <= 0x7fff_ffff
    ensures status == Success ==>
              && var annexB := AnnexBOf(RecordOf(extradata[..], size).value);
              && totalSize == |annexB|
              && (out == null ==> annexB == [])
              && (out != null ==> && out.Length == totalSize + padding
                                  && out[..totalSize] == annexB
                                  && forall i :: totalSize <= i < out.Length ==> out[i] == 0)
    ensures out != null ==> fresh(out)
  {
    hide ReadUnits, Stream, Coded, ConvertedLength, BigEndian16;
    ghost var d := extradata[..];
    ghost var sps: seq<Unit>, pps: seq<Unit> := [], [];
    out, totalSize := null, 0;
    HoldsNothing(out, padding);
    assert sps + pps == [];
    var at: nat := 5;
    var unitNb: nat := extradata[at] % 32;
    at := at + 1;
    var spsDone := 0;
    var gotoPps := unitNb == 0;
    ProgressStart(d, size);
    while true
      invariant unitNb < 256 && 0 <= spsDone <= 2
      invariant spsDone == 0 ==> unitNb > 0 || gotoPps
      invariant gotoPps ==> spsDone == 0 && unitNb == 0
      invariant spsDone == 2 ==> unitNb == 0
      invariant Progress(d, size, spsDone > 0, at, unitNb, sps, pps)
      invariant Holds(out, totalSize, padding, sps + pps) && totalSize <= INT_MAX - padding
      invariant out != null ==> fresh(out)
      decreases if spsDone == 0 then 1 else 0, unitNb
    {
      if !gotoPps {
        if unitNb == 0 {
          break;
        }
        var unitSize := BigEndian16(extradata[at], extradata[at + 1]);
        if totalSize + unitSize + 4 > INT_MAX - padding {
          ProgressTooBig(d, size, padding, spsDone > 0, at, unitNb, sps, pps);
          return InvalidData, null, 0;
        }
        if at + 2 + unitSize > size {
          ProgressOutside(d, size, padding, spsDone > 0, at, unitNb, sps, pps);
          return InvalidData, null, 0;
        }
        out := AppendUnit(out, totalSize, padding, extradata, at, unitSize, sps + pps);
        ProgressUnit(d, size, spsDone > 0, at, unitNb, sps, pps);
        ghost var u: Unit := extradata[at + 2..at + 2 + unitSize];
        totalSize := totalSize + unitSize + 4;
        if spsDone > 0 {
          assert (sps + pps) + [u] == sps + (pps + [u]);
          pps := pps + [u];
        } else {
          assert (sps + pps) + [u] == (sps + [u]) + pps;
          sps := sps + [u];
        }
        at := at + 2 + unitSize;
        unitNb := unitNb - 1;
      }
      gotoPps := false;
      if unitNb == 0 {
        if spsDone == 0 {
          ProgressToPps(d, size, at, sps);
          unitNb := extradata[at];
          at := at + 1;
        }
        spsDone := spsDone + 1;
      }
    }
    ProgressDone(d, size, at, sps, pps);
    if out != null {
      ClearPadding(out, totalSize);
    }
    status := Success;
  }
}
