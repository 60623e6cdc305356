/**
 The byte stream format of Annex B of ITU-T H.264: what a stream of start-code
 prefixed NAL units is (section B.1.1), and how a decoder cuts one back into NAL
 units (section B.2).  This is the reference the converter is proved against.
 */
module AnnexB {
  import opened Bytes
  import opened Sequences

  /** The three-byte start code prefix 00 00 01 stands at `i`. */
  predicate PrefixAt(s: seq<byte>, i: nat) {
    i + 3 <= |s| && s[i] == 0 && s[i + 1] == 0 && s[i + 2] == 1
  }

  /** 00 00 00 or 00 00 01 stands at `i`: either one ends the NAL unit before it. */
  predicate TerminatorAt(s: seq<byte>, i: nat) {
    i + 3 <= |s| && s[i] == 0 && s[i + 1] == 0 && s[i + 2] <= 1
  }

  /** The first position not before `i` where a start code prefix stands; `|s|` if there is none. */
  function FindPrefix(s: seq<byte>, i: nat): (p: nat)
    requires i <= |s|
    ensures i <= p <= |s|
    ensures forall k :: i <= k < p ==> !PrefixAt(s, k)
    ensures p < |s| ==> PrefixAt(s, p)
    decreases |s| - i
  {
    if i == |s| || PrefixAt(s, i) then i else FindPrefix(s, i + 1)
  }

  /** The first position not before `i` where a NAL unit ends; `|s|` if nothing ends it. */
  function FindTerminator(s: seq<byte>, i: nat): (p: nat)
    requires i <= |s|
    ensures i <= p <= |s|
    ensures forall k :: i <= k < p ==> !TerminatorAt(s, k)
    ensures p < |s| ==> TerminatorAt(s, p)
    decreases |s| - i
  {
    if i == |s| || TerminatorAt(s, i) then i else FindTerminator(s, i + 1)
  }

  /** The NAL units of a byte stream, as the decoding process of section B.2 extracts them. */
  function Decode(s: seq<byte>): (nals: seq<seq<byte>>)
    decreases |s|
  {
    var p := FindPrefix(s, 0);
    if p == |s| then [] else
    var rest := s[p + 3..];
    var n := FindTerminator(rest, 0);
    [rest[..n]] + Decode(rest[n..])
  }

  /** One NAL unit with its start code; `zeroByte` selects the four-byte form 00 00 00 01. */
  datatype CodedNal = CodedNal(zeroByte: bool, nal: seq<byte>)

  function StartCode(zeroByte: bool): seq<byte> {
    if zeroByte then [0, 0, 0, 1] else [0, 0, 1]
  }

  lemma StartCodeBytes()
    ensures StartCode(true) == [0, 0, 0, 1] && StartCode(false) == [0, 0, 1]
  {
  }

  /** The byte stream of a list of coded NAL units. */
  function Stream(units: seq<CodedNal>): (s: seq<byte>) {
    if units == [] then [] else StartCode(units[0].zeroByte) + units[0].nal + Stream(units[1..])
  }

  function Nals(units: seq<CodedNal>): (nals: seq<seq<byte>>)
    ensures |nals| == |units|
    ensures forall i :: 0 <= i < |units| ==> nals[i] == units[i].nal
  {
    seq(|units|, i requires 0 <= i < |units| => units[i].nal)
  }

  /** No terminator inside the unit. */
  ghost predicate Clean(nal: seq<byte>) {
    forall k: nat :: !TerminatorAt(nal, k)
  }

  /**
   What lets a decoder find the boundaries again: no unit holds a terminator, and no unit
   that is followed by another one ends in a zero byte.
   */
  ghost predicate Separable(nals: seq<seq<byte>>) {
    && (forall i :: 0 <= i < |nals| ==> Clean(nals[i]))
    && (forall i :: 0 <= i < |nals| - 1 && nals[i] != [] ==> nals[i][|nals[i]| - 1] != 0)
  }

  /** The constraints section 7.4.1 puts on the bytes of one NAL unit. */
  ghost predicate StandardNal(nal: seq<byte>) {
    && nal != []
    && nal[|nal| - 1] != 0
    && (forall k :: 0 <= k < |nal| - 2 ==> !(nal[k] == 0 && nal[k + 1] == 0 && nal[k + 2] <= 2))
  }

  lemma StandardNalsSeparable(nals: seq<seq<byte>>)
    requires forall i :: 0 <= i < |nals| ==> StandardNal(nals[i])
    ensures Separable(nals)
  {
    forall i | 0 <= i < |nals|
      ensures Clean(nals[i])
    {
      assert StandardNal(nals[i]);
    }
  }

  lemma {:induction false} StreamAppend(a: seq<CodedNal>, b: seq<CodedNal>)
    ensures Stream(a + b) == Stream(a) + Stream(b)
  {
    if a == [] {
      assert a + b == b;
    } else {
      assert (a + b)[1..] == a[1..] + b;
      StreamAppend(a[1..], b);
    }
  }

  /** A decoder finds a start code at its three-byte prefix. */
  lemma FindStartCode(zeroByte: bool, tail: seq<byte>)
    ensures var z := if zeroByte then 1 else 0;
            var s := StartCode(zeroByte) + tail;
            FindPrefix(s, 0) == z && s[z + 3..] == tail
  {
    var s := StartCode(zeroByte) + tail;
    if zeroByte {
      assert s[0] == 0 && s[1] == 0 && s[2] == 0 && s[3] == 1;
      assert !PrefixAt(s, 0) && PrefixAt(s, 1);
      assert FindPrefix(s, 0) == FindPrefix(s, 1);
    } else {
      assert s[0] == 0 && s[1] == 0 && s[2] == 1;
      assert PrefixAt(s, 0);
    }
  }

  /** A unit that decodes back is clean and, if anything follows it, does not end in zero. */
  lemma {:induction false} EndOfCleanUnit(nal: seq<byte>, tail: seq<byte>)
    requires tail == [] || TerminatorAt(tail, 0)
    requires FindTerminator(nal + tail, 0) == |nal|
    ensures Clean(nal)
    ensures tail == [] || nal == [] || nal[|nal| - 1] != 0
  {
    var s := nal + tail;
    forall k: nat | TerminatorAt(nal, k)
      ensures false
    {
      assert TerminatorAt(s, k);
    }
    if tail != [] && nal != [] && nal[|nal| - 1] == 0 {
      assert s[|nal|] == tail[0] && s[|nal| + 1] == tail[1];
      assert TerminatorAt(s, |nal| - 1);
    }
  }

  lemma CleanUnitEnds(nal: seq<byte>, tail: seq<byte>)
    requires tail == [] || TerminatorAt(tail, 0)
    requires Clean(nal)
    requires tail == [] || nal == [] || nal[|nal| - 1] != 0
    ensures FindTerminator(nal + tail, 0) == |nal|
  {
    var s := nal + tail;
    var p := FindTerminator(s, 0);
    if tail != [] {
      assert s[|nal|] == tail[0] && s[|nal| + 1] == tail[1] && s[|nal| + 2] == tail[2];
      assert TerminatorAt(s, |nal|);
    }
    forall k: nat | k < |nal|
      ensures !TerminatorAt(s, k)
    {
      assert !TerminatorAt(nal, k);
    }
  }

  lemma StreamTail(units: seq<CodedNal>)
    ensures Stream(units) == [] <==> units == []
    ensures units != [] ==> TerminatorAt(Stream(units), 0)
  {
    if units != [] {
      assert Stream(units) == StartCode(units[0].zeroByte) + (units[0].nal + Stream(units[1..]));
    }
  }

  /**
   Round trip, exactly: a decoder gets back the units a stream was made of if and only if they
   are separable, whatever mix of three- and four-byte start codes they were written with.
   */
  lemma {:induction false} DecodeStream(units: seq<CodedNal>)
    ensures Decode(Stream(units)) == Nals(units) <==> Separable(Nals(units))
  {
    if units != [] {
      var nal, rest := units[0].nal, units[1..];
      var tail := Stream(rest);
      var n := FindTerminator(nal + tail, 0);
      DecodeHead(units);
      StreamTail(rest);
      assert Nals(units) == [nal] + Nals(rest);
      ConsEqual((nal + tail)[..n], Decode((nal + tail)[n..]), nal, Nals(rest));
      SeparableHead(nal, Nals(rest));
      if n == |nal| {
        assert (nal + tail)[..n] == nal && (nal + tail)[n..] == tail;
        EndOfCleanUnit(nal, tail);
        DecodeStream(rest);
      } else if Separable(Nals(units)) {
        CleanUnitEnds(nal, tail);
      }
    }
  }

  lemma {:induction false} DecodeHead(units: seq<CodedNal>)
    requires units != []
    ensures var body := units[0].nal + Stream(units[1..]);
            var n := FindTerminator(body, 0);
            Decode(Stream(units)) == [body[..n]] + Decode(body[n..])
  {
    hide Decode, FindTerminator;
    var body := units[0].nal + Stream(units[1..]);
    FindStartCode(units[0].zeroByte, body);
    Associative(StartCode(units[0].zeroByte), units[0].nal, Stream(units[1..]));
    DecodeUnfold(Stream(units), FindPrefix(Stream(units), 0), body, FindTerminator(body, 0));
  }

  lemma DecodeUnfold(s: seq<byte>, p: nat, body: seq<byte>, n: nat)
    requires p == FindPrefix(s, 0) && p + 3 <= |s| && body == s[p + 3..]
    requires n == FindTerminator(body, 0)
    ensures Decode(s) == [body[..n]] + Decode(body[n..])
  {
    hide FindTerminator, FindPrefix, TerminatorAt, PrefixAt;
  }

  lemma StreamHead(units: seq<CodedNal>)
    requires units != []
    ensures Stream(units) == StartCode(units[0].zeroByte) + (units[0].nal + Stream(units[1..]))
  {
  }

  /** A unit ends at the latest where the next start code begins. */
  lemma EndsBefore(x: seq<byte>, units: seq<CodedNal>)
    ensures FindTerminator(x + Stream(units), 0) <= |x|
  {
    hide FindTerminator, Stream;
    StreamTail(units);
    var tail := Stream(units);
    var s := x + tail;
    if units != [] {
      assert s[|x|] == tail[0] && s[|x| + 1] == tail[1] && s[|x| + 2] == tail[2];
      assert TerminatorAt(s, |x|);
    }
  }

  /** The first prefix in `x` and a stream lies inside `x`, or it is that of the stream's first start code. */
  lemma FirstPrefix(x: seq<byte>, zeroByte: bool, body: seq<byte>)
    ensures var s := x + StartCode(zeroByte) + body;
            var p := FindPrefix(s, 0);
            && p + 3 <= |s|
            && (p + 3 <= |x| || s[p + 3..] == body)
  {
    hide FindPrefix;
    var code := StartCode(zeroByte);
    var s, z := x + code + body, if zeroByte then 1 else 0;
    assert forall k :: 0 <= k < |code| ==> s[|x| + k] == code[k];
    assert PrefixAt(s, |x| + z);
    assert s[|x| + |code|..] == body;
  }

  /** Every start code begins a unit, whatever stands before it, so no unit is lost, only split. */
  lemma {:induction false} DecodeAtLeast(x: seq<byte>, units: seq<CodedNal>)
    ensures |Decode(x + Stream(units))| >= |units|
    decreases |units|, |x|
  {
    hide Decode, Stream, FindPrefix, FindTerminator, StartCode;
    if units != [] {
      var body := units[0].nal + Stream(units[1..]);
      StreamHead(units);
      var s := x + Stream(units);
      assert s == x + StartCode(units[0].zeroByte) + body;
      FirstPrefix(x, units[0].zeroByte, body);
      var p := FindPrefix(s, 0);
      if s[p + 3..] == body {
        var n := FindTerminator(body, 0);
        EndsBefore(units[0].nal, units[1..]);
        DecodeUnfold(s, p, body, n);
        assert body[n..] == units[0].nal[n..] + Stream(units[1..]);
        DecodeAtLeast(units[0].nal[n..], units[1..]);
      } else {
        var y := x[p + 3..];
        var n := FindTerminator(y + Stream(units), 0);
        EndsBefore(y, units);
        assert s[p + 3..] == y + Stream(units);
        DecodeUnfold(s, p, y + Stream(units), n);
        assert (y + Stream(units))[n..] == y[n..] + Stream(units);
        DecodeAtLeast(y[n..], units);
      }
    }
  }

  lemma SeparableHead(nal: seq<byte>, rest: seq<seq<byte>>)
    ensures Separable([nal] + rest)
            <==> Clean(nal) && (rest == [] || nal == [] || nal[|nal| - 1] != 0) && Separable(rest)
  {
    var all := [nal] + rest;
    assert all[0] == nal;
    assert forall i :: 0 <= i < |rest| ==> all[i + 1] == rest[i];
  }
}
