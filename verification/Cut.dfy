/** Cutting a piece out of a file: the loop of cutvideo.c that moves each stream's timestamps to zero. */
module Cut {
  import opened Packets

  /** The input streams' time bases, and the library's conversions to the output's. */
  datatype Setup = Setup(timeBases: seq<TimeBase>, timestamp: (nat, int) -> int, duration: (nat, int) -> int)
  {
    predicate Valid() {
      forall i :: 0 <= i < |timeBases| ==> timeBases[i].den > 0
    }

    /** The packet is presented after the end of the piece. */
    predicate PastEnd(p: Packet, end: real)
      requires Valid() && p.stream < |timeBases|
    {
      var tb := timeBases[p.stream];
      tb.num as real / tb.den as real * p.pts as real > end
    }

    /** Conversion keeps the order of times. */
    ghost predicate Monotone() {
      forall i: nat, x, y :: x <= y ==> timestamp(i, x) <= timestamp(i, y)
    }
  }

  function Max(a: int, b: int): (m: int) {
    if a >= b then a else b
  }

  /** The start the loop has noted for a stream: the first decoding time that is not zero. */
  function DtsStart(ps: seq<Packet>, s: nat): (t: int) {
    if ps == [] then 0 else
    var k := |ps| - 1;
    var before := DtsStart(ps[..k], s);
    if before == 0 && ps[k].stream == s then ps[k].dts else before
  }

  function PtsStart(ps: seq<Packet>, s: nat): (t: int) {
    if ps == [] then 0 else
    var k := |ps| - 1;
    var before := PtsStart(ps[..k], s);
    if before == 0 && ps[k].stream == s then ps[k].pts else before
  }

  /** The `k`-th packet as it is written. */
  function Moved(su: Setup, ps: seq<Packet>, k: nat): (p: Packet)
    requires k < |ps|
    ensures p.pts >= 0 && p.dts >= 0 && p.stream == ps[k].stream && p.data == ps[k].data
  {
    var p := ps[k];
    p.(pts := Max(0, su.timestamp(p.stream, p.pts - PtsStart(ps[..k + 1], p.stream))),
       dts := Max(0, su.timestamp(p.stream, p.dts - DtsStart(ps[..k + 1], p.stream))),
       duration := su.duration(p.stream, p.duration), pos := -1)
  }

  function AllMoved(su: Setup, ps: seq<Packet>): (out: seq<Packet>)
    ensures |out| == |ps|
  {
    seq(|ps|, k requires 0 <= k < |ps| => Moved(su, ps, k))
  }

  lemma DtsStartNext(ps: seq<Packet>, k: nat, s: nat)
    requires k < |ps|
    ensures DtsStart(ps[..k + 1], s)
            == if DtsStart(ps[..k], s) == 0 && ps[k].stream == s then ps[k].dts else DtsStart(ps[..k], s)
  {
    assert ps[..k + 1][..k] == ps[..k];
  }

  lemma PtsStartNext(ps: seq<Packet>, k: nat, s: nat)
    requires k < |ps|
    ensures PtsStart(ps[..k + 1], s)
            == if PtsStart(ps[..k], s) == 0 && ps[k].stream == s then ps[k].pts else PtsStart(ps[..k], s)
  {
    assert ps[..k + 1][..k] == ps[..k];
  }

  /** A start that has been noted never changes. */
  lemma {:induction false} StartStays(ps: seq<Packet>, i: nat, j: nat, s: nat)
    requires i <= j <= |ps|
    ensures DtsStart(ps[..i], s) != 0 ==> DtsStart(ps[..j], s) == DtsStart(ps[..i], s)
    ensures PtsStart(ps[..i], s) != 0 ==> PtsStart(ps[..j], s) == PtsStart(ps[..i], s)
    decreases j
  {
    hide DtsStart, PtsStart;
    if i < j {
      StartStays(ps, i, j - 1, s);
      DtsStartNext(ps, j - 1, s);
      PtsStartNext(ps, j - 1, s);
    }
  }

  /** `k` is the first packet of stream `s` with a decoding time that is not zero. */
  ghost predicate FirstNonZeroDts(ps: seq<Packet>, s: nat, k: nat) {
    && k < |ps| && ps[k].stream == s && ps[k].dts != 0
    && forall i :: 0 <= i < k && ps[i].stream == s ==> ps[i].dts == 0
  }

  ghost predicate FirstNonZeroPts(ps: seq<Packet>, s: nat, k: nat) {
    && k < |ps| && ps[k].stream == s && ps[k].pts != 0
    && forall i :: 0 <= i < k && ps[i].stream == s ==> ps[i].pts == 0
  }

  /** The start is the first decoding time of the stream that is not zero, or zero as long as there is none. */
  lemma {:induction false} DtsStartIsFirst(ps: seq<Packet>, s: nat) returns (k: nat)
    ensures if DtsStart(ps, s) == 0 then forall i :: 0 <= i < |ps| && ps[i].stream == s ==> ps[i].dts == 0
            else FirstNonZeroDts(ps, s, k) && DtsStart(ps, s) == ps[k].dts
    decreases |ps|
  {
    k := 0;
    if ps != [] {
      var n := |ps| - 1;
      k := DtsStartIsFirst(ps[..n], s);
      if DtsStart(ps[..n], s) == 0 {
        k := n;
      }
    }
  }

  /** The same for presentation times. */
  lemma {:induction false} PtsStartIsFirst(ps: seq<Packet>, s: nat) returns (k: nat)
    ensures if PtsStart(ps, s) == 0 then forall i :: 0 <= i < |ps| && ps[i].stream == s ==> ps[i].pts == 0
            else FirstNonZeroPts(ps, s, k) && PtsStart(ps, s) == ps[k].pts
    decreases |ps|
  {
    k := 0;
    if ps != [] {
      var n := |ps| - 1;
      k := PtsStartIsFirst(ps[..n], s);
      if PtsStart(ps[..n], s) == 0 {
        k := n;
      }
    }
  }

  /** The start noted by the time the `k`-th packet is moved, which may be its own time. */
  lemma DtsShift(ps: seq<Packet>, k: nat) returns (i: nat)
    requires k < |ps|
    ensures var s, start := ps[k].stream, DtsStart(ps[..k + 1], ps[k].stream);
            if start == 0 then ps[k].dts == 0 && forall j :: 0 <= j <= k && ps[j].stream == s ==> ps[j].dts == 0
            else i <= k && FirstNonZeroDts(ps, s, i) && start == ps[i].dts
  {
    hide DtsStart;
    i := DtsStartIsFirst(ps[..k + 1], ps[k].stream);
    assert forall j :: 0 <= j <= k ==> ps[..k + 1][j] == ps[j];
  }

  lemma PtsShift(ps: seq<Packet>, k: nat) returns (i: nat)
    requires k < |ps|
    ensures var s, start := ps[k].stream, PtsStart(ps[..k + 1], ps[k].stream);
            if start == 0 then ps[k].pts == 0 && forall j :: 0 <= j <= k && ps[j].stream == s ==> ps[j].pts == 0
            else i <= k && FirstNonZeroPts(ps, s, i) && start == ps[i].pts
  {
    hide PtsStart;
    i := PtsStartIsFirst(ps[..k + 1], ps[k].stream);
    assert forall j :: 0 <= j <= k ==> ps[..k + 1][j] == ps[j];
  }

  /** A packet is written with its time since the stream's start `j`, not below zero. */
  lemma MovedDts(su: Setup, ps: seq<Packet>, k: nat, j: nat)
    requires j <= k < |ps| && FirstNonZeroDts(ps, ps[k].stream, j)
    ensures var t := su.timestamp(ps[k].stream, ps[k].dts - ps[j].dts);
            AllMoved(su, ps)[k].dts == if t < 0 then 0 else t
  {
    hide DtsStart, PtsStart;
    var i := DtsShift(ps, k);
    assert i == j;
  }

  lemma MovedPts(su: Setup, ps: seq<Packet>, k: nat, j: nat)
    requires j <= k < |ps| && FirstNonZeroPts(ps, ps[k].stream, j)
    ensures var t := su.timestamp(ps[k].stream, ps[k].pts - ps[j].pts);
            AllMoved(su, ps)[k].pts == if t < 0 then 0 else t
  {
    hide DtsStart, PtsStart;
    var i := PtsShift(ps, k);
    assert i == j;
  }

  /** The rest of it is converted or kept; a time before any start is zero, converted. */
  lemma MovedRest(su: Setup, ps: seq<Packet>, k: nat)
    requires k < |ps|
    ensures var p, q, s := ps[k], AllMoved(su, ps)[k], ps[k].stream;
            && q.stream == s && q.data == p.data && q.pos == -1 && q.duration == su.duration(s, p.duration)
            && var zero := su.timestamp(s, 0);
            && ((forall j :: 0 <= j <= k && ps[j].stream == s ==> ps[j].dts == 0) ==>
                  q.dts == if zero < 0 then 0 else zero)
            && ((forall j :: 0 <= j <= k && ps[j].stream == s ==> ps[j].pts == 0) ==>
                  q.pts == if zero < 0 then 0 else zero)
  {
    hide DtsStart, PtsStart;
    var i := DtsShift(ps, k);
    var j := PtsShift(ps, k);
  }

  /** Each stream's decoding times do not decrease. */
  ghost predicate DtsOrdered(ps: seq<Packet>) {
    forall i, j :: 0 <= i < j < |ps| && ps[i].stream == ps[j].stream ==> ps[i].dts <= ps[j].dts
  }

  /** Nor do they in the output, although the start of a stream may be noted between two packets. */
  lemma MovedDtsOrdered(su: Setup, ps: seq<Packet>)
    requires su.Monotone() && DtsOrdered(ps)
    ensures DtsOrdered(AllMoved(su, ps))
  {
    var out := AllMoved(su, ps);
    forall i, j | 0 <= i < j < |out| && out[i].stream == out[j].stream
      ensures out[i].dts <= out[j].dts
    {
      MovedPair(su, ps, i, j);
    }
  }

  lemma MovedPair(su: Setup, ps: seq<Packet>, i: nat, j: nat)
    requires su.Monotone() && DtsOrdered(ps) && i < j < |ps| && ps[i].stream == ps[j].stream
    ensures Moved(su, ps, i).dts <= Moved(su, ps, j).dts
  {
    hide DtsStart, PtsStart;
    var s := ps[i].stream;
    var a, b := DtsStart(ps[..i + 1], s), DtsStart(ps[..j + 1], s);
    StartStays(ps, i + 1, j + 1, s);
    var _ := DtsShift(ps, i);
    var k := DtsShift(ps, j);
    assert ps[i].dts - a <= ps[j].dts - b;
  }

  /** The decoding times of stream `s` strictly increase. */
  ghost predicate DtsIncreasing(ps: seq<Packet>, s: nat) {
    forall i, j :: 0 <= i < j < |ps| && ps[i].stream == s && ps[j].stream == s ==> ps[i].dts < ps[j].dts
  }

  /** `f` is the first packet of stream `s`. */
  ghost predicate First(ps: seq<Packet>, s: nat, f: nat) {
    f < |ps| && ps[f].stream == s && forall i :: 0 <= i < f ==> ps[i].stream != s
  }

  /** Output times of stream `s` are counted like input times. */
  ghost predicate SameTimeBase(su: Setup, s: nat) {
    forall x :: su.timestamp(s, x) == x
  }

  /** The first packet of stream `s`, if there is a second, has a decoding time that is not zero. */
  ghost predicate StartsInTime(ps: seq<Packet>, s: nat) {
    forall f: nat, k :: First(ps, s, f) && f < k < |ps| && ps[k].stream == s ==> ps[f].dts != 0
  }

  /**
   Strictly increasing decoding times stay so, between equal time bases, if and only if the first of
   them is not zero or also the last: a start of zero counts as not noted, so that the second packet
   is moved to zero as well.
   */
  lemma StrictKeptIff(su: Setup, ps: seq<Packet>, s: nat)
    requires SameTimeBase(su, s) && DtsIncreasing(ps, s)
    ensures DtsIncreasing(AllMoved(su, ps), s) <==> StartsInTime(ps, s)
  {
    hide DtsStart, PtsStart;
    if f: nat, k :| First(ps, s, f) && f < k < |ps| && ps[k].stream == s && ps[f].dts == 0 {
      SecondMovedToZero(su, ps, s, f, k);
    } else {
      forall i, j | 0 <= i < j < |ps| && ps[i].stream == s && ps[j].stream == s
        ensures Moved(su, ps, i).dts < Moved(su, ps, j).dts
      {
        var f := FirstOf(ps, s, i);
        MovedFromFirst(su, ps, s, f, i);
        MovedFromFirst(su, ps, s, f, j);
      }
    }
  }

  lemma {:induction false} FirstOf(ps: seq<Packet>, s: nat, i: nat) returns (f: nat)
    requires i < |ps| && ps[i].stream == s
    ensures f <= i && First(ps, s, f)
  {
    if k: nat :| k < i && ps[k].stream == s {
      f := FirstOf(ps, s, k);
    } else {
      f := i;
    }
  }

  lemma MovedFromFirst(su: Setup, ps: seq<Packet>, s: nat, f: nat, k: nat)
    requires SameTimeBase(su, s) && DtsIncreasing(ps, s) && First(ps, s, f) && ps[f].dts != 0
    requires f <= k < |ps| && ps[k].stream == s
    ensures Moved(su, ps, k).dts == ps[k].dts - ps[f].dts
  {
    hide DtsStart, PtsStart;
    var i := DtsShift(ps, k);
    assert ps[f].dts <= ps[k].dts;
  }

  lemma SecondMovedToZero(su: Setup, ps: seq<Packet>, s: nat, f: nat, k: nat)
    requires SameTimeBase(su, s) && DtsIncreasing(ps, s) && First(ps, s, f) && ps[f].dts == 0
    requires f < k < |ps| && ps[k].stream == s
    ensures !DtsIncreasing(AllMoved(su, ps), s)
  {
    hide DtsStart, PtsStart;
    var out := AllMoved(su, ps);
    var _ := DtsShift(ps, f);
    var i := DtsShift(ps, k);
    var j := DtsShift(ps, i);
    assert out[f].dts == 0 && out[i].dts == 0;
  }

  /** Two packets at 0 and 10 both come out at 0. */
  lemma StrictnessCanBeLost(su: Setup, ps: seq<Packet>)
    requires SameTimeBase(su, 0)
    requires ps == [Packet(0, 0, 10, 0, 0, []), Packet(10, 10, 10, 0, 0, [])]
    ensures DtsIncreasing(ps, 0) && Moved(su, ps, 0).dts == 0 && Moved(su, ps, 1).dts == 0
  {
    hide DtsStart, PtsStart;
    var _ := DtsShift(ps, 0);
    var i := DtsShift(ps, 1);
  }

  // ----- presentation against decoding

  /**
   A packet decoded after its stream's start comes with at least the delay that lies between the
   two starts, that is, between the stream's first decoding and presentation times that are not zero.
   */
  ghost predicate DelaySuffices(ps: seq<Packet>, s: nat, k: nat)
    requires k < |ps|
  {
    forall i: nat :: i <= k && FirstNonZeroDts(ps, s, i) && ps[k].dts > ps[i].dts ==>
      exists j: nat :: j <= k && FirstNonZeroPts(ps, s, j) && ps[k].pts - ps[k].dts >= ps[j].pts - ps[i].dts
  }

  /** All packets of stream `s` do. */
  ghost predicate DelaysSuffice(ps: seq<Packet>, s: nat) {
    forall k :: 0 <= k < |ps| && ps[k].stream == s ==> DelaySuffices(ps, s, k)
  }

  /** No packet of stream `s` is presented before it is decoded. */
  ghost predicate InTime(ps: seq<Packet>, s: nat) {
    forall k :: 0 <= k < |ps| && ps[k].stream == s ==> ps[k].pts >= ps[k].dts
  }

  /** The starts noted by the `k`-th packet decide whether its delay suffices. */
  lemma DelayAgainstStarts(ps: seq<Packet>, k: nat)
    requires k < |ps|
    ensures var s := ps[k].stream;
            var dts, pts := ps[k].dts - DtsStart(ps[..k + 1], s), ps[k].pts - PtsStart(ps[..k + 1], s);
            DelaySuffices(ps, s, k) <==> dts <= 0 || (pts >= dts && PtsStart(ps[..k + 1], s) != 0)
  {
    hide DtsStart, PtsStart;
    var s := ps[k].stream;
    var i := DtsShift(ps, k);
    var j := PtsShift(ps, k);
    if DtsStart(ps[..k + 1], s) != 0 && ps[k].dts > ps[i].dts && DelaySuffices(ps, s, k) {
      var l: nat :| l <= k && FirstNonZeroPts(ps, s, l) && ps[k].pts - ps[k].dts >= ps[l].pts - ps[i].dts;
      assert PtsStart(ps[..k + 1], s) != 0 && l == j;
    }
  }

  lemma MovedInTime(su: Setup, ps: seq<Packet>, k: nat)
    requires k < |ps|
    ensures var s := ps[k].stream;
            && (SameTimeBase(su, s) ==>
                  (Moved(su, ps, k).pts >= Moved(su, ps, k).dts <==> DelaySuffices(ps, s, k)))
            && (su.Monotone() && su.timestamp(s, 0) <= 0 && DelaySuffices(ps, s, k) ==>
                  Moved(su, ps, k).pts >= Moved(su, ps, k).dts)
  {
    hide DtsStart, PtsStart, DelaySuffices;
    DelayAgainstStarts(ps, k);
    var _ := PtsShift(ps, k);
  }

  /**
   Presentation and decoding times are moved by different amounts, so packets that are presented no
   earlier than they are decoded may not stay that way.  Between equal time bases all of a stream's
   packets come out in time if and only if their delays suffice, whatever their times are.
   */
  lemma DelaysKeptIff(su: Setup, ps: seq<Packet>, s: nat)
    requires SameTimeBase(su, s)
    ensures InTime(AllMoved(su, ps), s) <==> DelaysSuffice(ps, s)
  {
    hide Moved, DelaySuffices, Setup.Monotone;
    var out := AllMoved(su, ps);
    forall k | 0 <= k < |ps| && ps[k].stream == s
      ensures out[k].stream == s && (out[k].pts >= out[k].dts <==> DelaySuffices(ps, s, k))
    {
      MovedInTime(su, ps, k);
    }
    assert forall k :: 0 <= k < |ps| ==> out[k].stream == ps[k].stream;
  }

  /** For any conversion that keeps order, and zero from becoming positive, it is enough that they suffice. */
  lemma DelaysKept(su: Setup, ps: seq<Packet>, s: nat)
    requires su.Monotone() && su.timestamp(s, 0) <= 0
    requires DelaysSuffice(ps, s)
    ensures InTime(AllMoved(su, ps), s)
  {
    hide Moved, DelaySuffices, Setup.Monotone;
    var out := AllMoved(su, ps);
    forall k | 0 <= k < |out| && out[k].stream == s
      ensures out[k].pts >= out[k].dts
    {
      MovedInTime(su, ps, k);
    }
  }

  /** When a stream's first packet `f` has both times, its delay is the one all later ones are measured by. */
  lemma FirstDelayDecides(ps: seq<Packet>, s: nat, f: nat)
    requires First(ps, s, f) && ps[f].dts != 0 && ps[f].pts != 0
    ensures DelaysSuffice(ps, s)
            <==> forall k :: f < k < |ps| && ps[k].stream == s && ps[k].dts > ps[f].dts ==>
                   ps[k].pts - ps[k].dts >= ps[f].pts - ps[f].dts
  {
    assert FirstNonZeroDts(ps, s, f) && FirstNonZeroPts(ps, s, f);
    forall k | 0 <= k < |ps| && ps[k].stream == s
      ensures DelaySuffices(ps, s, k)
              <==> (f < k && ps[k].dts > ps[f].dts ==> ps[k].pts - ps[k].dts >= ps[f].pts - ps[f].dts)
    {
      assert f <= k;
      if f < k && ps[k].dts > ps[f].dts && DelaySuffices(ps, s, k) {
        var j: nat :| j <= k && FirstNonZeroPts(ps, s, j) && ps[k].pts - ps[k].dts >= ps[j].pts - ps[f].dts;
        assert j == f;
      }
    }
  }

  /** Two well-formed packets, the second of which is to be presented before it is decoded. */
  lemma DelayCanTurnNegative(su: Setup, ps: seq<Packet>)
    requires SameTimeBase(su, 0)
    requires ps == [Packet(20, 10, 1, 0, 0, []), Packet(12, 11, 1, 0, 0, [])]
    ensures Moved(su, ps, 1).pts < Moved(su, ps, 1).dts
  {
    assert ps[..2][..1] == ps[..1] && ps[..1][..0] == [];
    DtsStartNext(ps, 1, 0);
    PtsStartNext(ps, 1, 0);
    DtsStartNext(ps, 0, 0);
    PtsStartNext(ps, 0, 0);
  }

  // ----- the loop

  /** Every packet is of a stream of the input. */
  ghost predicate Known(su: Setup, ps: seq<Packet>) {
    su.Valid() && forall i :: 0 <= i < |ps| ==> ps[i].stream < |su.timeBases|
  }

  /** Where the piece ends: before the first packet that is past the end or that the muxer refuses. */
  ghost function PieceEnd(su: Setup, ps: seq<Packet>, end: real, fails: nat -> bool, from: nat): (n: nat)
    requires Known(su, ps) && from <= |ps|
    ensures from <= n <= |ps|
    ensures forall i :: from <= i < n ==> !su.PastEnd(ps[i], end) && !fails(i)
    ensures n < |ps| ==> su.PastEnd(ps[n], end) || fails(n)
    decreases |ps| - from
  {
    if from == |ps| || su.PastEnd(ps[from], end) || fails(from) then from else PieceEnd(su, ps, end, fails, from + 1)
  }

  lemma PieceEndStep(su: Setup, ps: seq<Packet>, end: real, fails: nat -> bool, n: nat)
    requires Known(su, ps) && n < |ps|
    ensures ps[n].stream < |su.timeBases|
    ensures PieceEnd(su, ps, end, fails, n)
            == if su.PastEnd(ps[n], end) || fails(n) then n else PieceEnd(su, ps, end, fails, n + 1)
  {
  }

  /** How a packet is moved does not depend on the packets behind it. */
  lemma MovedInPrefix(su: Setup, ps: seq<Packet>, n: nat, k: nat)
    requires k < n <= |ps|
    ensures Moved(su, ps[..n], k) == Moved(su, ps, k)
  {
    hide DtsStart, PtsStart;
    assert ps[..n][..k + 1] == ps[..k + 1];
  }

  lemma AllMovedNext(su: Setup, ps: seq<Packet>, n: nat)
    requires n < |ps|
    ensures AllMoved(su, ps[..n + 1]) == AllMoved(su, ps[..n]) + [Moved(su, ps, n)]
  {
    hide Moved;
    var more, less := AllMoved(su, ps[..n + 1]), AllMoved(su, ps[..n]);
    forall k | 0 <= k <= n
      ensures more[k] == (less + [Moved(su, ps, n)])[k]
    {
      MovedInPrefix(su, ps, n + 1, k);
      if k < n {
        MovedInPrefix(su, ps, n, k);
      }
    }
  }

  /** The starts of all streams noted before packet `n`. */
  ghost predicate Noted(ps: seq<Packet>, n: nat, dtsStartFrom: seq<int>, ptsStartFrom: seq<int>)
    requires n <= |ps|
  {
    && (forall s :: 0 <= s < |dtsStartFrom| ==> dtsStartFrom[s] == DtsStart(ps[..n], s))
    && (forall s :: 0 <= s < |ptsStartFrom| ==> ptsStartFrom[s] == PtsStart(ps[..n], s))
  }

  /** Notes the starts of a packet's stream, if there are none, and moves the packet. */
  method MovePacket(su: Setup, ghost ps: seq<Packet>, ghost n: nat, packet: Packet,
                    dtsStartFrom: array<int>, ptsStartFrom: array<int>)
    returns (pkt: Packet)
    requires n < |ps| && packet == ps[n] && dtsStartFrom != ptsStartFrom
    requires packet.stream < dtsStartFrom.Length == ptsStartFrom.Length
    requires Noted(ps, n, dtsStartFrom[..], ptsStartFrom[..])
    modifies dtsStartFrom, ptsStartFrom
    ensures Noted(ps, n + 1, dtsStartFrom[..], ptsStartFrom[..])
    ensures pkt == Moved(su, ps, n)
  {
    hide DtsStart, PtsStart;
    pkt := packet;
    forall s: nat
      ensures DtsStart(ps[..n + 1], s)
              == if DtsStart(ps[..n], s) == 0 && pkt.stream == s then pkt.dts else DtsStart(ps[..n], s)
      ensures PtsStart(ps[..n + 1], s)
              == if PtsStart(ps[..n], s) == 0 && pkt.stream == s then pkt.pts else PtsStart(ps[..n], s)
    {
      DtsStartNext(ps, n, s);
      PtsStartNext(ps, n, s);
    }
    if dtsStartFrom[pkt.stream] == 0 {
      dtsStartFrom[pkt.stream] := pkt.dts;
    }
    if ptsStartFrom[pkt.stream] == 0 {
      ptsStartFrom[pkt.stream] := pkt.pts;
    }
    pkt := pkt.(pts := su.timestamp(pkt.stream, pkt.pts - ptsStartFrom[pkt.stream]),
                dts := su.timestamp(pkt.stream, pkt.dts - dtsStartFrom[pkt.stream]));
    if pkt.pts < 0 {
      pkt := pkt.(pts := 0);
    }
    if pkt.dts < 0 {
      pkt := pkt.(dts := 0);
    }
    pkt := pkt.(duration := su.duration(pkt.stream, pkt.duration), pos := -1);
  }

  /** The loop of `cut_video`, with one start of each kind for every stream, noted in place. */
  method CutPackets(su: Setup, ps: seq<Packet>, end: real, fails: nat -> bool) returns (out: seq<Packet>)
    requires Known(su, ps)
    ensures var n := |out|;
            && n <= |ps|
            && (forall k :: 0 <= k < n ==>
                  var tb := su.timeBases[ps[k].stream];
                  ps[k].pts as real * tb.num as real <= end * tb.den as real && !fails(k))
            && (n < |ps| ==>
                  var tb := su.timeBases[ps[n].stream];
                  ps[n].pts as real * tb.num as real > end * tb.den as real || fails(n))
    ensures var piece := ps[..PieceEnd(su, ps, end, fails, 0)];
            && out == AllMoved(su, piece)
            && (su.Monotone() && DtsOrdered(piece) ==> DtsOrdered(out))
            && (forall s :: SameTimeBase(su, s) ==> (InTime(out, s) <==> DelaysSuffice(piece, s)))
            && (forall s: nat :: su.Monotone() && su.timestamp(s, 0) <= 0 && DelaysSuffice(piece, s) ==> InTime(out, s))
            && (forall s :: SameTimeBase(su, s) && DtsIncreasing(piece, s) ==>
                  (DtsIncreasing(out, s) <==> StartsInTime(piece, s)))
  {
    hide PieceEnd, AllMoved, Moved, Setup.PastEnd, Setup.Monotone, DtsOrdered, InTime, DelaysSuffice, DtsIncreasing,
         StartsInTime, Noted;
    var streams := |su.timeBases|;
    var dtsStartFrom := new int[streams](_ => 0);
    var ptsStartFrom := new int[streams](_ => 0);
    out := [];
    var n := 0;
    NothingNoted(ps, dtsStartFrom[..], ptsStartFrom[..]);
    NothingMoved(su, ps, end, fails);
    while n < |ps|
      invariant n <= |ps| && out == AllMoved(su, ps[..n])
      invariant PieceEnd(su, ps, end, fails, 0) == PieceEnd(su, ps, end, fails, n)
      invariant Noted(ps, n, dtsStartFrom[..], ptsStartFrom[..])
    {
      PieceEndStep(su, ps, end, fails, n);
      AllMovedNext(su, ps, n);
      if su.PastEnd(ps[n], end) {
        break;
      }
      var pkt := MovePacket(su, ps, n, ps[n], dtsStartFrom, ptsStartFrom);
      if fails(n) {
        break;
      }
      out := out + [pkt];
      n := n + 1;
    }
    PieceLaws(su, ps[..n]);
    PieceTimes(su, ps, end, fails);
  }

  lemma PastEndTime(su: Setup, p: Packet, end: real)
    requires su.Valid() && p.stream < |su.timeBases|
    ensures var tb := su.timeBases[p.stream];
            su.PastEnd(p, end) <==> p.pts as real * tb.num as real > end * tb.den as real
  {
    var tb := su.timeBases[p.stream];
    var num, den, t := tb.num as real, tb.den as real, p.pts as real;
    Quotient(num, den, t);
    RealOrder(num / den * t, end, den);
  }

  lemma Quotient(num: real, den: real, t: real)
    requires den > 0.0
    ensures num / den * t * den == t * num
  {
    var q := num / den;
    assert q * den == num;
    assert q * t * den == q * den * t;
  }

  lemma RealOrder(x: real, y: real, w: real)
    requires w > 0.0
    ensures x > y <==> x * w > y * w
  {
    var d := x - y;
    assert d * w == x * w - y * w;
    assert d > 0.0 ==> d * w > 0.0;
    assert d < 0.0 ==> -d * w > 0.0;
    assert -d * w == -(d * w);
  }

  /** The packets of the piece are presented up to its end, in seconds, and the next one is not, or is refused. */
  lemma PieceTimes(su: Setup, ps: seq<Packet>, end: real, fails: nat -> bool)
    requires Known(su, ps)
    ensures var n := PieceEnd(su, ps, end, fails, 0);
            && (forall k :: 0 <= k < n ==>
                  var tb := su.timeBases[ps[k].stream];
                  ps[k].pts as real * tb.num as real <= end * tb.den as real && !fails(k))
            && (n < |ps| ==>
                  var tb := su.timeBases[ps[n].stream];
                  ps[n].pts as real * tb.num as real > end * tb.den as real || fails(n))
  {
    hide PieceEnd, Setup.PastEnd;
    var n := PieceEnd(su, ps, end, fails, 0);
    forall k | 0 <= k < n
      ensures var tb := su.timeBases[ps[k].stream];
              ps[k].pts as real * tb.num as real <= end * tb.den as real && !fails(k)
    {
      PastEndTime(su, ps[k], end);
    }
    if n < |ps| {
      PastEndTime(su, ps[n], end);
    }
  }

  /** What has been proved about moved packets, for the packets that are written. */
  lemma PieceLaws(su: Setup, piece: seq<Packet>)
    ensures var out := AllMoved(su, piece);
            && (su.Monotone() && DtsOrdered(piece) ==> DtsOrdered(out))
            && (forall s :: SameTimeBase(su, s) ==> (InTime(out, s) <==> DelaysSuffice(piece, s)))
            && (forall s: nat :: su.Monotone() && su.timestamp(s, 0) <= 0 && DelaysSuffice(piece, s) ==> InTime(out, s))
            && (forall s :: SameTimeBase(su, s) && DtsIncreasing(piece, s) ==>
                  (DtsIncreasing(out, s) <==> StartsInTime(piece, s)))
  {
    hide AllMoved, Setup.Monotone, DtsOrdered, InTime, DelaysSuffice, DtsIncreasing, StartsInTime, SameTimeBase;
    if su.Monotone() && DtsOrdered(piece) {
      MovedDtsOrdered(su, piece);
    }
    forall s: nat | su.Monotone() && su.timestamp(s, 0) <= 0 && DelaysSuffice(piece, s)
      ensures InTime(AllMoved(su, piece), s)
    {
      DelaysKept(su, piece, s);
    }
    forall s | SameTimeBase(su, s)
      ensures InTime(AllMoved(su, piece), s) <==> DelaysSuffice(piece, s)
      ensures DtsIncreasing(piece, s) ==> (DtsIncreasing(AllMoved(su, piece), s) <==> StartsInTime(piece, s))
    {
      DelaysKeptIff(su, piece, s);
      if DtsIncreasing(piece, s) {
        StrictKeptIff(su, piece, s);
      }
    }
  }

  lemma NothingMoved(su: Setup, ps: seq<Packet>, end: real, fails: nat -> bool)
    requires Known(su, ps)
    ensures AllMoved(su, ps[..0]) == [] && PieceEnd(su, ps, end, fails, |ps|) == |ps|
  {
  }

  lemma NothingNoted(ps: seq<Packet>, dtsStartFrom: seq<int>, ptsStartFrom: seq<int>)
    requires forall s :: 0 <= s < |dtsStartFrom| ==> dtsStartFrom[s] == 0
    requires forall s :: 0 <= s < |ptsStartFrom| ==> ptsStartFrom[s] == 0
    ensures Noted(ps, 0, dtsStartFrom, ptsStartFrom)
  {
  }
}
