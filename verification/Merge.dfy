/**
 Merging one stream each of two files into one output file: the loop of avmerge.c that picks
 the input to read next by comparing the last timestamps it remembers.
 */
module Merge {
  import opened Packets

  /** `AV_NOPTS_VALUE` */
  const NO_PTS := -0x8000_0000_0000_0000

  /** The streams' time bases, and the library arithmetic the loop calls: conversions to the output's
      time base, the generated timestamp of the n-th packet without one, and the duration it gets. */
  datatype Setup = Setup(
    timeBase1: TimeBase, timeBase2: TimeBase,
    rescale1: int -> int, rescale2: int -> int, duration1: int -> int, duration2: int -> int,
    stamp: nat -> int, frameDuration: int)
  {
    /** `av_compare_ts` finds the first time later than the second. */
    predicate Later(pts1: int, pts2: int) {
      pts1 * timeBase1.num * timeBase2.den > pts2 * timeBase2.num * timeBase1.den
    }
  }

  // ----- the packets as they are written

  /** How many of the packets have no timestamp. */
  function Unstamped(ps: seq<Packet>): (n: nat) {
    if ps == [] then 0 else Unstamped(ps[..|ps| - 1]) + (if ps[|ps| - 1].pts == NO_PTS then 1 else 0)
  }

  /** The `i`-th packet of the first input. */
  function Written1(s: Setup, in1: seq<Packet>, i: nat): (p: Packet)
    requires i < |in1|
    ensures p.stream == 0
  {
    var p := in1[i];
    var q := if p.pts == NO_PTS then p.(pts := s.stamp(Unstamped(in1[..i])), duration := s.frameDuration) else p;
    q.(pts := s.rescale1(q.pts), dts := s.rescale1(q.pts), duration := s.duration1(q.duration), pos := -1, stream := 0)
  }

  /** The `k`-th packet of the second input. */
  function Written2(s: Setup, in2: seq<Packet>, k: nat): (p: Packet)
    requires k < |in2|
    ensures p.stream == 1
  {
    var p := in2[k];
    p.(pts := s.rescale2(p.pts), dts := s.rescale2(p.pts), duration := s.duration2(p.duration), pos := -1, stream := 1)
  }

  // ----- the times the loop remembers

  /** After `i` packets of the first input: the last generated timestamp, or zero. */
  function CurPts1(s: Setup, in1: seq<Packet>, i: nat): (t: int)
    requires i <= |in1|
  {
    var n := Unstamped(in1[..i]);
    if n == 0 then 0 else s.stamp(n - 1)
  }

  /** After `k` packets of the second input: the timestamp of the last one, or zero. */
  function CurPts2(in2: seq<Packet>, k: nat): (t: int)
    requires k <= |in2|
  {
    if k == 0 then 0 else in2[k - 1].pts
  }

  // ----- the merge

  /** The output from the point where `i` and `k` packets have been taken from the inputs. */
  function MergeFrom(s: Setup, in1: seq<Packet>, in2: seq<Packet>, i: nat, k: nat): (out: seq<Packet>)
    requires i <= |in1| && k <= |in2|
    decreases |in1| - i + |in2| - k
  {
    if i == |in1| && k == |in2| then []
    else if i < |in1| && (k == |in2| || !s.Later(CurPts1(s, in1, i), CurPts2(in2, k))) then
      [Written1(s, in1, i)] + MergeFrom(s, in1, in2, i + 1, k)
    else
      [Written2(s, in2, k)] + MergeFrom(s, in1, in2, i, k + 1)
  }

  function All1(s: Setup, in1: seq<Packet>): (out: seq<Packet>) {
    seq(|in1|, i requires 0 <= i < |in1| => Written1(s, in1, i))
  }

  function All2(s: Setup, in2: seq<Packet>): (out: seq<Packet>) {
    seq(|in2|, k requires 0 <= k < |in2| => Written2(s, in2, k))
  }

  /** Each output stream gets exactly its input's packets, in order. */
  lemma {:induction false} MergeKeepsStreams(s: Setup, in1: seq<Packet>, in2: seq<Packet>, i: nat, k: nat)
    requires i <= |in1| && k <= |in2|
    ensures Only(MergeFrom(s, in1, in2, i, k), 0) == All1(s, in1)[i..]
    ensures Only(MergeFrom(s, in1, in2, i, k), 1) == All2(s, in2)[k..]
    decreases |in1| - i + |in2| - k
  {
    hide Written1, Written2, CurPts1, CurPts2, Setup.Later, All1, All2, Only;
    if i == |in1| && k == |in2| {
      NothingLeft(s, in1, in2);
    } else if i < |in1| && (k == |in2| || !s.Later(CurPts1(s, in1, i), CurPts2(in2, k))) {
      MergeKeepsStreams(s, in1, in2, i + 1, k);
      OnlyFirst(Written1(s, in1, i), MergeFrom(s, in1, in2, i + 1, k));
      Next1(s, in1, i);
    } else {
      MergeKeepsStreams(s, in1, in2, i, k + 1);
      OnlyFirst(Written2(s, in2, k), MergeFrom(s, in1, in2, i, k + 1));
      Next2(s, in2, k);
    }
  }

  lemma NothingLeft(s: Setup, in1: seq<Packet>, in2: seq<Packet>)
    ensures Only([], 0) == All1(s, in1)[|in1|..] && Only([], 1) == All2(s, in2)[|in2|..]
  {
  }

  lemma OnlyFirst(p: Packet, ps: seq<Packet>)
    ensures forall stream: nat ::
              Only([p] + ps, stream) == (if p.stream == stream then [p] else []) + Only(ps, stream)
  {
    assert ([p] + ps)[1..] == ps;
  }

  lemma Next1(s: Setup, in1: seq<Packet>, i: nat)
    requires i < |in1|
    ensures All1(s, in1)[i..] == [Written1(s, in1, i)] + All1(s, in1)[i + 1..]
  {
    hide Written1;
  }

  lemma Next2(s: Setup, in2: seq<Packet>, k: nat)
    requires k < |in2|
    ensures All2(s, in2)[k..] == [Written2(s, in2, k)] + All2(s, in2)[k + 1..]
  {
    hide Written2;
  }

  /**
   The rule: while packets of the other input remain, a packet of the second is written only when
   the time remembered for the first is later, and one of the first only when it is not.
   */
  lemma {:induction false} MergeRule(s: Setup, in1: seq<Packet>, in2: seq<Packet>, i: nat, k: nat, j: nat)
    requires i <= |in1| && k <= |in2| && j < |MergeFrom(s, in1, in2, i, k)|
    ensures var out := MergeFrom(s, in1, in2, i, k);
            var a, b := i + |Only(out[..j], 0)|, k + |Only(out[..j], 1)|;
            && a <= |in1| && b <= |in2|
            && (out[j].stream == 1 && a < |in1| ==> s.Later(CurPts1(s, in1, a), CurPts2(in2, b)))
            && (out[j].stream == 0 && b < |in2| ==> !s.Later(CurPts1(s, in1, a), CurPts2(in2, b)))
    decreases j
  {
    hide Written1, Written2, CurPts1, CurPts2, Setup.Later, Only;
    var out := MergeFrom(s, in1, in2, i, k);
    if j == 0 {
      assert out[..0] == [];
      NothingLeft(s, in1, in2);
    } else if i < |in1| && (k == |in2| || !s.Later(CurPts1(s, in1, i), CurPts2(in2, k))) {
      var rest := MergeFrom(s, in1, in2, i + 1, k);
      assert out[..j] == [Written1(s, in1, i)] + rest[..j - 1];
      OnlyFirst(Written1(s, in1, i), rest[..j - 1]);
      MergeRule(s, in1, in2, i + 1, k, j - 1);
    } else {
      var rest := MergeFrom(s, in1, in2, i, k + 1);
      assert out[..j] == [Written2(s, in2, k)] + rest[..j - 1];
      OnlyFirst(Written2(s, in2, k), rest[..j - 1]);
      MergeRule(s, in1, in2, i, k + 1, j - 1);
    }
  }

  /** The comparison is one of seconds. */
  lemma LaterInSeconds(s: Setup, t1: int, t2: int)
    requires s.timeBase1.den > 0 && s.timeBase2.den > 0
    ensures s.Later(t1, t2)
            <==> t1 as real * s.timeBase1.num as real / s.timeBase1.den as real
                 > t2 as real * s.timeBase2.num as real / s.timeBase2.den as real
  {
    var x1, x2 := t1 * s.timeBase1.num, t2 * s.timeBase2.num;
    var d1, d2 := s.timeBase1.den, s.timeBase2.den;
    assert (x1 * d2) as real == x1 as real * d2 as real && (x2 * d1) as real == x2 as real * d1 as real;
    Fractions(x1 as real, d1 as real, x2 as real, d2 as real);
  }

  lemma Fractions(x1: real, d1: real, x2: real, d2: real)
    requires d1 > 0.0 && d2 > 0.0
    ensures x1 / d1 > x2 / d2 <==> x1 * d2 > x2 * d1
  {
    var q1, q2 := x1 / d1, x2 / d2;
    var d, w := q1 - q2, d1 * d2;
    assert x1 == q1 * d1 && x2 == q2 * d2;
    assert x1 * d2 == q1 * w && x2 * d1 == q2 * w;
    assert d * w == q1 * w - q2 * w;
    assert w > 0.0;
    Sign(d, w);
  }

  lemma Sign(d: real, w: real)
    requires w > 0.0
    ensures d > 0.0 <==> d * w > 0.0
  {
    if d < 0.0 {
      assert -d * w > 0.0;
      assert -d * w == -(d * w);
    }
  }

  /** The rule in seconds, for the whole merge and all time bases. */
  lemma MergeRuleInSeconds(s: Setup, in1: seq<Packet>, in2: seq<Packet>, j: nat)
    requires s.timeBase1.den > 0 && s.timeBase2.den > 0
    requires j < |MergeFrom(s, in1, in2, 0, 0)|
    ensures var out := MergeFrom(s, in1, in2, 0, 0);
            var a, b := |Only(out[..j], 0)|, |Only(out[..j], 1)|;
            && a <= |in1| && b <= |in2|
            && var seconds1 := CurPts1(s, in1, a) as real * s.timeBase1.num as real / s.timeBase1.den as real;
            && var seconds2 := CurPts2(in2, b) as real * s.timeBase2.num as real / s.timeBase2.den as real;
            && (out[j].stream == 1 && a < |in1| ==> seconds1 > seconds2)
            && (out[j].stream == 0 && b < |in2| ==> seconds1 <= seconds2)
  {
    hide MergeFrom, CurPts1, CurPts2, Only, Setup.Later;
    MergeRule(s, in1, in2, 0, 0, j);
    var out := MergeFrom(s, in1, in2, 0, 0);
    var a, b := |Only(out[..j], 0)|, |Only(out[..j], 1)|;
    LaterInSeconds(s, CurPts1(s, in1, a), CurPts2(in2, b));
  }

  lemma {:induction false} UnstampedCount(ps: seq<Packet>, n: nat)
    requires n <= |ps|
    ensures Unstamped(ps[..n]) == |set i | 0 <= i < n && ps[i].pts == -0x8000_0000_0000_0000|
    decreases n
  {
    hide Unstamped;
    if n > 0 {
      UnstampedCount(ps, n - 1);
      UnstampedNext(ps, n - 1);
      var before := set i | 0 <= i < n - 1 && ps[i].pts == -0x8000_0000_0000_0000;
      var upTo := set i | 0 <= i < n && ps[i].pts == -0x8000_0000_0000_0000;
      if ps[n - 1].pts == -0x8000_0000_0000_0000 {
        assert upTo == before + {n - 1};
      } else {
        assert upTo == before;
      }
    } else {
      assert ps[..0] == [];
      NoneUnstamped(ps[..0]);
    }
  }

  /** What is remembered: the last generated time of the first input, the last own one of the second. */
  lemma RememberedTimes(s: Setup, in1: seq<Packet>, in2: seq<Packet>, a: nat, b: nat)
    requires a <= |in1| && b <= |in2|
    ensures var n := |set i | 0 <= i < a && in1[i].pts == -0x8000_0000_0000_0000|;
            CurPts1(s, in1, a) == if n == 0 then 0 else s.stamp(n - 1)
    ensures CurPts2(in2, b) == if b == 0 then 0 else in2[b - 1].pts
  {
    hide Unstamped;
    UnstampedCount(in1, a);
  }

  /** The packets of each output stream, field by field. */
  lemma MergedFields(s: Setup, in1: seq<Packet>, in2: seq<Packet>)
    ensures var first, second := Only(MergeFrom(s, in1, in2, 0, 0), 0), Only(MergeFrom(s, in1, in2, 0, 0), 1);
            && |first| == |in1| && |second| == |in2|
            && (forall i :: 0 <= i < |in1| ==>
                  var p, q := in1[i], first[i];
                  && q.data == p.data && q.pos == -1 && q.stream == 0 && q.dts == q.pts
                  && (p.pts != -0x8000_0000_0000_0000 ==>
                        q.pts == s.rescale1(p.pts) && q.duration == s.duration1(p.duration)))
            && (forall k :: 0 <= k < |in2| ==>
                  var p, q := in2[k], second[k];
                  && q.data == p.data && q.pos == -1 && q.stream == 1 && q.dts == q.pts
                  && q.pts == s.rescale2(p.pts) && q.duration == s.duration2(p.duration))
  {
    hide MergeFrom, Only;
    MergeKeepsStreams(s, in1, in2, 0, 0);
  }

  /** Packets without a timestamp get the generated ones in order. */
  lemma GeneratedTimes(s: Setup, in1: seq<Packet>, in2: seq<Packet>, i: nat)
    requires i < |in1| && in1[i].pts == -0x8000_0000_0000_0000
    ensures var first := Only(MergeFrom(s, in1, in2, 0, 0), 0);
            && |first| == |in1|
            && first[i].pts == s.rescale1(s.stamp(|set k | 0 <= k < i && in1[k].pts == -0x8000_0000_0000_0000|))
            && first[i].duration == s.duration1(s.frameDuration)
  {
    hide MergeFrom, Only, Unstamped;
    MergeKeepsStreams(s, in1, in2, 0, 0);
    UnstampedCount(in1, i);
  }

  /** Nothing of the second input comes before the end of the first. */
  ghost predicate NeverLater(s: Setup, in1: seq<Packet>, i: nat)
    requires i <= |in1|
  {
    forall a :: i <= a < |in1| ==> !s.Later(CurPts1(s, in1, a), 0)
  }

  lemma {:induction false} SecondAlone(s: Setup, in1: seq<Packet>, in2: seq<Packet>, k: nat)
    requires k <= |in2|
    ensures MergeFrom(s, in1, in2, |in1|, k) == All2(s, in2)[k..]
    decreases |in2| - k
  {
    hide Written2;
    if k < |in2| {
      SecondAlone(s, in1, in2, k + 1);
      assert All2(s, in2)[k..] == [All2(s, in2)[k]] + All2(s, in2)[k + 1..];
    }
  }

  lemma {:induction false} ConcatenationFrom(s: Setup, in1: seq<Packet>, in2: seq<Packet>, i: nat)
    requires i <= |in1|
    ensures MergeFrom(s, in1, in2, i, 0) == All1(s, in1)[i..] + All2(s, in2)
            <==> in2 == [] || NeverLater(s, in1, i)
    decreases |in1| - i
  {
    hide Written1, Written2, CurPts1;
    var out := MergeFrom(s, in1, in2, i, 0);
    if i == |in1| {
      SecondAlone(s, in1, in2, 0);
      assert out == [] + All2(s, in2);
    } else {
      assert All1(s, in1)[i..] == [All1(s, in1)[i]] + All1(s, in1)[i + 1..];
      var rest := All1(s, in1)[i + 1..] + All2(s, in2);
      assert All1(s, in1)[i..] + All2(s, in2) == [Written1(s, in1, i)] + rest;
      if in2 == [] || !s.Later(CurPts1(s, in1, i), 0) {
        ConcatenationFrom(s, in1, in2, i + 1);
        assert out == [Written1(s, in1, i)] + MergeFrom(s, in1, in2, i + 1, 0);
        assert out == [Written1(s, in1, i)] + rest <==> out[1..] == rest;
        assert out[1..] == MergeFrom(s, in1, in2, i + 1, 0);
      } else {
        assert out[0].stream == 1;
      }
    }
  }

  /**
   The output is all of the first input followed by all of the second, exactly if there is no
   second or the time remembered for the first never gets later than zero.
   */
  lemma ConcatenatesIff(s: Setup, in1: seq<Packet>, in2: seq<Packet>)
    ensures MergeFrom(s, in1, in2, 0, 0) == All1(s, in1) + All2(s, in2) <==> in2 == [] || NeverLater(s, in1, 0)
  {
    hide MergeFrom, NeverLater;
    assert All1(s, in1)[0..] == All1(s, in1);
    ConcatenationFrom(s, in1, in2, 0);
  }

  /** The remembered time moves only for packets without a timestamp, so a first input that has them
      all is not interleaved with the second, whatever the timestamps are. */
  lemma {:induction false} TimestampedInputsAreNotInterleaved(s: Setup, in1: seq<Packet>, in2: seq<Packet>)
    requires forall i :: 0 <= i < |in1| ==> in1[i].pts != NO_PTS
    ensures MergeFrom(s, in1, in2, 0, 0) == All1(s, in1) + All2(s, in2)
  {
    forall a | 0 <= a < |in1|
      ensures !s.Later(CurPts1(s, in1, a), 0)
    {
      NoneUnstamped(in1[..a]);
    }
    ConcatenatesIff(s, in1, in2);
  }

  lemma {:induction false} NoneUnstamped(ps: seq<Packet>)
    requires forall i :: 0 <= i < |ps| ==> ps[i].pts != NO_PTS
    ensures Unstamped(ps) == 0
    decreases |ps|
  {
    if ps != [] {
      NoneUnstamped(ps[..|ps| - 1]);
    }
  }

  // ----- the loop

  /** How many packets of an input can be written: up to the first whose write fails, none without a stream. */
  function Writable(present: bool, length: nat, fails: nat -> bool): (n: nat)
    ensures n <= length
  {
    if !present || length == 0 then 0 else
    var n := Writable(present, length - 1, fails);
    if n < length - 1 || fails(length - 1) then n else length
  }

  /** The packets that can be written end where there is none or its write fails. */
  lemma {:induction false} WritableNext(length: nat, fails: nat -> bool, i: nat)
    requires i <= Writable(true, length, fails)
    ensures i < Writable(true, length, fails) <==> i < length && !fails(i)
    decreases length
  {
    if length > 0 {
      if i <= Writable(true, length - 1, fails) {
        WritableNext(length - 1, fails, i);
      }
    }
  }

  lemma WritableAbsent(length: nat, fails: nat -> bool)
    ensures Writable(false, length, fails) == 0
  {
  }

  /** Rewrites the next packet of the first input; one without a timestamp gets the next generated one. */
  method TakeFirst(s: Setup, in1: seq<Packet>, i: nat, packetsBefore: nat, curPts1Before: int)
    returns (pkt: Packet, packets: nat, curPts1: int)
    requires i < |in1| && packetsBefore == Unstamped(in1[..i]) && curPts1Before == CurPts1(s, in1, i)
    ensures pkt == Written1(s, in1, i)
    ensures packets == Unstamped(in1[..i + 1]) && curPts1 == CurPts1(s, in1, i + 1)
  {
    UnstampedNext(in1, i);
    hide Unstamped;
    pkt, packets, curPts1 := in1[i], packetsBefore, curPts1Before;
    if pkt.pts == NO_PTS {
      pkt := pkt.(pts := s.stamp(packets));
      curPts1 := pkt.pts;
      pkt := pkt.(duration := s.frameDuration);
      packets := packets + 1;
    }
    pkt := pkt.(pts := s.rescale1(pkt.pts));
    pkt := pkt.(dts := pkt.pts, duration := s.duration1(pkt.duration), pos := -1, stream := 0);
  }

  /** Rewrites the next packet of the second input and remembers its timestamp. */
  method TakeSecond(s: Setup, in2: seq<Packet>, k: nat) returns (pkt: Packet, curPts2: int)
    requires k < |in2|
    ensures pkt == Written2(s, in2, k) && curPts2 == CurPts2(in2, k + 1)
  {
    pkt := in2[k];
    curPts2 := pkt.pts;
    pkt := pkt.(pts := s.rescale2(pkt.pts));
    pkt := pkt.(dts := pkt.pts, duration := s.duration2(pkt.duration), pos := -1, stream := 1);
  }

  /** `out` is what the merge writes before `i` and `k` packets have been taken. */
  ghost predicate WrittenSoFar(s: Setup, a: seq<Packet>, b: seq<Packet>, i: nat, k: nat, out: seq<Packet>) {
    i <= |a| && k <= |b| && out + MergeFrom(s, a, b, i, k) == MergeFrom(s, a, b, 0, 0)
  }

  /** The merge loop; `fails1` and `fails2` tell which packet of each input the muxer refuses. */
  method MergeFiles(s: Setup, in1: seq<Packet>, in2: seq<Packet>, present1: bool, present2: bool,
                    fails1: nat -> bool, fails2: nat -> bool)
    returns (out: seq<Packet>)
    ensures out == MergeFrom(s, in1[..Writable(present1, |in1|, fails1)],
                             in2[..Writable(present2, |in2|, fails2)], 0, 0)
  {
    NoneUnstamped(in1[..0]);
    WritableAbsent(|in1|, fails1);
    WritableAbsent(|in2|, fails2);
    NothingTaken(s, in1, in2);
    hide MergeFrom, Unstamped, Writable, Written1, Written2, CurPts1, CurPts2, Setup.Later, WrittenSoFar;
    ghost var n1, n2 := Writable(present1, |in1|, fails1), Writable(present2, |in2|, fails2);
    ghost var a, b := in1[..n1], in2[..n2];
    out := [];
    var stream1, stream2 := present1, present2;
    var curPts1, curPts2, packets := 0, 0, 0;
    var next1, next2 := 0, 0;
    assert in1[..0] == [];
    NothingWritten(s, a, b);
    while stream1 || stream2
      invariant next1 <= n1 && next2 <= n2
      invariant stream1 ==> present1 && packets == Unstamped(in1[..next1]) && curPts1 == CurPts1(s, in1, next1)
      invariant stream2 ==> present2 && curPts2 == CurPts2(in2, next2)
      invariant !stream1 ==> next1 == n1
      invariant !stream2 ==> next2 == n2
      invariant WrittenSoFar(s, a, b, next1, next2, out)
      decreases (if stream1 then 1 else 0) + (if stream2 then 1 else 0), n1 - next1 + n2 - next2
    {
      SamePrefix(s, in1, a, next1, n1);
      SameTime(s, in2, b, next2, n2);
      if stream1 && (!stream2 || !s.Later(curPts1, curPts2)) {
        if next1 == |in1| {
          stream1 := false;
          continue;
        }
        WritableNext(|in1|, fails1, next1);
        var pkt;
        pkt, packets, curPts1 := TakeFirst(s, in1, next1, packets, curPts1);
        if fails1(next1) {
          stream1 := false;
        } else {
          StepFirst(s, a, b, next1, next2, out);
          out := out + [pkt];
          next1 := next1 + 1;
        }
      } else if stream2 {
        if next2 == |in2| {
          stream2 := false;
          continue;
        }
        WritableNext(|in2|, fails2, next2);
        var pkt;
        pkt, curPts2 := TakeSecond(s, in2, next2);
        if fails2(next2) {
          stream2 := false;
        } else {
          StepSecond(s, a, b, next1, next2, out);
          out := out + [pkt];
          next2 := next2 + 1;
        }
      }
    }
    MergeEnd(s, a, b, out);
  }

  lemma NothingWritten(s: Setup, a: seq<Packet>, b: seq<Packet>)
    ensures WrittenSoFar(s, a, b, 0, 0, [])
  {
  }

  lemma MergeEnd(s: Setup, a: seq<Packet>, b: seq<Packet>, out: seq<Packet>)
    requires WrittenSoFar(s, a, b, |a|, |b|, out)
    ensures out == MergeFrom(s, a, b, 0, 0)
  {
  }

  /** What the loop remembers does not depend on the packets behind the cursor. */
  lemma SamePrefix(s: Setup, in1: seq<Packet>, a: seq<Packet>, i: nat, n: nat)
    requires i <= n <= |in1| && a == in1[..n]
    ensures CurPts1(s, a, i) == CurPts1(s, in1, i)
    ensures i < n ==> Written1(s, a, i) == Written1(s, in1, i)
  {
    assert a[..i] == in1[..i];
  }

  lemma UnstampedNext(ps: seq<Packet>, i: nat)
    requires i < |ps|
    ensures Unstamped(ps[..i + 1]) == Unstamped(ps[..i]) + (if ps[i].pts == NO_PTS then 1 else 0)
  {
    assert ps[..i + 1][..i] == ps[..i];
  }

  lemma SameTime(s: Setup, in2: seq<Packet>, b: seq<Packet>, k: nat, n: nat)
    requires k <= n <= |in2| && b == in2[..n]
    ensures CurPts2(b, k) == CurPts2(in2, k)
    ensures k < n ==> Written2(s, b, k) == Written2(s, in2, k)
  {
  }

  lemma NothingTaken(s: Setup, in1: seq<Packet>, in2: seq<Packet>)
    ensures CurPts1(s, in1, 0) == 0 && CurPts2(in2, 0) == 0
  {
  }

  lemma StepFirst(s: Setup, a: seq<Packet>, b: seq<Packet>, i: nat, k: nat, out: seq<Packet>)
    requires i < |a| && WrittenSoFar(s, a, b, i, k, out)
    requires k == |b| || !s.Later(CurPts1(s, a, i), CurPts2(b, k))
    ensures WrittenSoFar(s, a, b, i + 1, k, out + [Written1(s, a, i)])
  {
  }

  lemma StepSecond(s: Setup, a: seq<Packet>, b: seq<Packet>, i: nat, k: nat, out: seq<Packet>)
    requires k < |b| && WrittenSoFar(s, a, b, i, k, out)
    requires i == |a| || s.Later(CurPts1(s, a, i), CurPts2(b, k))
    ensures WrittenSoFar(s, a, b, i, k + 1, out + [Written2(s, b, k)])
  {
  }
}
