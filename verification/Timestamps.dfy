/**
 The presentation timestamps the x264 command line gives to its frames: the pulldown clock and
 the repair of timestamps that do not increase, both inside the frame loop of `encode`.
 Pulldown time is counted in half ticks, because every frame lasts a multiple of half a tick.
 */
module Timestamps {
  import opened Results
  import opened Arithmetic

  // ----- pulldown

  datatype Pulldown = P22 | P32 | P64 | Double | Triple | Euro

  const TB := 4
  const BT := 5
  const TBT := 6
  const BTB := 7
  const DOUBLE := 8
  const TRIPLE := 9

  /** `pulldown_frame_duration`, indexed by picture structure, in half ticks. */
  const HALF_TICKS: seq<nat> := [0, 2, 1, 1, 2, 2, 3, 3, 4, 6]

  /** The repeating picture structures of `pulldown_values`. */
  function Pattern(m: Pulldown): (p: seq<nat>)
    ensures |p| > 0
    ensures forall i :: 0 <= i < |p| ==> p[i] in {TB, BT, TBT, BTB, DOUBLE, TRIPLE}
  {
    match m
    case P22 => [TB]
    case P32 => [TBT, BT, BTB, TB]
    case P64 => [DOUBLE, TRIPLE]
    case Double => [DOUBLE]
    case Triple => [TRIPLE]
    case Euro => [TBT, BT, BT, BT, BT, BT, BT, BT, BT, BT, BT, BT,
                  BTB, TB, TB, TB, TB, TB, TB, TB, TB, TB, TB, TB]
  }

  /** The declared ratio of output to input frame rate, numerator and denominator. */
  function Factor(m: Pulldown): (f: (nat, nat))
    ensures f.1 > 0
  {
    match m
    case P22 => (1, 1)
    case P32 => (5, 4)
    case P64 => (1, 1)
    case Double => (2, 1)
    case Triple => (3, 1)
    case Euro => (25, 24)
  }

  function Structure(m: Pulldown, n: nat): (s: nat)
    ensures s in {TB, BT, TBT, BTB, DOUBLE, TRIPLE}
  {
    Pattern(m)[n % |Pattern(m)|]
  }

  /** The time before frame `n`, in half ticks. */
  function HalfTicks(m: Pulldown, n: nat): (h: nat) {
    if n == 0 then 0 else HalfTicks(m, n - 1) + HALF_TICKS[Structure(m, n - 1)]
  }

  /** The timestamp of frame `n`: its time, rounded half up. */
  function Timestamp(m: Pulldown, n: nat): (t: nat) {
    (HalfTicks(m, n) + 1) / 2
  }

  function CeilDiv(a: nat, b: nat): (c: nat)
    requires b > 0
    ensures c * b >= a && (c > 0 ==> (c - 1) * b < a)
  {
    (a + b - 1) / b
  }

  lemma EuroDuration(q: nat, r: nat)
    requires r < 24
    ensures HALF_TICKS[Structure(Euro, 24 * q + r)] == if r == 0 || r == 12 then 3 else 2
  {
    assert (24 * q + r) % 24 == r;
  }

  lemma {:induction false} EuroHalfTicks(q: nat, r: nat)
    requires r < 24
    ensures HalfTicks(Euro, 24 * q + r) == 50 * q + (if r == 0 then 0 else if r <= 12 then 2 * r + 1 else 2 * r + 2)
    decreases q, r
  {
    hide Structure;
    if r > 0 {
      EuroHalfTicks(q, r - 1);
      EuroDuration(q, r - 1);
    } else if q > 0 {
      EuroHalfTicks(q - 1, 23);
      EuroDuration(q - 1, 23);
    }
  }

  lemma P32Duration(q: nat, r: nat)
    requires r < 4
    ensures HALF_TICKS[Structure(P32, 4 * q + r)] == if r % 2 == 0 then 3 else 2
  {
    assert (4 * q + r) % 4 == r;
  }

  lemma {:induction false} P32HalfTicks(q: nat, r: nat)
    requires r < 4
    ensures HalfTicks(P32, 4 * q + r) == 10 * q + (if r == 0 then 0 else if r == 1 then 3 else if r == 2 then 5 else 8)
    decreases q, r
  {
    hide Structure;
    if r > 0 {
      P32HalfTicks(q, r - 1);
      P32Duration(q, r - 1);
    } else if q > 0 {
      P32HalfTicks(q - 1, 3);
      P32Duration(q - 1, 3);
    }
  }

  lemma P64Duration(q: nat, r: nat)
    requires r < 2
    ensures HALF_TICKS[Structure(P64, 2 * q + r)] == if r == 0 then 4 else 6
  {
    assert (2 * q + r) % 2 == r;
  }

  lemma {:induction false} P64HalfTicks(q: nat, r: nat)
    requires r < 2
    ensures HalfTicks(P64, 2 * q + r) == 10 * q + 4 * r
    decreases q, r
  {
    hide Structure;
    if r > 0 {
      P64HalfTicks(q, 0);
      P64Duration(q, 0);
    } else if q > 0 {
      P64HalfTicks(q - 1, 1);
      P64Duration(q - 1, 1);
    }
  }

  lemma {:induction false} ConstantHalfTicks(m: Pulldown, n: nat)
    requires m in {P22, Double, Triple}
    ensures HalfTicks(m, n) == (if m == P22 then 2 else if m == Double then 4 else 6) * n
  {
    if n > 0 {
      ConstantHalfTicks(m, n - 1);
    }
  }

  lemma EuroClosedForm(n: nat)
    ensures Timestamp(Euro, n) == (n * 25 + 23) / 24
  {
    hide HalfTicks;
    var q, r := n / 24, n % 24;
    assert n == 24 * q + r;
    EuroHalfTicks(q, r);
    assert n * 25 + 23 == 24 * (25 * q + r) + (r + 23);
  }

  lemma P32ClosedForm(n: nat)
    ensures Timestamp(P32, n) == (n * 5 + 3) / 4
  {
    hide HalfTicks;
    var q, r := n / 4, n % 4;
    assert n == 4 * q + r;
    P32HalfTicks(q, r);
    assert n * 5 + 3 == 4 * (5 * q + r) + (r + 3);
  }

  lemma P64ClosedForm(n: nat)
    ensures Timestamp(P64, n) == 5 * n / 2
  {
    hide HalfTicks;
    var q, r := n / 2, n % 2;
    assert n == 2 * q + r;
    P64HalfTicks(q, r);
    DivModUnique(10 * q + 4 * r + 1, 5 * q + 2 * r, 1, 2);
    DivModUnique(5 * n, 5 * q + 2 * r, r, 2);
  }

  /**
   Closed form: frame `n` is stamped with its time at the declared ratio, rounded up, in every
   mode but 64, whose table entry declares a ratio its frame durations do not have.
   */
  lemma TimestampClosedForm(m: Pulldown, n: nat)
    ensures Timestamp(m, n) == CeilDiv(n * Factor(m).0, Factor(m).1) <==> m != P64 || n == 0
  {
    hide HalfTicks;
    match m
    case Euro => EuroClosedForm(n);
    case P32 => P32ClosedForm(n);
    case P64 => P64ClosedForm(n);
    case _ => ConstantHalfTicks(m, n);
  }

  lemma TimestampIncreases(m: Pulldown, n: nat)
    ensures Timestamp(m, n) < Timestamp(m, n + 1)
  {
    assert HALF_TICKS[Structure(m, n)] >= 2;
  }

  // ----- repair of timestamps that do not increase

  /** The timestamps the encoder gets for `raw` when the largest one so far is `largest`. */
  function Repair(raw: seq<int>, step: nat, largest: int): (r: seq<int>)
    ensures |r| == |raw|
  {
    if raw == [] then [] else
    var p := if raw[0] <= largest then largest + step else raw[0];
    [p] + Repair(raw[1..], step, p)
  }

  /** How many of them are changed, with a warning each. */
  function Warnings(raw: seq<int>, step: nat, largest: int): (n: nat) {
    if raw == [] then 0 else
    if raw[0] <= largest then 1 + Warnings(raw[1..], step, largest + step)
    else Warnings(raw[1..], step, raw[0])
  }

  /** Strictly increasing, and all larger than `largest`. */
  predicate Increasing(s: seq<int>, largest: int) {
    s == [] || (s[0] > largest && Increasing(s[1..], s[0]))
  }

  /** Nowhere below `raw`. */
  ghost predicate NotBefore(s: seq<int>, raw: seq<int>) {
    |s| == |raw| && forall i :: 0 <= i < |s| ==> s[i] >= raw[i]
  }

  /** Timestamps an encoder could accept in place of `raw`. */
  ghost predicate Admissible(s: seq<int>, raw: seq<int>, largest: int) {
    Increasing(s, largest) && NotBefore(s, raw)
  }

  /** Repaired timestamps strictly increase and none comes before its original. */
  lemma {:induction false} RepairAdmissible(raw: seq<int>, step: nat, largest: int)
    requires step >= 1
    ensures Admissible(Repair(raw, step, largest), raw, largest)
  {
    if raw != [] {
      var p := if raw[0] <= largest then largest + step else raw[0];
      RepairAdmissible(raw[1..], step, p);
      var r := Repair(raw, step, largest);
      assert r[1..] == Repair(raw[1..], step, p);
      assert forall i :: 0 < i < |r| ==> r[i] == r[1..][i - 1] && raw[i] == raw[1..][i - 1];
    }
  }

  /** Timestamps are left alone exactly when they already increase, and then there is no warning. */
  lemma {:induction false} RepairIdentity(raw: seq<int>, step: nat, largest: int)
    requires step >= 1
    ensures Repair(raw, step, largest) == raw <==> Increasing(raw, largest)
    ensures Warnings(raw, step, largest) == 0 <==> Increasing(raw, largest)
  {
    if raw != [] {
      var r := Repair(raw, step, largest);
      RepairIdentity(raw[1..], step, raw[0]);
      if raw[0] > largest {
        assert r == [raw[0]] + Repair(raw[1..], step, raw[0]);
        assert raw == [raw[0]] + raw[1..];
        assert r == raw ==> r[1..] == raw[1..];
      } else {
        assert r[0] == largest + step;
      }
    }
  }

  lemma RepairIdempotent(raw: seq<int>, step: nat, largest: int)
    requires step >= 1
    ensures var r := Repair(raw, step, largest);
            Repair(r, step, largest) == r && Warnings(r, step, largest) == 0
  {
    hide Repair, Increasing;
    RepairAdmissible(raw, step, largest);
    RepairIdentity(Repair(raw, step, largest), step, largest);
  }

  /** In how many places `r` differs from `raw`. */
  function Changes(raw: seq<int>, r: seq<int>): (n: nat)
    requires |raw| == |r|
  {
    if raw == [] then 0 else (if raw[0] == r[0] then 0 else 1) + Changes(raw[1..], r[1..])
  }

  /** One warning for every changed frame. */
  lemma {:induction false} WarningsCountChanges(raw: seq<int>, step: nat, largest: int)
    requires step >= 1
    ensures Warnings(raw, step, largest) == Changes(raw, Repair(raw, step, largest))
  {
    if raw != [] {
      var p := if raw[0] <= largest then largest + step else raw[0];
      WarningsCountChanges(raw[1..], step, p);
      assert Repair(raw, step, largest)[1..] == Repair(raw[1..], step, p);
    }
  }

  /** No admissible sequence is anywhere below the repaired one. */
  ghost predicate Least(raw: seq<int>, step: nat, largest: int) {
    forall s, i :: Admissible(s, raw, largest) && 0 <= i < |raw| ==> Repair(raw, step, largest)[i] <= s[i]
  }

  lemma {:induction false} LeastPoint(raw: seq<int>, step: nat, largest: int, s: seq<int>, i: nat)
    requires step == 1 && Admissible(s, raw, largest) && i < |raw|
    ensures Repair(raw, step, largest)[i] <= s[i]
    decreases |raw|
  {
    LeastFrom(raw, largest, s, largest, i);
  }

  lemma {:induction false} LeastFrom(raw: seq<int>, largest: int, s: seq<int>, largestOfS: int, i: nat)
    requires Increasing(s, largestOfS) && NotBefore(s, raw) && largest <= largestOfS && i < |raw|
    ensures Repair(raw, 1, largest)[i] <= s[i]
    decreases |raw|
  {
    var p := if raw[0] <= largest then largest + 1 else raw[0];
    assert p <= s[0];
    if i > 0 {
      LeastFrom(raw[1..], p, s[1..], s[0], i - 1);
    }
  }

  /** A repaired timestamp that a smaller step would have kept lower. */
  lemma {:induction false} Lowered(raw: seq<int>, step: nat, largest: int) returns (s: seq<int>, i: nat)
    requires step > 1 && Warnings(raw, step, largest) > 0
    ensures Admissible(s, raw, largest) && i < |raw| && s[i] < Repair(raw, step, largest)[i]
    decreases |raw|
  {
    if raw[0] <= largest {
      RepairAdmissible(raw[1..], step, largest + step);
      var rest := Repair(raw[1..], step, largest + step);
      s, i := [largest + 1] + rest, 0;
      assert s[1..] == rest;
      assert Increasing(rest, largest + 1);
      assert forall k :: 0 < k < |s| ==> s[k] == rest[k - 1] && raw[k] == raw[1..][k - 1];
    } else {
      s, i := Lowered(raw[1..], step, raw[0]);
      var t := [raw[0]] + s;
      assert t[1..] == s;
      assert forall k :: 0 < k < |t| ==> t[k] == s[k - 1] && raw[k] == raw[1..][k - 1];
      s, i := t, i + 1;
    }
  }

  /** The repair changes as little as possible exactly if frames are one tick apart or nothing needs repair. */
  lemma RepairLeast(raw: seq<int>, step: nat, largest: int)
    requires step >= 1
    ensures Least(raw, step, largest) <==> step == 1 || Increasing(raw, largest)
  {
    hide Increasing, Repair, Warnings;
    RepairIdentity(raw, step, largest);
    if step == 1 {
      forall s, i | Admissible(s, raw, largest) && 0 <= i < |raw|
        ensures Repair(raw, step, largest)[i] <= s[i]
      {
        LeastPoint(raw, step, largest, s, i);
      }
    } else if Warnings(raw, step, largest) > 0 {
      var s, i := Lowered(raw, step, largest);
    }
  }

  /** Repair adds at most one step per frame, so it stays in range when that sum does. */
  lemma {:induction false} RepairBound(raw: seq<int>, step: nat, largest: int, bound: int, i: nat)
    requires i < |raw| && largest <= bound && forall k :: 0 <= k < |raw| ==> raw[k] <= bound
    ensures Repair(raw, step, largest)[i] <= bound + (i + 1) * step
    decreases |raw|
  {
    var p := if raw[0] <= largest then largest + step else raw[0];
    if i > 0 {
      RepairBound(raw[1..], step, p, bound + step, i - 1);
      assert bound + step + i * step == bound + (i + 1) * step;
    }
  }

  // ----- the frame loop

  /** The timestamp of frame `i` before the repair: the source's own for variable frame rate input. */
  function RawTimestamp(source: seq<int>, vfr: bool, pulldown: Option<Pulldown>, i: nat): (t: int)
    requires i < |source|
  {
    if vfr then source[i] else if pulldown.Some? then Timestamp(pulldown.value, i) else i
  }

  function RawTimestamps(source: seq<int>, vfr: bool, pulldown: Option<Pulldown>, n: nat): (r: seq<int>)
    requires n <= |source|
    ensures |r| == n
  {
    seq(n, i requires 0 <= i < n => RawTimestamp(source, vfr, pulldown, i))
  }

  /** The frame loop of `encode`, reduced to its timestamps. */
  method StampFrames(source: seq<int>, vfr: bool, pulldown: Option<Pulldown>, ticksPerFrame: nat)
    returns (pts: seq<int>, warnings: nat)
    requires ticksPerFrame >= 1
    ensures var raw := RawTimestamps(source, vfr, pulldown, |source|);
            && pts == Repair(raw, ticksPerFrame, -1)
            && warnings == Warnings(raw, ticksPerFrame, -1)
            && warnings == |Changed(pts, raw)|
  {
    hide Repair, Warnings, HalfTicks, Pattern, RawTimestamps, Changed;
    pts, warnings := [], 0;
    var largestPts, pulldownHalfTicks := -1, 0;
    ghost var raw := RawTimestamps(source, vfr, pulldown, |source|);
    assert raw[0..] == raw && [] + Repair(raw, ticksPerFrame, -1) == Repair(raw, ticksPerFrame, -1);
    NothingChanged(raw);
    if pulldown.Some? {
      ClockStart(pulldown.value);
    }
    for iFrame := 0 to |source|
      invariant |pts| == iFrame && warnings == |Changed(pts, raw)|
      invariant !vfr && pulldown.Some? ==> pulldownHalfTicks == HalfTicks(pulldown.value, iFrame)
      invariant Repair(raw, ticksPerFrame, -1) == pts + Repair(raw[iFrame..], ticksPerFrame, largestPts)
      invariant Warnings(raw, ticksPerFrame, -1) == warnings + Warnings(raw[iFrame..], ticksPerFrame, largestPts)
    {
      var p := if !vfr then iFrame else source[iFrame];
      if pulldown.Some? && !vfr {
        var picStruct := Pattern(pulldown.value)[iFrame % |Pattern(pulldown.value)|];
        ClockStep(pulldown.value, iFrame);
        p := (pulldownHalfTicks + 1) / 2;
        pulldownHalfTicks := pulldownHalfTicks + HALF_TICKS[picStruct];
      }
      RawAt(source, vfr, pulldown, iFrame);
      RepairStep(raw, ticksPerFrame, largestPts, iFrame, pts);
      if p <= largestPts {
        warnings := warnings + 1;
        p := largestPts + ticksPerFrame;
      }
      ChangedNext(pts, raw, p);
      largestPts := p;
      pts := pts + [p];
    }
    NothingToRepair(raw[|source|..], ticksPerFrame, largestPts);
    assert pts + [] == pts;
  }

  /**
   The timestamps the encoder gets.  Without variable frame rate input the number of ticks per frame
   must be positive; otherwise at least one tick is taken.
   */
  method EncodeTimestamps(source: seq<int>, vfr: bool, pulldown: Option<Pulldown>, givenTicks: int)
    returns (status: Status, pts: seq<int>, warnings: nat)
    ensures status == if givenTicks < 1 && !vfr then InvalidData else Success
    ensures status == Success ==>
              && var raw := RawTimestamps(source, vfr, pulldown, |source|);
              && var step := if givenTicks < 1 then 1 else givenTicks;
              && pts == Repair(raw, step, -1)
              && warnings == Warnings(raw, step, -1)
    ensures status == Success ==> |pts| == |source|
    ensures status == Success && !vfr ==>
              && warnings == 0
              && (pulldown in {None, Some(P22)} ==> forall i :: 0 <= i < |pts| ==> pts[i] == i)
              && (pulldown == Some(P32) ==> forall i :: 0 <= i < |pts| ==> pts[i] == (5 * i + 3) / 4)
              && (pulldown == Some(P64) ==> forall i :: 0 <= i < |pts| ==> pts[i] == 5 * i / 2)
              && (pulldown == Some(Double) ==> forall i :: 0 <= i < |pts| ==> pts[i] == 2 * i)
              && (pulldown == Some(Triple) ==> forall i :: 0 <= i < |pts| ==> pts[i] == 3 * i)
              && (pulldown == Some(Euro) ==> forall i :: 0 <= i < |pts| ==> pts[i] == (25 * i + 23) / 24)
    ensures status == Success && vfr ==>
              && warnings == |set i | 0 <= i < |pts| && pts[i] != source[i]|
              && var step := if givenTicks < 1 then 1 else givenTicks;
              && (pts != [] ==> pts[0] == if source[0] > -1 then source[0] else -1 + step)
              && (forall i :: 0 < i < |pts| ==>
                    pts[i] == if source[i] > pts[i - 1] then source[i] else pts[i - 1] + step)
              && ((source == [] || source[0] >= 0)
                  && (forall i, j :: 0 <= i < j < |source| ==> source[i] < source[j])
                  ==> pts == source && warnings == 0)
  {
    hide Repair, Warnings, RawTimestamps, Changed, Follows, Stamped, Timestamp;
    if givenTicks < 1 && !vfr {
      return InvalidData, [], 0;
    }
    var ticksPerFrame: nat := if givenTicks < 1 then 1 else givenTicks;
    pts, warnings := StampFrames(source, vfr, pulldown, ticksPerFrame);
    status := Success;
    if vfr {
      VariableRate(source, pulldown, ticksPerFrame);
      ChangedAll(pts, source);
      FollowsAll(pts, source, ticksPerFrame);
    } else {
      ConstantRate(source, pulldown, ticksPerFrame);
      if pulldown.Some? {
        StampedAll(pulldown.value, pts);
      }
    }
  }

  lemma StampedAll(m: Pulldown, pts: seq<int>)
    requires forall i :: 0 <= i < |pts| ==> Stamped(m, i, pts[i])
    ensures m == P22 ==> forall i :: 0 <= i < |pts| ==> pts[i] == i
    ensures m == P32 ==> forall i :: 0 <= i < |pts| ==> pts[i] == (5 * i + 3) / 4
    ensures m == P64 ==> forall i :: 0 <= i < |pts| ==> pts[i] == 5 * i / 2
    ensures m == Double ==> forall i :: 0 <= i < |pts| ==> pts[i] == 2 * i
    ensures m == Triple ==> forall i :: 0 <= i < |pts| ==> pts[i] == 3 * i
    ensures m == Euro ==> forall i :: 0 <= i < |pts| ==> pts[i] == (25 * i + 23) / 24
  {
  }

  /** The frames whose timestamps have been changed. */
  ghost function Changed(pts: seq<int>, raw: seq<int>): (frames: set<int>)
    requires |pts| <= |raw|
  {
    set i | 0 <= i < |pts| && pts[i] != raw[i]
  }

  lemma ChangedAll(pts: seq<int>, raw: seq<int>)
    requires |pts| == |raw|
    ensures Changed(pts, raw) == set i | 0 <= i < |pts| && pts[i] != raw[i]
  {
  }

  lemma NothingChanged(raw: seq<int>)
    ensures |Changed([], raw)| == 0
  {
  }

  lemma ChangedNext(pts: seq<int>, raw: seq<int>, p: int)
    requires |pts| < |raw|
    ensures |Changed(pts + [p], raw)| == |Changed(pts, raw)| + (if p != raw[|pts|] then 1 else 0)
  {
    var n := |pts|;
    assert Changed(pts + [p], raw) == Changed(pts, raw) + (if p != raw[n] then {n} else {});
    assert n !in Changed(pts, raw);
  }

  /** The timestamps at constant rate, in ticks. */
  lemma ConstantRate(source: seq<int>, pulldown: Option<Pulldown>, step: nat)
    requires step >= 1
    ensures var raw := RawTimestamps(source, false, pulldown, |source|);
            && Repair(raw, step, -1) == raw && Warnings(raw, step, -1) == 0
            && forall i :: 0 <= i < |raw| ==>
                 if pulldown.None? then raw[i] == i
                 else raw[i] == Timestamp(pulldown.value, i) && Stamped(pulldown.value, i, raw[i])
  {
    ConstantRateNeedsNoRepair(source, pulldown, step);
    hide Repair, Warnings, Timestamp, Stamped;
    if pulldown.Some? {
      forall i: nat | i < |source|
        ensures Stamped(pulldown.value, i, Timestamp(pulldown.value, i))
      {
        PulldownStamp(pulldown.value, i);
      }
    }
  }

  /** `t` is the time of frame `n` at the real rate of the mode, as a whole number of ticks. */
  ghost predicate Stamped(m: Pulldown, n: nat, t: int) {
    match m
    case P22 => t == n
    case P32 => t == (5 * n + 3) / 4
    case P64 => t == 5 * n / 2
    case Double => t == 2 * n
    case Triple => t == 3 * n
    case Euro => t == (25 * n + 23) / 24
  }

  lemma PulldownStamp(m: Pulldown, n: nat)
    ensures Stamped(m, n, Timestamp(m, n))
  {
    hide HalfTicks;
    match m
    case Euro => EuroClosedForm(n);
    case P32 => P32ClosedForm(n);
    case P64 => P64ClosedForm(n);
    case _ => ConstantHalfTicks(m, n);
  }

  /** Each repaired timestamp from its original and the one before it. */
  lemma {:induction false} RepairAt(raw: seq<int>, step: nat, largest: int, i: nat)
    requires i < |raw|
    ensures var r := Repair(raw, step, largest);
            var last := if i == 0 then largest else r[i - 1];
            r[i] == if raw[i] > last then raw[i] else last + step
    decreases |raw|
  {
    if i > 0 {
      RepairAt(raw[1..], step, if raw[0] <= largest then largest + step else raw[0], i - 1);
    }
  }

  /** The `i`-th timestamp follows from its original and the timestamp before it. */
  ghost predicate Follows(pts: seq<int>, source: seq<int>, step: nat, i: nat)
    requires i < |source| == |pts|
  {
    var last := if i == 0 then -1 else pts[i - 1];
    pts[i] == if source[i] > last then source[i] else last + step
  }

  lemma FollowsAll(pts: seq<int>, source: seq<int>, step: nat)
    requires |source| == |pts| && forall i :: 0 <= i < |pts| ==> Follows(pts, source, step, i)
    ensures pts != [] ==> pts[0] == if source[0] > -1 then source[0] else -1 + step
    ensures forall i :: 0 < i < |pts| ==>
              pts[i] == if source[i] > pts[i - 1] then source[i] else pts[i - 1] + step
  {
    if pts != [] {
      assert Follows(pts, source, step, 0);
    }
    forall i | 0 < i < |pts|
      ensures pts[i] == if source[i] > pts[i - 1] then source[i] else pts[i - 1] + step
    {
      assert Follows(pts, source, step, i);
    }
  }

  /** Timestamps of variable frame rate input. */
  lemma VariableRate(source: seq<int>, pulldown: Option<Pulldown>, step: nat)
    requires step >= 1
    ensures RawTimestamps(source, true, pulldown, |source|) == source
    ensures forall i :: 0 <= i < |source| ==> Follows(Repair(source, step, -1), source, step, i)
    ensures (source == [] || source[0] >= 0) && (forall i, j :: 0 <= i < j < |source| ==> source[i] < source[j])
            ==> Repair(source, step, -1) == source && Warnings(source, step, -1) == 0
  {
    hide Repair, Warnings, Increasing;
    forall i: nat | i < |source|
      ensures Follows(Repair(source, step, -1), source, step, i)
    {
      RepairAt(source, step, -1, i);
    }
    if (source == [] || source[0] >= 0) && forall i, j :: 0 <= i < j < |source| ==> source[i] < source[j] {
      StepwiseIncreasing(source, -1);
      RepairIdentity(source, step, -1);
    }
  }

  lemma RawAt(source: seq<int>, vfr: bool, pulldown: Option<Pulldown>, i: nat)
    requires i < |source|
    ensures RawTimestamps(source, vfr, pulldown, |source|)[i] == RawTimestamp(source, vfr, pulldown, i)
  {
  }

  lemma ClockStart(m: Pulldown)
    ensures HalfTicks(m, 0) == 0
  {
  }

  lemma ClockStep(m: Pulldown, n: nat)
    ensures HalfTicks(m, n + 1) == HalfTicks(m, n) + HALF_TICKS[Pattern(m)[n % |Pattern(m)|]]
  {
  }

  lemma NothingToRepair(raw: seq<int>, step: nat, largest: int)
    requires raw == []
    ensures Repair(raw, step, largest) == [] && Warnings(raw, step, largest) == 0
  {
  }

  lemma RepairStep(raw: seq<int>, step: nat, largest: int, k: nat, pts: seq<int>)
    requires k < |raw|
    ensures var p := if raw[k] <= largest then largest + step else raw[k];
            && pts + Repair(raw[k..], step, largest) == (pts + [p]) + Repair(raw[k + 1..], step, p)
            && Warnings(raw[k..], step, largest)
               == (if raw[k] <= largest then 1 else 0) + Warnings(raw[k + 1..], step, p)
  {
    assert raw[k..][1..] == raw[k + 1..];
  }

  /** With constant frame rate, or pulldown in any mode, no timestamp is ever repaired. */
  lemma ConstantRateNeedsNoRepair(source: seq<int>, pulldown: Option<Pulldown>, step: nat)
    requires step >= 1
    ensures var raw := RawTimestamps(source, false, pulldown, |source|);
            Repair(raw, step, -1) == raw && Warnings(raw, step, -1) == 0
  {
    hide Timestamp;
    var raw := RawTimestamps(source, false, pulldown, |source|);
    forall i | 0 <= i < |raw| - 1
      ensures raw[i] < raw[i + 1]
    {
      if pulldown.Some? {
        TimestampIncreases(pulldown.value, i);
      }
    }
    StepwiseIncreasing(raw, -1);
    RepairIdentity(raw, step, -1);
  }

  lemma {:induction false} StepwiseIncreasing(s: seq<int>, largest: int)
    requires forall i :: 0 <= i < |s| - 1 ==> s[i] < s[i + 1]
    requires s != [] ==> s[0] > largest
    ensures Increasing(s, largest)
  {
    if s != [] {
      StepwiseIncreasing(s[1..], s[0]);
    }
  }
}
