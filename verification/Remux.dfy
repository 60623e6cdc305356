/** Remuxing: numbering the streams that are kept, and routing packets to them (remuxing.c). */
module Remux {
  import opened Packets

  datatype MediaType = Video | Audio | Subtitle | Data | Attachment | Unknown

  predicate Kept(t: MediaType) {
    t in {Audio, Video, Subtitle}
  }

  /** How many of the first `n` streams are kept. */
  function KeptBefore(types: seq<MediaType>, n: nat): (k: nat)
    requires n <= |types|
    ensures k <= n
  {
    if n == 0 then 0 else KeptBefore(types, n - 1) + (if Kept(types[n - 1]) then 1 else 0)
  }

  /** The output stream of an input stream, or -1. */
  function Target(types: seq<MediaType>, i: nat): (t: int)
    requires i < |types|
    ensures t >= -1 && (t >= 0 <==> Kept(types[i]))
  {
    if Kept(types[i]) then KeptBefore(types, i) else -1
  }

  lemma {:induction false} KeptBeforeGrows(types: seq<MediaType>, i: nat, j: nat)
    requires i <= j <= |types|
    ensures KeptBefore(types, i) <= KeptBefore(types, j)
    ensures i < j && Kept(types[i]) ==> KeptBefore(types, i) < KeptBefore(types, j)
    decreases j
  {
    if i < j {
      KeptBeforeGrows(types, i, j - 1);
    }
  }

  /** Kept streams keep their order, so no two share an output stream. */
  lemma TargetsOrdered(types: seq<MediaType>, i: nat, j: nat)
    requires i < j < |types| && Kept(types[i]) && Kept(types[j])
    ensures 0 <= Target(types, i) < Target(types, j) < KeptBefore(types, |types|)
  {
    KeptBeforeGrows(types, i, j);
    KeptBeforeGrows(types, j, |types|);
  }

  /** Every output stream has an input stream. */
  lemma {:induction false} TargetsCover(types: seq<MediaType>, n: nat, t: nat) returns (i: nat)
    requires n <= |types| && t < KeptBefore(types, n)
    ensures i < n && Target(types, i) == t
    decreases n
  {
    if t < KeptBefore(types, n - 1) {
      i := TargetsCover(types, n - 1, t);
    } else {
      i := n - 1;
    }
  }

  /** Audio, video and subtitle streams are kept, and numbered by counting those before. */
  lemma {:induction false} KeptCount(types: seq<MediaType>, n: nat)
    requires n <= |types|
    ensures KeptBefore(types, n) == |set j | 0 <= j < n && types[j] in {Audio, Video, Subtitle}|
    decreases n
  {
    if n > 0 {
      KeptCount(types, n - 1);
      var before := set j | 0 <= j < n - 1 && types[j] in {Audio, Video, Subtitle};
      var upTo := set j | 0 <= j < n && types[j] in {Audio, Video, Subtitle};
      if types[n - 1] in {Audio, Video, Subtitle} {
        assert upTo == before + {n - 1};
      } else {
        assert upTo == before;
      }
    }
  }

  lemma TargetNumber(types: seq<MediaType>, i: nat)
    requires i < |types|
    ensures Target(types, i) == if types[i] in {Audio, Video, Subtitle}
                                then |set j | 0 <= j < i && types[j] in {Audio, Video, Subtitle}| else -1
  {
    KeptCount(types, i);
  }

  /** Fills in `stream_mapping`. */
  method MapStreams(types: seq<MediaType>) returns (mapping: array<int>, count: nat)
    ensures fresh(mapping) && mapping.Length == |types| && count == KeptBefore(types, |types|)
    ensures forall i :: 0 <= i < |types| ==> mapping[i] == Target(types, i)
  {
    mapping := new int[|types|];
    var streamIndex := 0;
    for i := 0 to |types|
      invariant streamIndex == KeptBefore(types, i)
      invariant forall k :: 0 <= k < i ==> mapping[k] == Target(types, k)
    {
      if types[i] != Audio && types[i] != Video && types[i] != Subtitle {
        mapping[i] := -1;
        continue;
      }
      mapping[i] := streamIndex;
      streamIndex := streamIndex + 1;
    }
    count := streamIndex;
  }

  // ----- routing

  /** The library's time base conversions of each input stream. */
  datatype Rescaling = Rescaling(timestamp: (nat, int) -> int, duration: (nat, int) -> int)

  /** A packet belongs to a stream that is known and kept. */
  predicate Routed(types: seq<MediaType>, p: Packet) {
    p.stream < |types| && Kept(types[p.stream])
  }

  /** A packet of a kept stream as it is written. */
  function Rewritten(r: Rescaling, types: seq<MediaType>, p: Packet): (q: Packet)
    requires Routed(types, p)
    ensures q.stream == Target(types, p.stream) && q.data == p.data
  {
    Packet(r.timestamp(p.stream, p.pts), r.timestamp(p.stream, p.dts), r.duration(p.stream, p.duration), -1,
           Target(types, p.stream), p.data)
  }

  /** All packets of kept streams, as they are written. */
  function Route(r: Rescaling, types: seq<MediaType>, packets: seq<Packet>): (out: seq<Packet>) {
    if packets == [] then [] else
    var k := |packets| - 1;
    Route(r, types, packets[..k]) + (if Routed(types, packets[k]) then [Rewritten(r, types, packets[k])] else [])
  }

  /** The packets of one input stream, as they are written. */
  function RouteOne(r: Rescaling, types: seq<MediaType>, packets: seq<Packet>, i: nat): (out: seq<Packet>)
    requires i < |types| && Kept(types[i])
  {
    if packets == [] then [] else
    var k := |packets| - 1;
    RouteOne(r, types, packets[..k], i) + (if packets[k].stream == i then [Rewritten(r, types, packets[k])] else [])
  }

  /** Each output stream receives exactly the packets of its input stream, in order. */
  lemma {:induction false} RouteDelivers(r: Rescaling, types: seq<MediaType>, packets: seq<Packet>, i: nat)
    requires i < |types| && Kept(types[i])
    ensures Only(Route(r, types, packets), Target(types, i)) == RouteOne(r, types, packets, i)
    decreases |packets|
  {
    if packets != [] {
      hide Rewritten, Target, Kept;
      var k := |packets| - 1;
      var p, out := packets[k], Route(r, types, packets[..k]);
      RouteDelivers(r, types, packets[..k], i);
      if Routed(types, p) {
        OnlyLast(out, Rewritten(r, types, p), Target(types, i));
        if p.stream < i {
          TargetsOrdered(types, p.stream, i);
        } else if i < p.stream {
          TargetsOrdered(types, i, p.stream);
        }
      } else {
        assert out + [] == out;
        assert p.stream != i;
      }
    }
  }

  /** Field by field: the packets of a kept stream, in its own time base before and its target's behind. */
  lemma {:induction false} RouteFields(r: Rescaling, types: seq<MediaType>, packets: seq<Packet>, i: nat)
    requires i < |types| && types[i] in {Audio, Video, Subtitle}
    ensures Target(types, i) >= 0
    ensures var ps, qs := Only(packets, i), Only(Route(r, types, packets), Target(types, i));
            && |qs| == |ps|
            && forall k :: 0 <= k < |ps| ==>
                 var p, q := ps[k], qs[k];
                 && q.pts == r.timestamp(i, p.pts) && q.dts == r.timestamp(i, p.dts)
                 && q.duration == r.duration(i, p.duration) && q.pos == -1 && q.data == p.data
  {
    hide Only, Route, RouteOne;
    RouteDelivers(r, types, packets, i);
    RouteOneFields(r, types, packets, i);
  }

  lemma {:induction false} RouteOneFields(r: Rescaling, types: seq<MediaType>, packets: seq<Packet>, i: nat)
    requires i < |types| && Kept(types[i])
    ensures var ps, qs := Only(packets, i), RouteOne(r, types, packets, i);
            && |qs| == |ps|
            && forall k :: 0 <= k < |ps| ==> ps[k].stream == i && qs[k] == Rewritten(r, types, ps[k])
    decreases |packets|
  {
    hide Rewritten, Target, Kept;
    if packets != [] {
      var k := |packets| - 1;
      RouteOneFields(r, types, packets[..k], i);
      assert packets == packets[..k] + [packets[k]];
      OnlyLast(packets[..k], packets[k], i);
    }
  }

  /** Nothing reaches a stream that is not there: only kept input streams are written. */
  lemma {:induction false} RouteOnlyKept(r: Rescaling, types: seq<MediaType>, packets: seq<Packet>)
    ensures forall j :: 0 <= j < |Route(r, types, packets)| ==>
              Route(r, types, packets)[j].stream < KeptBefore(types, |types|)
    decreases |packets|
  {
    if packets != [] {
      hide Rewritten;
      var k := |packets| - 1;
      RouteOnlyKept(r, types, packets[..k]);
      if Routed(types, packets[k]) {
        KeptBeforeGrows(types, packets[k].stream, |types|);
      }
    }
  }

  /** How many of the packets are taken before the muxer refuses one; `fails` tells which writes it refuses. */
  function Taken(types: seq<MediaType>, packets: seq<Packet>, fails: nat -> bool, from: nat): (n: nat)
    requires from <= |packets|
    ensures from <= n <= |packets|
    ensures forall k :: from <= k < n ==> !(Routed(types, packets[k]) && fails(k))
    ensures n < |packets| ==> Routed(types, packets[n]) && fails(n)
    decreases |packets| - from
  {
    if from == |packets| || (Routed(types, packets[from]) && fails(from)) then from
    else Taken(types, packets, fails, from + 1)
  }

  /** The packet loop: it ends with the input or with the first refused write. */
  method RoutePackets(r: Rescaling, types: seq<MediaType>, mapping: array<int>, packets: seq<Packet>,
                      fails: nat -> bool)
    returns (ok: bool, out: seq<Packet>)
    requires mapping.Length == |types| && forall i :: 0 <= i < |types| ==> mapping[i] == Target(types, i)
    ensures var n := Taken(types, packets, fails, 0);
            out == Route(r, types, packets[..n]) && (ok <==> n == |packets|)
  {
    out := [];
    for i := 0 to |packets|
      invariant out == Route(r, types, packets[..i])
      invariant Taken(types, packets, fails, 0) == Taken(types, packets, fails, i)
    {
      var pkt := packets[i];
      assert packets[..i + 1][..i] == packets[..i];
      if pkt.stream >= mapping.Length || mapping[pkt.stream] < 0 {
        assert out + [] == out;
        continue;
      }
      if fails(i) {
        return false, out;
      }
      var stream := pkt.stream;
      pkt := pkt.(stream := mapping[stream]);
      pkt := pkt.(pts := r.timestamp(stream, pkt.pts), dts := r.timestamp(stream, pkt.dts));
      pkt := pkt.(duration := r.duration(stream, pkt.duration), pos := -1);
      out := out + [pkt];
    }
    assert packets[..|packets|] == packets;
    ok := true;
  }
}
