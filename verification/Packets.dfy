/** The packets the remuxing programs pass from their inputs to their outputs. */
module Packets {
  import opened Bytes
  import opened Sequences

  datatype Packet = Packet(pts: int, dts: int, duration: int, pos: int, stream: nat, data: seq<byte>)

  /** The length of one time unit of a stream, in seconds. */
  datatype TimeBase = TimeBase(num: int, den: int)

  /** The packets of one stream. */
  function Only(ps: seq<Packet>, stream: nat): (r: seq<Packet>) {
    if ps == [] then [] else (if ps[0].stream == stream then [ps[0]] else []) + Only(ps[1..], stream)
  }

  lemma {:induction false} OnlyAppend(a: seq<Packet>, b: seq<Packet>, stream: nat)
    ensures Only(a + b, stream) == Only(a, stream) + Only(b, stream)
  {
    if a == [] {
      assert a + b == b;
    } else {
      assert (a + b)[1..] == a[1..] + b;
      OnlyAppend(a[1..], b, stream);
      Associative(if a[0].stream == stream then [a[0]] else [], Only(a[1..], stream), Only(b, stream));
    }
  }

  lemma OnlyLast(ps: seq<Packet>, p: Packet, stream: nat)
    ensures Only(ps + [p], stream) == Only(ps, stream) + (if p.stream == stream then [p] else [])
  {
    OnlyAppend(ps, [p], stream);
    assert [p][1..] == [];
  }
}
