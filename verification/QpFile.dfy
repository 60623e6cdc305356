/**
 The qpfile of the x264 command line: a list of frame numbers with a forced frame type and
 quantizer, read with a moving cursor while the frames are encoded (`parse_qpfile`).
 */
module QpFile {
  import opened Results

  const QP_MAX := 81

  datatype FrameType = Auto | Idr | I | P | BRef | B | Keyframe

  /** One line of the file; the quantizer may be missing. */
  datatype Record = Record(num: int, kind: char, qp: Option<int>)

  /** What a picture is forced to; a quantizer of zero, like `Auto`, leaves the choice to the encoder. */
  datatype Forced = Forced(kind: FrameType, qpPlus1: int)

  const FREE := Forced(Auto, 0)

  function TypeOf(kind: char): (t: Option<FrameType>)
    ensures t != Some(Auto)
  {
    match kind
    case 'I' => Some(Idr)
    case 'i' => Some(I)
    case 'K' => Some(Keyframe)
    case 'P' => Some(P)
    case 'B' => Some(BRef)
    case 'b' => Some(B)
    case _ => None
  }

  predicate WellFormed(r: Record) {
    TypeOf(r.kind).Some? && (r.qp.Some? ==> -1 <= r.qp.value <= QP_MAX)
  }

  /** What a record of the current frame does to the picture, even when it is not well formed. */
  function Choice(r: Record): (f: Forced) {
    Forced(if TypeOf(r.kind).Some? then TypeOf(r.kind).value else Auto,
           if r.qp.Some? && r.qp.value >= 0 then r.qp.value + 1 else 0)
  }

  /** The letters of the file format and its range of quantizers. */
  lemma RecordFormat(r: Record)
    ensures WellFormed(r)
            <==> r.kind in {'I', 'i', 'K', 'P', 'B', 'b'} && (r.qp.None? || -1 <= r.qp.value <= 81)
    ensures r.kind == 'I' ==> Choice(r).kind == Idr
    ensures r.kind == 'i' ==> Choice(r).kind == I
    ensures r.kind == 'K' ==> Choice(r).kind == Keyframe
    ensures r.kind == 'P' ==> Choice(r).kind == P
    ensures r.kind == 'B' ==> Choice(r).kind == BRef
    ensures r.kind == 'b' ==> Choice(r).kind == B
    ensures r.kind !in {'I', 'i', 'K', 'P', 'B', 'b'} ==> Choice(r).kind == Auto
    ensures Choice(r).qpPlus1 == if r.qp.None? || r.qp.value < 0 then 0 else r.qp.value + 1
  {
  }

  // ----- lookup by frame number

  /** The first record from `at` on whose number is not below `frame`. */
  function Find(records: seq<Record>, at: nat, frame: int): (j: nat)
    requires at <= |records|
    ensures at <= j <= |records|
    ensures forall i :: at <= i < j ==> records[i].num < frame
    ensures j < |records| ==> records[j].num >= frame
    decreases |records| - at
  {
    if at == |records| || records[at].num >= frame then at else Find(records, at + 1, frame)
  }

  /** The record of `frame` that is not behind a record of a later frame. */
  function Lookup(records: seq<Record>, frame: int): (r: Option<Record>) {
    var j := Find(records, 0, frame);
    if j < |records| && records[j].num == frame then Some(records[j]) else None
  }

  /** The first record of `frame`. */
  function FirstOf(records: seq<Record>, frame: int): (r: Option<Record>) {
    if records == [] then None
    else if records[0].num == frame then Some(records[0]) else FirstOf(records[1..], frame)
  }

  /** Some record of a later frame stands before every record of `frame`. */
  ghost predicate Hidden(records: seq<Record>, frame: int) {
    exists i :: 0 <= i < |records| && records[i].num > frame && forall k :: 0 <= k < i ==> records[k].num != frame
  }

  lemma {:induction false} FindTail(records: seq<Record>, at: nat, frame: int)
    requires 0 < at <= |records|
    ensures Find(records, at, frame) == Find(records[1..], at - 1, frame) + 1
    decreases |records| - at
  {
    if at < |records| && records[at].num < frame {
      FindTail(records, at + 1, frame);
    }
  }

  /** Reading on with the cursor finds what a search of the whole file finds, unless it is hidden. */
  lemma {:induction false} LookupIsFirst(records: seq<Record>, frame: int)
    ensures Lookup(records, frame) == FirstOf(records, frame)
            <==> !(Hidden(records, frame) && FirstOf(records, frame).Some?)
  {
    if records != [] {
      var rest := records[1..];
      if records[0].num < frame {
        FindTail(records, 1, frame);
        assert Lookup(records, frame) == Lookup(rest, frame);
        LookupIsFirst(rest, frame);
        HiddenTail(records, frame);
      } else if records[0].num == frame {
        assert Lookup(records, frame) == Some(records[0]);
      } else {
        assert Lookup(records, frame) == None;
        assert Hidden(records, frame) by {
          assert 0 <= 0 < |records| && records[0].num > frame;
        }
      }
    }
  }

  /** The record of frame 3 is not found behind one of frame 5. */
  lemma LaterFrameHides(records: seq<Record>)
    requires records == [Record(5, 'I', None), Record(3, 'P', None)]
    ensures Lookup(records, 3) == None && FirstOf(records, 3) == Some(records[1])
  {
    assert records[1..][0] == records[1];
  }

  lemma HiddenTail(records: seq<Record>, frame: int)
    requires records != [] && records[0].num < frame
    ensures Hidden(records, frame) <==> Hidden(records[1..], frame)
  {
    var rest := records[1..];
    if Hidden(records, frame) {
      var i :| 0 <= i < |records| && records[i].num > frame && forall k :: 0 <= k < i ==> records[k].num != frame;
      assert rest[i - 1].num > frame && forall k :: 0 <= k < i - 1 ==> rest[k].num == records[k + 1].num;
    }
    if Hidden(rest, frame) {
      var i :| 0 <= i < |rest| && rest[i].num > frame && forall k :: 0 <= k < i ==> rest[k].num != frame;
      assert records[i + 1].num > frame && forall k :: 0 < k < i + 1 ==> records[k].num == rest[k - 1].num;
    }
  }

  ghost predicate Sorted(records: seq<Record>) {
    forall i, k :: 0 <= i < k < |records| ==> records[i].num <= records[k].num
  }

  /** In a file sorted by frame number nothing is hidden. */
  lemma SortedLookup(records: seq<Record>, frame: int)
    requires Sorted(records)
    ensures Lookup(records, frame) == FirstOf(records, frame)
  {
    LookupIsFirst(records, frame);
    if Hidden(records, frame) && FirstOf(records, frame).Some? {
      var k := FirstIndex(records, frame);
    }
  }

  lemma {:induction false} FirstIndex(records: seq<Record>, frame: int) returns (k: nat)
    requires FirstOf(records, frame).Some?
    ensures k < |records| && records[k].num == frame
    decreases |records|
  {
    if records[0].num == frame {
      k := 0;
    } else {
      k := FirstIndex(records[1..], frame);
      assert records[k + 1] == records[1..][k];
      k := k + 1;
    }
  }

  // ----- the cursor

  class Reader {
    const records: seq<Record>
    var pos: nat
    var open: bool

    ghost predicate Valid()
      reads this
    {
      pos <= |records|
    }

    constructor (records: seq<Record>)
      ensures Valid() && this.records == records && pos == 0 && open
    {
      this.records := records;
      pos, open := 0, true;
    }

    /** Reads records up to the frame; goes back before one of a later frame, closes the file on a bad one. */
    method Parse(frame: nat) returns (pic: Forced)
      requires Valid() && open
      modifies this
      ensures Valid()
      ensures var j := Find(records, old(pos), frame);
              if j < |records| && records[j].num == frame then
                pic == Choice(records[j]) && pos == j + 1 && open == WellFormed(records[j])
              else
                pic == FREE && pos == j && open
      ensures pos > old(pos) && records[pos - 1].num == frame ==>
                && (open <==> && records[pos - 1].kind in {'I', 'i', 'K', 'P', 'B', 'b'}
                              && (records[pos - 1].qp.None? || -1 <= records[pos - 1].qp.value <= 81))
                && (records[pos - 1].kind == 'I' ==> pic.kind == Idr)
                && (records[pos - 1].kind == 'i' ==> pic.kind == I)
                && (records[pos - 1].kind == 'K' ==> pic.kind == Keyframe)
                && (records[pos - 1].kind == 'P' ==> pic.kind == P)
                && (records[pos - 1].kind == 'B' ==> pic.kind == BRef)
                && (records[pos - 1].kind == 'b' ==> pic.kind == B)
    {
      pic := FREE;
      var num := -1;
      while num < frame
        invariant pos <= |records| && open
        invariant num < frame ==> pic == FREE && Find(records, pos, frame) == Find(records, old(pos), frame)
        invariant num >= frame ==> num == frame && pos > 0 && Find(records, old(pos), frame) == pos - 1
                                   && records[pos - 1].num == frame && pic == Choice(records[pos - 1])
                                   && WellFormed(records[pos - 1])
        decreases |records| - pos, if num < frame then 1 else 0
      {
        var filePos := pos;
        var kind, qp, eof := ' ', -1, pos == |records|;
        var ret := -1;
        if !eof {
          num, kind := records[pos].num, records[pos].kind;
          ret := 2;
          if records[pos].qp.Some? {
            qp, ret := records[pos].qp.value, 3;
          }
          pos := pos + 1;
        }
        pic := FREE;
        if num > frame || eof {
          pos := filePos;
          break;
        }
        if num < frame && ret >= 2 {
          continue;
        }
        if ret == 3 && qp >= 0 {
          pic := pic.(qpPlus1 := qp + 1);
        }
        if TypeOf(kind).Some? {
          pic := pic.(kind := TypeOf(kind).value);
        } else {
          ret := 0;
        }
        if ret < 2 || qp < -1 || qp > QP_MAX {
          open := false;
          break;
        }
      }
    }
  }

  // ----- consecutive frames

  /** A bad record has been met, and the file closed, before `frame`. */
  ghost predicate Closed(records: seq<Record>, start: nat, frame: nat) {
    exists g: nat :: start <= g < frame && Lookup(records, g).Some? && !WellFormed(Lookup(records, g).value)
  }

  /** What the file forces on `frame` when encoding starts at `start`. */
  ghost function ForcedFor(records: seq<Record>, start: nat, frame: nat): (f: Forced) {
    if Closed(records, start, frame) || Lookup(records, frame).None? then FREE
    else Choice(Lookup(records, frame).value)
  }

  lemma {:induction false} FindSkips(records: seq<Record>, at: nat, frame: int)
    requires at <= |records| && forall i :: 0 <= i < at ==> records[i].num < frame
    ensures Find(records, at, frame) == Find(records, 0, frame)
  {
    FindUnique(records, at, frame, Find(records, 0, frame));
  }

  lemma {:induction false} FindUnique(records: seq<Record>, at: nat, frame: int, j: nat)
    requires at <= j <= |records| && (forall i :: at <= i < j ==> records[i].num < frame)
    requires j < |records| ==> records[j].num >= frame
    ensures Find(records, at, frame) == j
    decreases |records| - at
  {
    if at < j {
      FindUnique(records, at + 1, frame, j);
    }
  }

  lemma ClosedNext(records: seq<Record>, start: nat, frame: nat)
    requires start <= frame
    ensures Closed(records, start, frame + 1)
            <==> || Closed(records, start, frame)
                 || (Lookup(records, frame).Some? && !WellFormed(Lookup(records, frame).value))
  {
    hide Lookup, WellFormed;
  }

  lemma NotYetClosed(records: seq<Record>, start: nat)
    ensures !Closed(records, start, start)
  {
  }

  /** What the cursor finds next is what a lookup finds, when all records before it are of earlier frames. */
  lemma LookupFromCursor(records: seq<Record>, at: nat, frame: nat)
    requires at <= |records| && forall i :: 0 <= i < at ==> records[i].num < frame
    ensures var j := Find(records, at, frame);
            Lookup(records, frame) == if j < |records| && records[j].num == frame then Some(records[j]) else None
  {
    FindSkips(records, at, frame);
  }

  /**
   The frame loop of `encode` as far as it uses the file.  Although each call sees only the moving
   cursor, every frame gets the record a lookup in the whole file finds for it.
   */
  method ForceFrames(reader: Reader, start: nat, count: nat) returns (pics: seq<Forced>)
    requires reader.Valid() && reader.open && reader.pos == 0
    modifies reader
    ensures |pics| == count
    ensures forall i :: 0 <= i < count ==> pics[i] == ForcedFor(reader.records, start, start + i)
  {
    hide WellFormed, Choice, Lookup, Closed;
    pics := [];
    NotYetClosed(reader.records, start);
    for i := 0 to count
      invariant |pics| == i && reader.Valid()
      invariant forall k :: 0 <= k < i ==> pics[k] == ForcedFor(reader.records, start, start + k)
      invariant reader.open <==> !Closed(reader.records, start, start + i)
      invariant reader.open ==> forall k :: 0 <= k < reader.pos ==> reader.records[k].num < start + i
    {
      var pic := FREE;
      ClosedNext(reader.records, start, start + i);
      if reader.open {
        LookupFromCursor(reader.records, reader.pos, start + i);
        pic := reader.Parse(start + i);
      }
      pics := pics + [pic];
    }
  }

  /** In a sorted file of well-formed records every frame is forced to the first record with its number. */
  lemma SortedForcing(records: seq<Record>, start: nat, frame: nat)
    requires Sorted(records) && start <= frame
    requires forall i :: 0 <= i < |records| ==> WellFormed(records[i])
    ensures var r := FirstOf(records, frame);
            ForcedFor(records, start, frame) == if r.None? then FREE else Choice(r.value)
  {
    hide WellFormed;
    SortedLookup(records, frame);
  }

  // ----- files printed from a list of forced pictures

  /** What is to be forced on a frame. */
  datatype Order = Order(num: int, forced: Forced)

  function Letter(t: FrameType): (c: char)
    requires t != Auto
  {
    match t
    case Idr => 'I'
    case I => 'i'
    case Keyframe => 'K'
    case P => 'P'
    case BRef => 'B'
    case B => 'b'
  }

  /** A frame type has to be given, and a quantizer of at most 81 or none. */
  predicate Printable(o: Order) {
    o.forced.kind != Auto && 0 <= o.forced.qpPlus1 <= 82
  }

  function Printed(o: Order): (r: Record)
    requires Printable(o)
  {
    Record(o.num, Letter(o.forced.kind), if o.forced.qpPlus1 == 0 then None else Some(o.forced.qpPlus1 - 1))
  }

  function PrintAll(orders: seq<Order>): (records: seq<Record>)
    requires forall i :: 0 <= i < |orders| ==> Printable(orders[i])
    ensures |records| == |orders|
  {
    seq(|orders|, i requires 0 <= i < |orders| => Printed(orders[i]))
  }

  lemma PrintedReadsBack(o: Order)
    requires Printable(o)
    ensures Printed(o).num == o.num && WellFormed(Printed(o)) && Choice(Printed(o)) == o.forced
  {
  }

  /** What is printed in the order of the frames is forced on them; `pics` are those of `ForceFrames`. */
  lemma PrintedForcing(orders: seq<Order>, start: nat, pics: seq<Forced>, i: nat)
    requires forall k :: 0 <= k < |orders| ==> Printable(orders[k])
    requires forall j, k :: 0 <= j < k < |orders| ==> orders[j].num <= orders[k].num
    requires i < |pics| && pics[i] == ForcedFor(PrintAll(orders), start, start + i)
    ensures forall k :: 0 <= k < |orders| && orders[k].num == start + i
                        && (forall j :: 0 <= j < k ==> orders[j].num != start + i) ==>
              pics[i] == orders[k].forced
    ensures (forall k :: 0 <= k < |orders| ==> orders[k].num != start + i) ==> pics[i] == Forced(Auto, 0)
  {
    hide WellFormed, Choice, Printable, Printed, Lookup, ForcedFor;
    var records := PrintAll(orders);
    forall k | 0 <= k < |orders|
      ensures records[k].num == orders[k].num && WellFormed(records[k]) && Choice(records[k]) == orders[k].forced
    {
      PrintedReadsBack(orders[k]);
    }
    SortedForcing(records, start, start + i);
    FirstOfIs(records, start + i);
  }

  lemma {:induction false} FirstOfIs(records: seq<Record>, frame: int)
    ensures forall k :: 0 <= k < |records| && records[k].num == frame
                        && (forall j :: 0 <= j < k ==> records[j].num != frame) ==>
              FirstOf(records, frame) == Some(records[k])
    ensures (forall k :: 0 <= k < |records| ==> records[k].num != frame) ==> FirstOf(records, frame) == None
  {
    if FirstOf(records, frame).Some? {
      var k := FirstIndex(records, frame);
    }
    if k: nat :| k < |records| && records[k].num == frame && forall j :: 0 <= j < k ==> records[j].num != frame {
      FirstOfAt(records, frame, k);
    }
  }

  lemma {:induction false} FirstOfAt(records: seq<Record>, frame: int, k: nat)
    requires k < |records| && records[k].num == frame && forall j :: 0 <= j < k ==> records[j].num != frame
    ensures FirstOf(records, frame) == Some(records[k])
    decreases k
  {
    if k > 0 {
      FirstOfAt(records[1..], frame, k - 1);
    }
  }
}
