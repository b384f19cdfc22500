/** `move` as written, with JavaScript object references: the copy loop makes
    segment i refer to the same `Point` object as segment i-1, and the head
    object is then changed in place, so every reference to it sees the new
    position. */
module Aliasing {
  import opened Geometry
  import opened Snakes

  /** The body as references into a heap of mutable `Point` objects. */
  datatype Objects = Objects(refs: seq<nat>, heap: map<nat, Point>)

  predicate WellFormed(o: Objects)
  {
    forall i :: 0 <= i < |o.refs| ==> o.refs[i] in o.heap
  }

  /** The positions the body shows: each reference resolved in the heap. */
  function View(o: Objects): (v: seq<Point>)
    requires WellFormed(o)
    ensures |v| == |o.refs|
    ensures forall i :: 0 <= i < |v| ==> v[i] == o.heap[o.refs[i]]
    decreases |o.refs|
  {
    if |o.refs| == 0 then [] else [o.heap[o.refs[0]]] + View(o.(refs := o.refs[1..]))
  }

  /** `move` with reference semantics: copy references tail to head, then
      update the head object. */
  function AliasedMove(o: Objects, d: Direction, speed: int): (r: Objects)
    requires WellFormed(o) && |o.refs| >= 1
    ensures WellFormed(r) && |r.refs| == |o.refs|
  {
    var head := o.refs[0];
    Objects([head] + o.refs[..|o.refs| - 1], o.heap[head := Advance(o.heap[head], d, speed)])
  }

  /** As written, segment 1 always shows the new head position. */
  lemma AliasedNeckSitsOnHead(o: Objects, d: Direction, speed: int)
    requires WellFormed(o) && |o.refs| >= 2
    ensures View(AliasedMove(o, d, speed))[1] == View(AliasedMove(o, d, speed))[0]
  {
  }

  /** Whenever the head actually moves, the as-written segment 1 differs from
      the intended one (the old head position). */
  lemma AliasedMoveDiverges(o: Objects, d: Direction, speed: int, size: int)
    requires WellFormed(o) && |o.refs| >= 2 && d != None && speed != 0
    ensures View(AliasedMove(o, d, speed))[1] != Moved(Snake(d, View(o), size, speed)).body[1]
  {
    var v := View(o);
    assert Moved(Snake(d, v, size, speed)).body[1] == v[0];
  }

  /** With a single segment, the only body this program ever has, reference
      and value semantics agree. */
  lemma AliasedAgreesOnOneSegment(o: Objects, d: Direction, speed: int, size: int)
    requires WellFormed(o) && |o.refs| == 1
    ensures View(AliasedMove(o, d, speed)) == Moved(Snake(d, View(o), size, speed)).body
  {
  }

  /** A two-segment snake at (25,0),(0,0) heading right: as written both
      segments end on (50,0); by value the body becomes (50,0),(25,0). */
  lemma AliasingExample()
    ensures var o := Objects([0, 1], map[0 := Point(25, 0), 1 := Point(0, 0)]);
            View(AliasedMove(o, Right, BlockSize)) == [Point(50, 0), Point(50, 0)]
            && Moved(Snake(Right, View(o), BlockSize, BlockSize)).body == [Point(50, 0), Point(25, 0)]
  {
    var o := Objects([0, 1], map[0 := Point(25, 0), 1 := Point(0, 0)]);
    assert View(o) == [Point(25, 0), Point(0, 0)];
  }
}
