/** The `Snake` class: a body of segments (head first), a heading, and the
    three operations the game loop and the key handler call on it. */
module Snakes {
  import opened Geometry

  datatype Direction = Up | Right | Down | Left | None

  /** The axis a direction moves along; `None` moves along neither. */
  datatype Axis = Vertical | Horizontal | NoAxis

  function AxisOf(d: Direction): Axis
  {
    match d
    case Up | Down => Vertical
    case Left | Right => Horizontal
    case None => NoAxis
  }

  /** `a` and `b` are headings on different axes. */
  predicate Perpendicular(a: Direction, b: Direction)
  {
    AxisOf(a) != NoAxis && AxisOf(b) != NoAxis && AxisOf(a) != AxisOf(b)
  }

  function Opposite(d: Direction): Direction
  {
    match d
    case Up => Down
    case Down => Up
    case Left => Right
    case Right => Left
    case None => None
  }

  /** Unit displacement of a heading on each axis (screen y grows downwards). */
  function DeltaX(d: Direction): int
  {
    if d == Right then 1 else if d == Left then -1 else 0
  }

  function DeltaY(d: Direction): int
  {
    if d == Down then 1 else if d == Up then -1 else 0
  }

  /** The snake: `size` is the edge of a segment's box, `speed` the distance
      the head travels per move. */
  datatype Snake = Snake(direction: Direction, body: seq<Point>, size: int, speed: int)

  /** `new Snake(x, y)`. */
  function NewSnake(x: int, y: int): (s: Snake)
    ensures |s.body| == 1 && s.body[0] == Point(x, y)
    ensures s.direction == None
    ensures s.size == BlockSize && s.speed == BlockSize
  {
    Snake(None, [Point(x, y)], BlockSize, BlockSize)
  }

  /** `setDirection`: a one-segment snake takes any heading; afterwards the
      two turn checks run against the (possibly just updated) heading, and
      accept only a heading on the other axis. */
  function SetDirection(s: Snake, d: Direction): (r: Snake)
    ensures r.body == s.body && r.size == s.size && r.speed == s.speed
    ensures |s.body| == 1 ==> r.direction == d
    ensures |s.body| != 1 ==> r.direction == (if Perpendicular(s.direction, d) then d else s.direction)
  {
    var current := if |s.body| == 1 then d else s.direction;
    var next :=
      if (current == Up || current == Down) && (d == Left || d == Right) then d
      else if (current == Left || current == Right) && (d == Up || d == Down) then d
      else current;
    s.(direction := next)
  }

  /** The head's new position: one step of `speed` along `d`. */
  function Advance(p: Point, d: Direction, speed: int): (q: Point)
    ensures q == Point(p.x + speed * DeltaX(d), p.y + speed * DeltaY(d))
  {
    match d
    case Up => p.(y := p.y - speed)
    case Right => p.(x := p.x + speed)
    case Down => p.(y := p.y + speed)
    case Left => p.(x := p.x - speed)
    case None => p
  }

  /** Reference definition of `move` with positions as values: the head
      advances and every other segment takes its predecessor's old place. */
  function Moved(s: Snake): Snake
    requires |s.body| >= 1
  {
    s.(body := [Advance(s.body[0], s.direction, s.speed)] + s.body[..|s.body| - 1])
  }

  /** `move`: the tail-to-head copy loop followed by the head update. */
  method Move(s: Snake) returns (t: Snake)
    requires |s.body| >= 1
    ensures t.direction == s.direction && t.size == s.size && t.speed == s.speed
    ensures |t.body| == |s.body|
    ensures forall i :: 1 <= i < |s.body| ==> t.body[i] == s.body[i - 1]
    ensures t.body[0] == Advance(s.body[0], s.direction, s.speed)
    ensures t == Moved(s)
  {
    var body := s.body;
    var i := |body| - 1;
    while i > 0
      invariant 0 <= i < |body| == |s.body|
      invariant forall k :: 0 <= k <= i ==> body[k] == s.body[k]
      invariant forall k :: i < k < |body| ==> body[k] == s.body[k - 1]
      decreases i
    {
      body := body[i := body[i - 1]];
      i := i - 1;
    }
    body := body[0 := Advance(body[0], s.direction, s.speed)];
    t := s.(body := body);
  }

  /** The head's box overlaps the box of segment `i`. */
  predicate HeadHits(s: Snake, i: int)
    requires 0 <= i < |s.body|
  {
    Collides(CellRect(s.body[0], s.size), CellRect(s.body[i], s.size))
  }

  /** `checkCollisions`: whether the head's box meets the box of any segment
      from index 3 on. */
  method CheckCollisions(s: Snake) returns (hit: bool)
    ensures hit <==> exists i :: 3 <= i < |s.body| && HeadHits(s, i)
    ensures |s.body| < 4 ==> !hit
  {
    var i := 3;
    while i < |s.body|
      invariant 3 <= i
      invariant forall k :: 3 <= k < i && k < |s.body| ==> !HeadHits(s, k)
    {
      if HeadHits(s, i) {
        return true;
      }
      i := i + 1;
    }
    return false;
  }

  /** Consecutive segments are one step of `step` apart on a single axis. */
  predicate Adjacent(p: Point, q: Point, step: int)
  {
    (p.x == q.x && (p.y - q.y == step || q.y - p.y == step))
    || (p.y == q.y && (p.x - q.x == step || q.x - p.x == step))
  }

  predicate Connected(body: seq<Point>, step: int)
  {
    forall i :: 0 <= i < |body| - 1 ==> Adjacent(body[i], body[i + 1], step)
  }

  /** A fresh snake is trivially connected and stays where it is until it is
      given a heading. */
  lemma NewSnakeStaysPut(x: int, y: int)
    ensures Connected(NewSnake(x, y).body, BlockSize)
    ensures Moved(NewSnake(x, y)) == NewSnake(x, y)
  {
  }

  /** Any heading stepped forward and then back returns to the start. */
  lemma AdvanceOpposite(p: Point, d: Direction, speed: int)
    ensures Advance(Advance(p, d, speed), Opposite(d), speed) == p
  {
  }

  /** A real heading moves the head exactly `speed` along its own axis. */
  lemma AdvanceStaysOnAxis(p: Point, d: Direction, speed: int)
    requires d != None && speed >= 0
    ensures Adjacent(p, Advance(p, d, speed), speed)
    ensures AxisOf(d) == Vertical ==> Advance(p, d, speed).x == p.x
    ensures AxisOf(d) == Horizontal ==> Advance(p, d, speed).y == p.y
  {
  }

  /** Moving keeps the body a chain of adjacent cells, provided the snake has
      a heading. */
  lemma {:induction false} MovePreservesConnected(s: Snake)
    requires |s.body| >= 1 && s.direction != None && s.speed >= 0
    requires Connected(s.body, s.speed)
    ensures Connected(Moved(s).body, s.speed)
  {
    var b := Moved(s).body;
    forall i | 0 <= i < |b| - 1
      ensures Adjacent(b[i], b[i + 1], s.speed)
    {
      if i == 0 {
        AdvanceStaysOnAxis(s.body[0], s.direction, s.speed);
      } else {
        assert b[i] == s.body[i - 1] && b[i + 1] == s.body[i];
      }
    }
  }

  /** Without a heading, a longer snake's head stays put and segment 1 lands
      on it. */
  lemma MoveWithoutHeading(s: Snake)
    requires |s.body| >= 2 && s.direction == None
    ensures Moved(s).body[0] == s.body[0] == Moved(s).body[1]
  {
  }

  /** On a longer snake one call never turns it around. */
  lemma SetDirectionNeverReverses(s: Snake, d: Direction)
    requires |s.body| > 1 && s.direction != None
    ensures SetDirection(s, d).direction != Opposite(s.direction)
  {
  }

  /** Repeating a request changes nothing more. */
  lemma SetDirectionIdempotent(s: Snake, d: Direction)
    ensures SetDirection(SetDirection(s, d), d) == SetDirection(s, d)
  {
  }

  /** A reversal, a request on the same axis, or any request while the heading
      is `None`, is dropped by a longer snake. */
  lemma SetDirectionDropsNonTurns(s: Snake, d: Direction)
    requires |s.body| > 1
    requires s.direction == None || d == None || AxisOf(d) == AxisOf(s.direction)
    ensures SetDirection(s, d) == s
  {
  }

  /** Two calls before a move are both judged against the latest heading, so
      a longer snake moving right can be turned left by "up" then "left". */
  lemma TwoCallsCanReverse()
    ensures var s := Snake(Right, [Point(25, 0), Point(0, 0)], BlockSize, BlockSize);
            SetDirection(SetDirection(s, Up), Left).direction == Opposite(s.direction)
  {
  }

  /** With the inclusive test and `size == speed`, segment 1 of a connected
      snake always touches the head; this is why the check starts later. */
  lemma NeckAlwaysTouchesHead(s: Snake)
    requires |s.body| >= 2 && s.size == s.speed >= 0
    requires Connected(s.body, s.speed)
    ensures HeadHits(s, 1)
  {
    assert Adjacent(s.body[0], s.body[1], s.speed);
    SquaresCollideIffNear(s.body[0], s.body[1], s.size);
  }
}
