/** Points, axis-aligned boxes and the bounding-box collision test of the game. */
module Geometry {

  /** Edge length of one grid cell, in pixels; also the snake's step length. */
  const BlockSize: int := 25

  /** A position in pixels. */
  datatype Point = Point(x: int, y: int)

  /** An axis-aligned box with top-left corner (x, y), width w and height h. */
  datatype Rect = Rect(x: int, y: int, w: int, h: int)

  /** The box covered by a square of edge `size` whose top-left corner is `p`. */
  function CellRect(p: Point, size: int): Rect
  {
    Rect(p.x, p.y, size, size)
  }

  /** The game's collision test. It is inclusive: boxes that only share an edge
      or a corner collide. */
  predicate Collides(r1: Rect, r2: Rect)
  {
    r1.x + r1.w >= r2.x && r1.x <= r2.x + r2.w && r1.y + r1.h >= r2.y && r1.y <= r2.y + r2.h
  }

  /** `p` lies in the closed box `r` (its boundary included). */
  predicate InClosedRect(p: Point, r: Rect)
  {
    r.x <= p.x <= r.x + r.w && r.y <= p.y <= r.y + r.h
  }

  function Max(a: int, b: int): int
  {
    if a >= b then a else b
  }

  lemma CollidesSymmetric(r1: Rect, r2: Rect)
    ensures Collides(r1, r2) <==> Collides(r2, r1)
  {
  }

  lemma CollidesReflexive(r: Rect)
    requires r.w >= 0 && r.h >= 0
    ensures Collides(r, r)
  {
  }

  /** Boxes that share only an edge, or only a corner, still collide. */
  lemma TouchingBoxesCollide(x: int, y: int, w: int, h: int, w2: int, h2: int)
    requires w >= 0 && h >= 0 && w2 >= 0 && h2 >= 0
    ensures Collides(Rect(x, y, w, h), Rect(x + w, y, w2, h2))
    ensures Collides(Rect(x, y, w, h), Rect(x, y + h, w2, h2))
    ensures Collides(Rect(x, y, w, h), Rect(x + w, y + h, w2, h2))
  {
  }

  /** Reference definition: for boxes of non-negative size, the test holds
      exactly when the two closed boxes have a point in common. */
  lemma CollidesIffCommonPoint(r1: Rect, r2: Rect)
    requires r1.w >= 0 && r1.h >= 0 && r2.w >= 0 && r2.h >= 0
    ensures Collides(r1, r2) <==> exists p :: InClosedRect(p, r1) && InClosedRect(p, r2)
  {
    if Collides(r1, r2) {
      var p := Point(Max(r1.x, r2.x), Max(r1.y, r2.y));
      assert InClosedRect(p, r1) && InClosedRect(p, r2);
    }
  }

  /** For two squares of the same edge `s`, the test holds exactly when their
      corners are at most `s` apart on each axis: on a grid of pitch `s` a cell
      collides with itself and with all eight neighbours. */
  lemma SquaresCollideIffNear(p: Point, q: Point, s: int)
    requires s >= 0
    ensures Collides(CellRect(p, s), CellRect(q, s)) <==> -s <= p.x - q.x <= s && -s <= p.y - q.y <= s
  {
  }
}
