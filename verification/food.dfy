/** `createFood`: collect the keys of all grid cells inside the canvas, delete
    the keys of the snake's segments and of the existing food, pick one of the
    remaining keys, parse it back into a point and append that to the food
    list. */
module Food {
  import opened Geometry
  import opened Wrappers
  import opened PointKey

  /** The one way `createFood` fails: no cell is left (in the program,
      reading the undefined pick throws). */
  datatype FoodError = NoFreeCell

  /** A grid cell of the canvas: coordinates that are multiples of the block
      size, inside [0, width) x [0, height). */
  predicate OnGrid(p: Point, width: int, height: int)
  {
    0 <= p.x < width && 0 <= p.y < height && p.x % BlockSize == 0 && p.y % BlockSize == 0
  }

  /** A cell on which food may be placed. */
  predicate IsFree(p: Point, width: int, height: int, body: seq<Point>, food: seq<Point>)
  {
    OnGrid(p, width, height) && p !in body && p !in food
  }

  /** The keys of a set of cells. */
  function Keys(cells: set<Point>): set<string>
  {
    set p | p in cells :: ToStr(p)
  }

  /** The keys of the cells listed in a sequence. */
  function KeysOf(cells: seq<Point>): set<string>
  {
    Keys(set c | c in cells)
  }

  lemma KeysAdd(cells: set<Point>, p: Point)
    ensures Keys(cells + {p}) == Keys(cells) + {ToStr(p)}
  {
  }

  /** A grid cell visited by the loops once they have reached column `i`, row
      `j`: an earlier column, or an earlier row of column `i`. */
  predicate Visited(p: Point, i: int, j: int, height: int)
  {
    p.x % BlockSize == 0 && p.y % BlockSize == 0 && 0 <= p.y < height && 0 <= p.x <= i
    && (p.x < i || p.y < j)
  }

  lemma VisitedNextRow(p: Point, i: int, j: int, height: int)
    requires 0 <= i && i % BlockSize == 0 && 0 <= j && j % BlockSize == 0 && j < height
    ensures Visited(p, i, j + BlockSize, height) <==> Visited(p, i, j, height) || p == Point(i, j)
  {
    if p.x == i && p.y % BlockSize == 0 && j <= p.y < j + BlockSize {
      assert (p.y - j) % BlockSize == 0;
      assert p.y == j;
    }
  }

  lemma VisitedNextColumn(p: Point, i: int, j: int, height: int)
    requires 0 <= i && i % BlockSize == 0 && j >= height
    ensures Visited(p, i, j, height) <==> Visited(p, i + BlockSize, 0, height)
  {
  }

  lemma VisitedIsGrid(p: Point, i: int, width: int, height: int)
    requires 0 <= i && i % BlockSize == 0 && width <= i && (i == 0 || i - BlockSize < width)
    ensures Visited(p, i, 0, height) <==> OnGrid(p, width, height)
  {
  }

  /** The two nested loops over the canvas that fill `possible_pts`. */
  method GridKeys(width: int, height: int) returns (keys: set<string>)
    ensures forall p :: OnGrid(p, width, height) ==> ToStr(p) in keys
    ensures forall k :: k in keys ==> exists p :: OnGrid(p, width, height) && k == ToStr(p)
  {
    keys := {};
    ghost var cells: set<Point> := {};
    var i := 0;
    while i < width
      invariant 0 <= i && i % BlockSize == 0
      invariant i == 0 || i - BlockSize < width
      invariant keys == Keys(cells)
      invariant forall p :: p in cells <==> Visited(p, i, 0, height)
      decreases width - i
    {
      var j := 0;
      while j < height
        invariant 0 <= j && j % BlockSize == 0
        invariant keys == Keys(cells)
        invariant forall p :: p in cells <==> Visited(p, i, j, height)
        decreases height - j
      {
        KeysAdd(cells, Point(i, j));
        forall p
          ensures Visited(p, i, j + BlockSize, height) <==> Visited(p, i, j, height) || p == Point(i, j)
        {
          VisitedNextRow(p, i, j, height);
        }
        cells := cells + {Point(i, j)};
        keys := keys + {ToStr(Point(i, j))};
        j := j + BlockSize;
      }
      forall p
        ensures Visited(p, i, j, height) <==> Visited(p, i + BlockSize, 0, height)
      {
        VisitedNextColumn(p, i, j, height);
      }
      i := i + BlockSize;
    }
    forall p
      ensures Visited(p, i, 0, height) <==> OnGrid(p, width, height)
    {
      VisitedIsGrid(p, i, width, height);
    }
  }

  /** The `forEach` loops that delete the keys of the given cells. */
  method RemoveCells(keys: set<string>, cells: seq<Point>) returns (rest: set<string>)
    ensures rest == keys - KeysOf(cells)
  {
    rest := keys;
    var n := 0;
    while n < |cells|
      invariant n <= |cells|
      invariant rest == keys - KeysOf(cells[..n])
    {
      if ToStr(cells[n]) in rest {
        rest := rest - {ToStr(cells[n])};
      }
      assert cells[..n + 1] == cells[..n] + [cells[n]];
      n := n + 1;
    }
    assert cells[..n] == cells;
  }

  /** A point's key is among the keys of some cells exactly when the point is
      one of those cells. */
  lemma KeyOfCell(p: Point, cells: seq<Point>)
    ensures ToStr(p) in KeysOf(cells) <==> p in cells
  {
    if ToStr(p) in KeysOf(cells) {
      var c :| c in cells && ToStr(c) == ToStr(p);
      ToStrInjective(c, p);
    }
  }

  /** After the deletions, the remaining keys are exactly the keys of the
      free cells, and each of them decodes to its free cell. */
  lemma RemainingKeys(grid: set<string>, keys: set<string>, width: int, height: int,
                      body: seq<Point>, food: seq<Point>)
    requires forall p :: OnGrid(p, width, height) ==> ToStr(p) in grid
    requires forall k :: k in grid ==> exists p :: OnGrid(p, width, height) && k == ToStr(p)
    requires keys == grid - KeysOf(body) - KeysOf(food)
    ensures forall p :: IsFree(p, width, height, body, food) ==> ToStr(p) in keys
    ensures forall k :: k in keys ==> Decode(k).Some? && IsFree(Decode(k).value, width, height, body, food)
  {
    forall p | IsFree(p, width, height, body, food)
      ensures ToStr(p) in keys
    {
      KeyOfCell(p, body);
      KeyOfCell(p, food);
    }
    forall k | k in keys
      ensures Decode(k).Some? && IsFree(Decode(k).value, width, height, body, food)
    {
      var p :| OnGrid(p, width, height) && k == ToStr(p);
      DecodeToStr(p);
      KeyOfCell(p, body);
      KeyOfCell(p, food);
    }
  }

  /** `createFood` on an explicit canvas size, snake body and food list; the
      random pick is an arbitrary choice among the remaining keys. */
  method CreateFood(width: int, height: int, body: seq<Point>, food: seq<Point>)
    returns (r: Result<seq<Point>, FoodError>)
    ensures r.Success? ==> |r.value| == |food| + 1 && r.value[..|food|] == food
                           && IsFree(r.value[|food|], width, height, body, food)
    ensures r.Failure? <==> forall p :: !IsFree(p, width, height, body, food)
  {
    var grid := GridKeys(width, height);
    var keys := RemoveCells(grid, body);
    keys := RemoveCells(keys, food);
    RemainingKeys(grid, keys, width, height, body, food);
    if keys == {} {
      return Failure(NoFreeCell);
    }
    var key :| key in keys;
    var cell := Decode(key).value;
    r := Success(food + [cell]);
    assert r.value[..|food|] == food;
  }
}
