# Snake game core, modelled in Dafny

A model of the deterministic game logic of the 2D canvas Snake game in
`src/main.ts`. It covers the bounding-box collision test, the `Snake` state
(a body of points with the head first, a heading, a segment size and a step
length) with its constructor and its `setDirection`, `move` and
`checkCollisions` operations, the string key of a point (`Point.toStr`) with
the `split(",")` / `parseInt` parse-back, and `createFood`, which picks a free
grid cell for new food.

Files and modules:

- `wrappers.dfy` (`Wrappers`): `Option` (standing for `NaN` / `undefined`) and `Result`.
- `geometry.dfy` (`Geometry`): `BlockSize` (25), `Point`, `Rect` and the inclusive `Collides` test.
- `point_key.dfy` (`PointKey`): the decimal rendering of integers, `ToStr`, `Split`, `ParseInt` and `Decode`.
- `snake.dfy` (`Snakes`): `Direction`, `Snake`, `NewSnake`, `SetDirection`, `Advance`, `Move` and `CheckCollisions`.
- `aliasing.dfy` (`Aliasing`): `move` as written, with object references (see Findings).
- `food.dfy` (`Food`): the grid enumeration, the deletions and the choice in `createFood`.

The collision test follows the code, which is inclusive (`>=` and `<=`).
Boxes that only share an edge or a corner collide. On a grid of pitch 25,
a cell therefore collides with each of its eight neighbours
(`Geometry.SquaresCollideIffNear`). This is not the strict overlap test
usually used for this purpose; the model follows the code.

`setDirection` has no buffered "next direction" in this file. Each call is
judged against the heading left by the previous call. Two calls between moves
can therefore reverse a longer snake (`Snakes.TwoCallsCanReverse`), although
a single call never can (`Snakes.SetDirectionNeverReverses`).

The canvas size, the snake body and the food list are explicit parameters of
`Food.CreateFood`. The random pick is an arbitrary choice (`:|`) among the
remaining keys. When no key is left, the program reads `undefined` and its
`split` throws. The model returns `Failure(NoFreeCell)` in that case.

## Model

| member | source | states |
|---|---|---|
| Geometry.CollidesIffCommonPoint | src/main.ts:30-35 | for boxes of non-negative size, the test holds exactly when the two closed boxes share a point |
| Geometry.CollidesSymmetric | src/main.ts:30-35 | the test does not depend on the order of its arguments |
| Geometry.CollidesReflexive | src/main.ts:30-35 | a box of non-negative size collides with itself |
| Geometry.TouchingBoxesCollide | src/main.ts:30-35 | boxes that share only an edge or only a corner are reported as colliding |
| Geometry.SquaresCollideIffNear | src/main.ts:30-35 | two squares of edge s collide exactly when their corners are at most s apart on both axes |
| PointKey.IntToStr | src/main.ts:19 | the rendering of a coordinate is non-empty and has no comma, so the comma in a key is unambiguous |
| PointKey.NatToStrRoundTrip | src/main.ts:19 | reading the decimal digits of a natural number back gives the number |
| PointKey.Split | src/main.ts:150-151 | `split` yields at least one part and no part contains the separator |
| PointKey.JoinSplit | src/main.ts:150-151 | joining the parts with the separator gives back the original string |
| PointKey.SplitAtFirst | src/main.ts:150-151 | a separator-free prefix followed by the separator becomes the first part |
| PointKey.ParseIntRoundTrip | src/main.ts:150-151 | `parseInt` of the rendering of any integer gives that integer |
| PointKey.ParseIntSkipsSpace | src/main.ts:150-151 | a leading white-space character (tab, vertical tab, form feed, byte order mark, any space separator, any line terminator) does not change what `parseInt` reads |
| PointKey.DecodeToStr | src/main.ts:149-152 | parsing the key of any point back gives the same point |
| PointKey.ToStrInjective | src/main.ts:125-145 | two points have the same key exactly when they are equal, so the key dictionary stands for a set of points |
| Snakes.NewSnake | src/main.ts:43-50 | a fresh snake has exactly one segment, at (x, y), heading None, with size and speed equal to the block size |
| Snakes.NewSnakeStaysPut | src/main.ts:43-50 | a fresh snake is a connected chain and moving it leaves it unchanged |
| Snakes.SetDirection | src/main.ts:70-84 | the body is never changed; a one-segment snake takes any heading; a longer one takes the request exactly when it is on the other axis from the current heading |
| Snakes.SetDirectionNeverReverses | src/main.ts:72-83 | on a longer snake one call never yields the opposite of the current heading |
| Snakes.SetDirectionDropsNonTurns | src/main.ts:73-83 | on a longer snake, a reversal, a same-axis request, a None request or any request while the heading is None leaves the snake unchanged |
| Snakes.SetDirectionIdempotent | src/main.ts:70-84 | repeating the same request changes nothing more |
| Snakes.TwoCallsCanReverse | src/main.ts:70-84 | "up" then "left" turns a longer snake heading right into heading left before it moves |
| Snakes.Advance | src/main.ts:90-104 | the head moves by speed times the unit vector of the heading: Up is y minus speed, Right is x plus speed, Down is y plus speed, Left is x minus speed, None stays |
| Snakes.AdvanceOpposite | src/main.ts:90-104 | stepping along a heading and then along its opposite returns to the start |
| Snakes.AdvanceStaysOnAxis | src/main.ts:90-104 | a real heading moves the head exactly speed along its own axis and leaves the other coordinate unchanged |
| Snakes.Move | src/main.ts:85-105 | length, heading, size and speed are kept; each segment i from 1 on takes the old position of segment i-1; the head advances along the heading; the loop agrees with the value-semantics reference `Moved` |
| Snakes.MovePreservesConnected | src/main.ts:85-105 | with a heading, moving keeps consecutive segments one step apart on one axis |
| Snakes.MoveWithoutHeading | src/main.ts:85-105 | with heading None a longer snake's head stays and segment 1 lands on it |
| Snakes.CheckCollisions | src/main.ts:52-66 | true exactly when the head's box meets the box of some segment at index 3 or later; always false for fewer than 4 segments |
| Snakes.NeckAlwaysTouchesHead | src/main.ts:54-55 | under the inclusive test, segment 1 of a connected snake always touches the head, so it cannot be part of the self-collision check |
| Aliasing.AliasedMove | src/main.ts:85-105 | the reference-semantics move keeps every reference valid and keeps the length |
| Aliasing.AliasedNeckSitsOnHead | src/main.ts:88 | as written, segment 1 shows the new head position after every move |
| Aliasing.AliasedMoveDiverges | src/main.ts:86-102 | whenever the head moves, the as-written segment 1 differs from the old head position the comment promises |
| Aliasing.AliasedAgreesOnOneSegment | src/main.ts:85-105 | for a one-segment body, reference and value semantics give the same positions |
| Aliasing.AliasingExample | src/main.ts:86-102 | a two-segment example where the as-written move stacks both segments and the value move does not |
| Food.GridKeys | src/main.ts:125-131 | the collected keys are exactly the keys of the cells at multiples of 25 inside [0, width) x [0, height) |
| Food.RemoveCells | src/main.ts:132-145 | the deletion loops remove exactly the keys of the given cells |
| Food.KeyOfCell | src/main.ts:134-145 | a point's key is among the deleted keys exactly when the point is one of the deleted cells |
| Food.RemainingKeys | src/main.ts:132-152 | after the deletions every free cell's key remains, and every remaining key decodes to a free cell |
| Food.CreateFood | src/main.ts:124-154 | on success the food list grows by exactly one cell, keeps the old list as its prefix, and the new cell is on the grid, inside the canvas, off the snake and off the existing food; it fails exactly when no such cell exists |

## Left out

- Drawing (`gameDraw`), the canvas and its 2D context: presentation only.
- The keydown listener and its key mapping: input wiring; its effect is a call of `SetDirection`.
- The `setInterval` game loop: timer scheduling. The loop also discards the result of `checkCollisions`.
- The random pick: modelled as an arbitrary choice among the free cells, not as a uniform distribution.
- The empty `snakeDeath` stub and the food colour: they have no behaviour.
- The module globals `player`, `foodArr` and `canvas`: replaced by explicit parameters.
- Growth on eating, death, boundary checks and buffered turns: `src/main.ts` has none of them.
- Coordinates are unbounded integers. JavaScript numbers are doubles, and `toString` switches to exponent notation from 10^21 on. Canvas coordinates are far below that.
- Snakes.Move: requires a non-empty body. The constructor creates one segment and nothing removes segments. On an empty body the program throws on the head update when the heading is not `None`, and does nothing when it is `None`.
- PointKey.ParseInt: the `0x` hexadecimal prefix is not modelled. A key part never starts with it.
- PointKey.Decode: a `NaN` coordinate is modelled as `None` rather than as a point with a `NaN` coordinate. Keys built by `ToStr` never give one.

## Findings

| source | as written | input that shows it | evidently intended | confidence | as-written member | corrected member |
|---|---|---|---|---|---|---|
| src/main.ts:88 | the loop copies object references, so segment 1 shares the head object, and the in-place head update at lines 93-102 also moves segment 1 | body (25,0), (0,0) heading Right with speed 25 gives (50,0), (50,0) | each segment takes its predecessor's old position, as the comment at line 86 says: (50,0), (25,0) | not executed; high, though unobservable here because the body never grows beyond one segment | Aliasing.AliasingExample | Snakes.Move |
