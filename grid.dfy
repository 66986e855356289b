/** Cells, grids and movements of the candy grid engine, with the two
    operations that build whole grids and movement lists from scratch. */
module GameGrid {

  datatype Option<T> = None | Some(value: T)

  /** A texture handle. Only its identity matters to the engine;
      `NoSprite` is the texture of an empty slot. */
  datatype Sprite = NoSprite | Surface(id: nat)

  /** A grid element: the candy's name (None for an empty slot) and its texture. */
  datatype Cell = Cell(name: Option<string>, sprite: Sprite)

  /** The `(None, None)` element the engine writes into every slot it empties. */
  const EmptyCell := Cell(None, NoSprite)

  /** The engine tests emptiness on the name alone. */
  predicate IsEmpty(c: Cell) { c.name.None? }

  /** Rows top to bottom, each row left to right: `g[y][x]`. */
  type Grid = seq<seq<Cell>>

  function Width(g: Grid): nat { if |g| == 0 then 0 else |g[0]| }

  predicate IsRect(g: Grid) { forall y :: 0 <= y < |g| ==> |g[y]| == Width(g) }

  predicate InGrid(g: Grid, p: Pos) { p.y < |g| && p.x < |g[p.y]| }

  datatype Pos = Pos(x: nat, y: nat)

  /** `(from_x, from_y, to_x, to_y, cell)`; a new cell has no origin. */
  datatype Movement = Movement(from: Option<Pos>, to: Pos, cell: Cell)

  /** The order in which the engine visits slots: bottom row first, and
      left to right within a row. */
  predicate Before(p: Pos, q: Pos) { p.y > q.y || (p.y == q.y && p.x < q.x) }

  /** Some movement of `ms` lands on `p`; `spawned` selects new cells
      (no origin) or cells that fall from another slot. */
  predicate LandsAt(ms: seq<Movement>, p: Pos, spawned: bool)
  {
    exists j :: 0 <= j < |ms| && ms[j].to == p && ms[j].from.None? == spawned
  }

  lemma LandsAtAppend(ms: seq<Movement>, m: Movement, p: Pos, spawned: bool)
    requires LandsAt(ms, p, spawned) || (m.to == p && m.from.None? == spawned)
    ensures LandsAt(ms + [m], p, spawned)
  {
    if LandsAt(ms, p, spawned) {
      var j :| 0 <= j < |ms| && ms[j].to == p && ms[j].from.None? == spawned;
      assert (ms + [m])[j] == ms[j];
    } else {
      assert (ms + [m])[|ms|] == m;
    }
  }

  /** Number of slots of rows `y..` of a possibly ragged grid. */
  function SlotsFrom(g: Grid, y: nat): nat
    decreases |g| - y
  {
    if y >= |g| then 0 else |g[y]| + SlotsFrom(g, y + 1)
  }

  lemma {:induction false} SlotsOfRect(g: Grid, y: nat)
    requires IsRect(g) && y <= |g|
    ensures SlotsFrom(g, y) == (|g| - y) * Width(g)
    decreases |g| - y
  {
    if y < |g| {
      SlotsOfRect(g, y + 1);
      calc {
        SlotsFrom(g, y);
        Width(g) + (|g| - (y + 1)) * Width(g);
        (|g| - y) * Width(g);
      }
    }
  }

  /** An `h` by `w` grid of `(None, None)` slots; a non-positive size gives
      no rows or empty rows, as Python's `range` and list repetition do. */
  method GenerateGrid(w: int, h: int) returns (grid: Grid)
    ensures |grid| == (if h > 0 then h else 0)
    ensures forall y :: 0 <= y < |grid| ==> |grid[y]| == (if w > 0 then w else 0)
    ensures forall y, x :: 0 <= y < |grid| && 0 <= x < |grid[y]| ==> grid[y][x] == EmptyCell
  {
    var width := if w > 0 then w else 0;
    grid := [];
    var i := 0;
    while i < h
      invariant 0 <= i <= (if h > 0 then h else 0)
      invariant |grid| == i
      invariant forall y :: 0 <= y < |grid| ==> |grid[y]| == width
      invariant forall y, x :: 0 <= y < |grid| && 0 <= x < |grid[y]| ==> grid[y][x] == EmptyCell
    {
      grid := grid + [seq(width, _ => EmptyCell)];
      i := i + 1;
    }
  }

  /** Slot `p` comes before the scan position `(x, y)` of a scan that
      runs bottom row first, left to right; the position may lie just
      outside the grid (`y == -1` once the scan is over). */
  predicate Processed(p: Pos, y: int, x: int) { p.y > y || (p.y == y && p.x < x) }

  /** `moves` lists one new-cell movement for each slot the scan of
      `movements_from_grid` has passed on reaching `(x, y)`, in scan order. */
  predicate Listed(g: Grid, moves: seq<Movement>, y: int, x: nat)
    requires -1 <= y
  {
    |moves| == SlotsFrom(g, y + 1) + x
    && (forall j :: 0 <= j < |moves| ==>
          moves[j].from == None && InGrid(g, moves[j].to) && moves[j].cell == g[moves[j].to.y][moves[j].to.x]
          && Processed(moves[j].to, y, x))
    && (forall i, j :: 0 <= i < j < |moves| ==> Before(moves[i].to, moves[j].to))
    && (forall r, c :: 0 <= r < |g| && 0 <= c < |g[r]| && Processed(Pos(c, r), y, x) ==>
          LandsAt(moves, Pos(c, r), true))
  }

  /** One new-cell movement per slot, bottom row first and left to right:
      every slot of `g` is the destination of exactly one movement, which
      carries the slot's cell and has no origin. */
  method MovementsFromGrid(g: Grid) returns (moves: seq<Movement>)
    ensures |moves| == SlotsFrom(g, 0)
    ensures forall j :: 0 <= j < |moves| ==>
      moves[j].from == None && InGrid(g, moves[j].to) && moves[j].cell == g[moves[j].to.y][moves[j].to.x]
    ensures forall i, j :: 0 <= i < j < |moves| ==> Before(moves[i].to, moves[j].to)
    ensures forall y, x :: 0 <= y < |g| && 0 <= x < |g[y]| ==> LandsAt(moves, Pos(x, y), true)
  {
    moves := [];
    var y := |g| - 1;
    while y >= 0
      invariant -1 <= y < |g|
      invariant Listed(g, moves, y, 0)
    {
      moves := RowMovements(g, y, moves);
      y := y - 1;
    }
  }

  /** Row `y` of `movements_from_grid`, left to right. */
  method RowMovements(g: Grid, y: nat, moves: seq<Movement>) returns (moves': seq<Movement>)
    requires y < |g| && Listed(g, moves, y, 0)
    ensures Listed(g, moves', y - 1, 0)
  {
    moves' := moves;
    var x := 0;
    while x < |g[y]|
      invariant 0 <= x <= |g[y]|
      invariant Listed(g, moves', y, x)
    {
      var m := Movement(None, Pos(x, y), g[y][x]);
      ListedAppend(g, moves', y, x, m);
      moves' := moves' + [m];
      x := x + 1;
    }
  }

  lemma ListedAppend(g: Grid, moves: seq<Movement>, y: nat, x: nat, m: Movement)
    requires y < |g| && x < |g[y]| && Listed(g, moves, y, x) && m == Movement(None, Pos(x, y), g[y][x])
    ensures Listed(g, moves + [m], y, x + 1)
  {
    var moves' := moves + [m];
    assert forall j :: 0 <= j < |moves| ==> moves'[j] == moves[j];
    forall r, c | 0 <= r < |g| && 0 <= c < |g[r]| && Processed(Pos(c, r), y, x + 1)
      ensures LandsAt(moves', Pos(c, r), true)
    {
      LandsAtAppend(moves, m, Pos(c, r), true);
    }
  }
}
