/** What the result of `fill_grid` guarantees: falls go straight down,
    new cells land on top, each column receives one new cell per empty
    slot, and replaying the log onto the intermediate grid (as the game
    loop does) gives a full grid whose columns keep their order. */
module FillProperties {
  import opened GameGrid
  import opened Columns
  import opened Gravity

  /** A fall keeps its column, moves strictly down, and carries the
      non-empty cell that stood at its origin in the input. */
  lemma FallsGoDown(g: Grid, cells: seq<Cell>, moves: seq<Movement>, inter: Grid)
    requires IsRect(g) && FillResult(g, cells, moves, inter)
    ensures forall j :: 0 <= j < |moves| && moves[j].from.Some? ==>
      var src := moves[j].from.value;
      src.x == moves[j].to.x && src.y < moves[j].to.y < |g| && src.x < Width(g)
      && moves[j].cell == g[src.y][src.x] && !IsEmpty(moves[j].cell)
      && Target(Col(g, src.x), src.y) == moves[j].to.y
  {
    forall j | 0 <= j < |moves| && moves[j].from.Some?
      ensures moves[j].from.value.y < moves[j].to.y && !IsEmpty(moves[j].cell)
        && Target(Col(g, moves[j].to.x), moves[j].from.value.y) == moves[j].to.y
    {
      assert IsFall(g, moves[j]);
      SourceIsAbove(Col(g, moves[j].to.x), moves[j].to.y);
    }
  }

  /** A new cell comes from `cells` and lands in one of the top rows of its
      column, as many rows as the column had empty slots. */
  lemma SpawnsFillTopRows(g: Grid, cells: seq<Cell>, moves: seq<Movement>, inter: Grid)
    requires IsRect(g) && FillResult(g, cells, moves, inter)
    ensures forall j :: 0 <= j < |moves| && moves[j].from.None? ==>
      moves[j].cell in cells && moves[j].to.x < Width(g)
      && moves[j].to.y < EmptyCount(Col(g, moves[j].to.x))
  {
    forall j | 0 <= j < |moves| && moves[j].from.None?
      ensures moves[j].to.x < Width(g) && moves[j].to.y < EmptyCount(Col(g, moves[j].to.x))
    {
      assert IsSpawn(g, cells, moves[j]);
      HolesAreEmpties(Col(g, moves[j].to.x));
    }
  }

  /** A fall lands below the top slots a column leaves empty; a new cell
      lands among them. */
  lemma FallSpawnApart(g: Grid, cells: seq<Cell>, a: Movement, b: Movement)
    requires IsRect(g) && IsFall(g, a) && IsSpawn(g, cells, b)
    ensures a.to != b.to
  {
  }

  /** Every movement lands inside the grid, and no two land on the same slot. */
  lemma DestinationsDistinct(g: Grid, cells: seq<Cell>, moves: seq<Movement>, inter: Grid)
    requires IsRect(g) && FillResult(g, cells, moves, inter)
    ensures forall j :: 0 <= j < |moves| ==>
      moves[j].to.y < |g| && moves[j].to.x < Width(g) && InGrid(inter, moves[j].to)
    ensures forall i, j :: 0 <= i < j < |moves| ==> moves[i].to != moves[j].to
  {
    forall j | 0 <= j < |moves| ensures moves[j].to.y < |g| && moves[j].to.x < Width(g) {
      if moves[j].from.None? {
        assert IsSpawn(g, cells, moves[j]);
      }
    }
    forall i, j | 0 <= i < j < |moves| ensures moves[i].to != moves[j].to {
      if moves[i].from.None? == moves[j].from.None? {
        assert Before(moves[i].to, moves[j].to);
      } else {
        FallSpawnApart(g, cells, moves[i], moves[j]);
      }
    }
  }

  lemma {:induction false} FullRank(col: Column, k: nat)
    requires k <= |col| && forall r :: 0 <= r < |col| ==> !IsEmpty(col[r])
    ensures Rank(col, k) == k
  {
    if k > 0 {
      FullRank(col, k - 1);
    }
  }

  /** Names the first movement of a non-empty log, so that the facts
      about every logged movement can be applied to it. */
  lemma FirstMove(ms: seq<Movement>)
    ensures |ms| > 0 ==> ms[0] in ms
  {
  }

  /** On a grid with no empty slot, `fill_grid` logs nothing and returns
      the grid unchanged. */
  lemma FillFullGrid(g: Grid, cells: seq<Cell>, moves: seq<Movement>, inter: Grid)
    requires IsRect(g) && FillResult(g, cells, moves, inter) && NoEmptySlot(g)
    ensures moves == [] && inter == g
  {
    forall x | 0 <= x < Width(g) ensures Holes(Col(g, x)) == 0 && forall r :: 0 <= r < |g| ==> Target(Col(g, x), r) == r {
      var col := Col(g, x);
      FullRank(col, |col|);
      forall r | 0 <= r < |g| ensures Target(col, r) == r {
        FullRank(col, r);
      }
    }
    FallsGoDown(g, cells, moves, inter);
    SpawnsFillTopRows(g, cells, moves, inter);
    forall x | 0 <= x < Width(g) ensures EmptyCount(Col(g, x)) == 0 {
      HolesAreEmpties(Col(g, x));
    }
    FirstMove(moves);
    assert |moves| == 0;
    forall y | 0 <= y < |g| ensures inter[y] == g[y] {
      forall x | 0 <= x < Width(g) ensures inter[y][x] == g[y][x] {
        assert !MovesAway(Col(g, x), y);
      }
    }
  }

  /** Some logged fall leaves slot `p`. */
  predicate LeavesFrom(moves: seq<Movement>, p: Pos)
  {
    exists j :: 0 <= j < |moves| && moves[j].from == Some(p)
  }

  /** The intermediate grid is the input with exactly the origins of the
      logged falls blanked. */
  lemma IntermediateBlanksOrigins(g: Grid, cells: seq<Cell>, moves: seq<Movement>, inter: Grid)
    requires IsRect(g) && FillResult(g, cells, moves, inter)
    ensures |inter| == |g| && forall y :: 0 <= y < |g| ==> |inter[y]| == Width(g)
    ensures forall y, x :: 0 <= y < |g| && 0 <= x < Width(g) ==>
      inter[y][x] == if LeavesFrom(moves, Pos(x, y)) then EmptyCell else g[y][x]
  {
    forall y, x | 0 <= y < |g| && 0 <= x < Width(g)
      ensures inter[y][x] == if LeavesFrom(moves, Pos(x, y)) then EmptyCell else g[y][x]
    {
      var col := Col(g, x);
      MovesAwayIffSource(col, y);
      if MovesAway(col, y) {
        var t := Target(col, y);
        assert LandsAt(moves, Pos(x, t), false);
        var j :| 0 <= j < |moves| && moves[j].to == Pos(x, t) && moves[j].from.Some?;
        assert IsFall(g, moves[j]);
        assert moves[j].from == Some(Pos(x, y));
      }
      if LeavesFrom(moves, Pos(x, y)) {
        var j :| 0 <= j < |moves| && moves[j].from == Some(Pos(x, y));
        assert IsFall(g, moves[j]);
      }
    }
  }

  // ----- counting the new cells of a column -----

  /** Number of new-cell movements of `ms` that land in column `x`. */
  function SpawnsIn(ms: seq<Movement>, x: nat): nat
  {
    if ms == [] then 0
    else SpawnsIn(ms[..|ms| - 1], x) + (if ms[|ms| - 1].from.None? && ms[|ms| - 1].to.x == x then 1 else 0)
  }

  /** Rows of column `x` on which a new cell of `ms` lands. */
  function SpawnRows(ms: seq<Movement>, x: nat): set<nat>
  {
    if ms == [] then {}
    else SpawnRows(ms[..|ms| - 1], x) + (if ms[|ms| - 1].from.None? && ms[|ms| - 1].to.x == x then {ms[|ms| - 1].to.y} else {})
  }

  lemma {:induction false} SpawnRowsMeaning(ms: seq<Movement>, x: nat, r: nat)
    ensures r in SpawnRows(ms, x) <==> LandsAt(ms, Pos(x, r), true)
  {
    if ms != [] {
      var front := ms[..|ms| - 1];
      SpawnRowsMeaning(front, x, r);
      if LandsAt(front, Pos(x, r), true) {
        var j :| 0 <= j < |front| && front[j].to == Pos(x, r) && front[j].from.None?;
        assert ms[j] == front[j];
      }
      if LandsAt(ms, Pos(x, r), true) {
        var j :| 0 <= j < |ms| && ms[j].to == Pos(x, r) && ms[j].from.None?;
        if j < |front| {
          assert front[j] == ms[j];
        }
      }
    }
  }

  lemma {:induction false} SpawnsInDistinctRows(ms: seq<Movement>, x: nat)
    requires forall i, j :: 0 <= i < j < |ms| ==> ms[i].to != ms[j].to
    ensures SpawnsIn(ms, x) == |SpawnRows(ms, x)|
  {
    if ms != [] {
      var front, m := ms[..|ms| - 1], ms[|ms| - 1];
      SpawnsInDistinctRows(front, x);
      if m.from.None? && m.to.x == x {
        SpawnRowsMeaning(front, x, m.to.y);
        forall j | 0 <= j < |front| ensures front[j].to != m.to {
          assert front[j] == ms[j];
        }
      }
    }
  }

  /** The rows `0 .. n-1`. */
  function RowsBelow(n: nat): (rows: set<nat>)
    ensures forall r: nat :: r in rows <==> r < n
    ensures |rows| == n
  {
    if n == 0 then {} else RowsBelow(n - 1) + {n - 1}
  }

  /** Each column receives exactly one new cell per empty slot it had. */
  lemma SpawnsPerColumn(g: Grid, cells: seq<Cell>, moves: seq<Movement>, inter: Grid, x: nat)
    requires IsRect(g) && FillResult(g, cells, moves, inter) && x < Width(g)
    ensures SpawnsIn(moves, x) == EmptyCount(Col(g, x))
  {
    DestinationsDistinct(g, cells, moves, inter);
    SpawnsInDistinctRows(moves, x);
    var col := Col(g, x);
    HolesAreEmpties(col);
    forall r: nat ensures r in SpawnRows(moves, x) <==> r in RowsBelow(Holes(col)) {
      SpawnRowsMeaning(moves, x, r);
      if LandsAt(moves, Pos(x, r), true) {
        var j :| 0 <= j < |moves| && moves[j].to == Pos(x, r) && moves[j].from.None?;
        assert IsSpawn(g, cells, moves[j]);
      }
    }
    assert SpawnRows(moves, x) == RowsBelow(Holes(col));
  }

  // ----- replaying the log -----

  /** Writes cell `c` into slot `p`, as the game loop's assignment does. */
  function Place(grid: Grid, p: Pos, c: Cell): (out: Grid)
    requires InGrid(grid, p)
    ensures |out| == |grid| && forall y :: 0 <= y < |grid| ==> |out[y]| == |grid[y]|
    ensures out[p.y][p.x] == c
    ensures forall y, x :: 0 <= y < |grid| && 0 <= x < |grid[y]| && Pos(x, y) != p ==> out[y][x] == grid[y][x]
  {
    grid[p.y := grid[p.y][p.x := c]]
  }

  /** The game loop's replay of a movement log: each movement writes its
      cell into its destination slot, in log order. */
  function Replay(grid: Grid, moves: seq<Movement>): (out: Grid)
    requires forall j :: 0 <= j < |moves| ==> InGrid(grid, moves[j].to)
    ensures |out| == |grid| && forall y :: 0 <= y < |grid| ==> |out[y]| == |grid[y]|
  {
    if moves == [] then grid
    else
      var m := moves[|moves| - 1];
      assert InGrid(grid, m.to);
      Place(Replay(grid, moves[..|moves| - 1]), m.to, m.cell)
  }

  /** A slot that exactly one movement lands on ends with that movement's cell. */
  lemma {:induction false} ReplayLanded(grid: Grid, moves: seq<Movement>, j: nat)
    requires forall k :: 0 <= k < |moves| ==> InGrid(grid, moves[k].to)
    requires j < |moves| && forall k :: 0 <= k < |moves| && k != j ==> moves[k].to != moves[j].to
    ensures Replay(grid, moves)[moves[j].to.y][moves[j].to.x] == moves[j].cell
  {
    if j < |moves| - 1 {
      ReplayLanded(grid, moves[..|moves| - 1], j);
    }
  }

  /** A slot that no movement lands on keeps its cell. */
  lemma {:induction false} ReplayUntouched(grid: Grid, moves: seq<Movement>, p: Pos)
    requires forall k :: 0 <= k < |moves| ==> InGrid(grid, moves[k].to)
    requires InGrid(grid, p) && forall k :: 0 <= k < |moves| ==> moves[k].to != p
    ensures Replay(grid, moves)[p.y][p.x] == grid[p.y][p.x]
  {
    if moves != [] {
      ReplayUntouched(grid, moves[..|moves| - 1], p);
    }
  }

  /** Landing the log of `movements_from_grid(g)` onto a blank grid of the
      same shape, as the game does when it first shows the board, rebuilds
      `g` exactly. */
  lemma ReplayRebuildsGrid(g: Grid, blank: Grid, moves: seq<Movement>)
    requires |blank| == |g| && forall y :: 0 <= y < |g| ==> |blank[y]| == |g[y]|
    requires forall j :: 0 <= j < |moves| ==>
      InGrid(g, moves[j].to) && moves[j].cell == g[moves[j].to.y][moves[j].to.x]
    requires forall i, j :: 0 <= i < j < |moves| ==> Before(moves[i].to, moves[j].to)
    requires forall y, x :: 0 <= y < |g| && 0 <= x < |g[y]| ==> LandsAt(moves, Pos(x, y), true)
    ensures forall j :: 0 <= j < |moves| ==> InGrid(blank, moves[j].to)
    ensures Replay(blank, moves) == g
  {
    var out := Replay(blank, moves);
    forall y | 0 <= y < |g| ensures out[y] == g[y] {
      forall x | 0 <= x < |g[y]| ensures out[y][x] == g[y][x] {
        var j :| 0 <= j < |moves| && moves[j].to == Pos(x, y) && moves[j].from.None?;
        forall k | 0 <= k < |moves| && k != j ensures moves[k].to != moves[j].to {
          if k < j {
            assert Before(moves[k].to, moves[j].to);
          } else {
            assert Before(moves[j].to, moves[k].to);
          }
        }
        ReplayLanded(blank, moves, j);
      }
    }
  }

  /** A top slot left empty by gravity receives a cell from `cells`. */
  lemma ReplayFillTop(g: Grid, cells: seq<Cell>, moves: seq<Movement>, inter: Grid, x: nat, r: nat)
    requires IsRect(g) && FillResult(g, cells, moves, inter) && x < Width(g)
    requires r < Holes(Col(g, x))
    ensures forall k :: 0 <= k < |moves| ==> InGrid(inter, moves[k].to)
    ensures Replay(inter, moves)[r][x] in cells
  {
    DestinationsDistinct(g, cells, moves, inter);
    assert LandsAt(moves, Pos(x, r), true);
    var j :| 0 <= j < |moves| && moves[j].to == Pos(x, r) && moves[j].from.None?;
    assert IsSpawn(g, cells, moves[j]);
    ReplayLanded(inter, moves, j);
  }

  /** A slot filled from above receives the cell that falls into it. */
  lemma ReplayFillFall(g: Grid, cells: seq<Cell>, moves: seq<Movement>, inter: Grid, x: nat, r: nat)
    requires IsRect(g) && FillResult(g, cells, moves, inter) && x < Width(g) && r < |g|
    requires SourceFor(Col(g, x), r).Some?
    ensures forall k :: 0 <= k < |moves| ==> InGrid(inter, moves[k].to)
    ensures Replay(inter, moves)[r][x] == g[SourceFor(Col(g, x), r).value][x]
  {
    DestinationsDistinct(g, cells, moves, inter);
    assert LandsAt(moves, Pos(x, r), false);
    var j :| 0 <= j < |moves| && moves[j].to == Pos(x, r) && moves[j].from.Some?;
    assert IsFall(g, moves[j]);
    ReplayLanded(inter, moves, j);
  }

  /** A slot below the empty top that nothing falls into keeps its own
      cell, which is already the right one. */
  lemma ReplayFillStay(g: Grid, cells: seq<Cell>, moves: seq<Movement>, inter: Grid, x: nat, r: nat)
    requires IsRect(g) && FillResult(g, cells, moves, inter) && x < Width(g)
    requires Holes(Col(g, x)) <= r < |g| && SourceFor(Col(g, x), r).None?
    ensures forall k :: 0 <= k < |moves| ==> InGrid(inter, moves[k].to)
    ensures Nth(Col(g, x), r - Holes(Col(g, x))) == r
    ensures Replay(inter, moves)[r][x] == g[r][x]
  {
    DestinationsDistinct(g, cells, moves, inter);
    var col := Col(g, x);
    var k := Nth(col, r - Holes(col));
    RankOfNth(col, r - Holes(col));
    TargetBounds(col, k);
    assert k == r;
    forall j | 0 <= j < |moves| ensures moves[j].to != Pos(x, r) {
      if moves[j].from.Some? {
        assert IsFall(g, moves[j]);
      } else {
        assert IsSpawn(g, cells, moves[j]);
      }
    }
    ReplayUntouched(inter, moves, Pos(x, r));
  }

  /** Replaying the log of `fill_grid` onto its intermediate grid puts, in
      each column, a cell from `cells` in every top slot gravity leaves
      empty, and below them the column's non-empty cells in their order. */
  lemma ReplayFill(g: Grid, cells: seq<Cell>, moves: seq<Movement>, inter: Grid, x: nat, r: nat)
    requires IsRect(g) && FillResult(g, cells, moves, inter) && x < Width(g) && r < |g|
    ensures forall k :: 0 <= k < |moves| ==> InGrid(inter, moves[k].to)
    ensures r < Holes(Col(g, x)) ==> Replay(inter, moves)[r][x] in cells
    ensures r >= Holes(Col(g, x)) ==>
      Replay(inter, moves)[r][x] == g[Nth(Col(g, x), r - Holes(Col(g, x)))][x]
  {
    var col := Col(g, x);
    if r < Holes(col) {
      ReplayFillTop(g, cells, moves, inter, x, r);
    } else if SourceFor(col, r).Some? {
      ReplayFillFall(g, cells, moves, inter, x, r);
    } else {
      ReplayFillStay(g, cells, moves, inter, x, r);
    }
  }

  /** With a palette of named cells, the replayed grid has no empty slot. */
  lemma ReplayLeavesNoHole(g: Grid, cells: seq<Cell>, moves: seq<Movement>, inter: Grid)
    requires IsRect(g) && FillResult(g, cells, moves, inter)
    requires forall c :: c in cells ==> !IsEmpty(c)
    ensures forall k :: 0 <= k < |moves| ==> InGrid(inter, moves[k].to)
    ensures forall y, x :: 0 <= y < |g| && 0 <= x < Width(g) ==> !IsEmpty(Replay(inter, moves)[y][x])
  {
    DestinationsDistinct(g, cells, moves, inter);
    forall y, x | 0 <= y < |g| && 0 <= x < Width(g) ensures !IsEmpty(Replay(inter, moves)[y][x]) {
      ReplayFill(g, cells, moves, inter, x, y);
      if y >= Holes(Col(g, x)) {
        RankOfNth(Col(g, x), y - Holes(Col(g, x)));
      }
    }
  }

  /** The non-empty cells of a column, top to bottom. */
  function Compacted(col: Column): seq<Cell>
  {
    if col == [] then []
    else Compacted(col[..|col| - 1]) + (if IsEmpty(col[|col| - 1]) then [] else [col[|col| - 1]])
  }

  lemma {:induction false} CompactedRows(col: Column, k: nat)
    requires k <= |col|
    ensures |Compacted(col[..k])| == |FilledRows(col, k)|
    ensures forall j :: 0 <= j < |FilledRows(col, k)| ==> Compacted(col[..k])[j] == col[FilledRows(col, k)[j]]
  {
    if k > 0 {
      CompactedRows(col, k - 1);
      assert col[..k][..k - 1] == col[..k - 1];
      var tail := if IsEmpty(col[k - 1]) then [] else [col[k - 1]];
      var front := Compacted(col[..k - 1]);
      var rows := FilledRows(col, k - 1);
      assert Compacted(col[..k]) == front + tail;
      assert FilledRows(col, k) == rows + (if IsEmpty(col[k - 1]) then [] else [k - 1]);
      forall j | 0 <= j < |FilledRows(col, k)| ensures Compacted(col[..k])[j] == col[FilledRows(col, k)[j]] {
        if j < |rows| {
          assert FilledRows(col, k)[j] == rows[j];
          assert Compacted(col[..k])[j] == front[j];
        }
      }
    }
  }

  /** The top slots of column `x` left empty by gravity, after the replay. */
  lemma ReplayColumnTop(g: Grid, cells: seq<Cell>, moves: seq<Movement>, inter: Grid, x: nat)
    requires IsRect(g) && FillResult(g, cells, moves, inter) && x < Width(g)
    ensures forall k :: 0 <= k < |moves| ==> InGrid(inter, moves[k].to)
    ensures forall r :: 0 <= r < Holes(Col(g, x)) ==> Replay(inter, moves)[r][x] in cells
  {
    DestinationsDistinct(g, cells, moves, inter);
    forall r | 0 <= r < Holes(Col(g, x)) ensures Replay(inter, moves)[r][x] in cells {
      ReplayFillTop(g, cells, moves, inter, x, r);
    }
  }

  /** The slots of column `x` below the empty top, after the replay. */
  lemma ReplayColumnBelow(g: Grid, cells: seq<Cell>, moves: seq<Movement>, inter: Grid, x: nat)
    requires IsRect(g) && FillResult(g, cells, moves, inter) && x < Width(g)
    ensures forall k :: 0 <= k < |moves| ==> InGrid(inter, moves[k].to)
    ensures forall j :: 0 <= j < |Filled(Col(g, x))| ==>
      Replay(inter, moves)[Holes(Col(g, x)) + j][x] == g[Nth(Col(g, x), j)][x]
  {
    DestinationsDistinct(g, cells, moves, inter);
    forall j | 0 <= j < |Filled(Col(g, x))|
      ensures Replay(inter, moves)[Holes(Col(g, x)) + j][x] == g[Nth(Col(g, x), j)][x]
    {
      ReplayBelowSlot(g, cells, moves, inter, x, j);
    }
  }

  lemma ReplayBelowSlot(g: Grid, cells: seq<Cell>, moves: seq<Movement>, inter: Grid, x: nat, j: nat)
    requires IsRect(g) && FillResult(g, cells, moves, inter) && x < Width(g)
    requires j < |Filled(Col(g, x))|
    ensures forall k :: 0 <= k < |moves| ==> InGrid(inter, moves[k].to)
    ensures Holes(Col(g, x)) + j < |g|
    ensures Replay(inter, moves)[Holes(Col(g, x)) + j][x] == g[Nth(Col(g, x), j)][x]
  {
    var col := Col(g, x);
    var r := Holes(col) + j;
    assert r < |g|;
    ReplayFill(g, cells, moves, inter, x, r);
    RowOfRank(Replay(inter, moves), g, col, x, r, j);
  }

  lemma RowOfRank(out: Grid, g: Grid, col: Column, x: nat, r: nat, j: nat)
    requires j < |Filled(col)| && r == Holes(col) + j && r < |out| && x < |out[r]|
    requires Nth(col, j) < |g| && x < |g[Nth(col, j)]|
    requires r >= Holes(col) ==> out[r][x] == g[Nth(col, r - Holes(col))][x]
    ensures out[r][x] == g[Nth(col, j)][x]
  {
    assert r - Holes(col) == j;
  }

  /** After the replay, column `x` reads, top to bottom: as many new cells
      as it had empty slots, then its non-empty cells in their original
      order. */
  lemma ReplayKeepsColumnOrder(g: Grid, cells: seq<Cell>, moves: seq<Movement>, inter: Grid, x: nat)
    requires IsRect(g) && FillResult(g, cells, moves, inter) && x < Width(g)
    ensures forall k :: 0 <= k < |moves| ==> InGrid(inter, moves[k].to)
    ensures EmptyCount(Col(g, x)) + |Compacted(Col(g, x))| == |g|
    ensures forall r :: 0 <= r < EmptyCount(Col(g, x)) ==> Replay(inter, moves)[r][x] in cells
    ensures forall j :: 0 <= j < |Compacted(Col(g, x))| ==>
      Replay(inter, moves)[EmptyCount(Col(g, x)) + j][x] == Compacted(Col(g, x))[j]
  {
    ReplayColumnTop(g, cells, moves, inter, x);
    ReplayColumnBelow(g, cells, moves, inter, x);
    CompactedIsFilled(Col(g, x));
  }

  /** The compacted column lists the cells of the filled rows, below the
      column's empty slots. */
  lemma CompactedIsFilled(col: Column)
    ensures EmptyCount(col) == Holes(col) && |Compacted(col)| == |Filled(col)|
    ensures forall j :: 0 <= j < |Compacted(col)| ==> Compacted(col)[j] == col[Nth(col, j)]
  {
    HolesAreEmpties(col);
    CompactedRows(col, |col|);
    assert col[..|col|] == col;
  }
}
