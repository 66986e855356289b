/** `fill_grid`: gravity and refill on a whole grid, with the movement log
    and the intermediate grid it reports. */
module Gravity {
  import opened GameGrid
  import opened Columns

  /** Column `x` of a rectangular grid, top to bottom. */
  function Col(g: Grid, x: nat): Column
    requires IsRect(g) && x < Width(g)
  {
    seq(|g|, r requires 0 <= r < |g| => g[r][x])
  }

  /** `m` is the fall gravity makes into its destination: it pulls the cell
      of slot `(x, i)` down into `(x, y)` of the same column. */
  predicate IsFall(g: Grid, m: Movement)
    requires IsRect(g)
  {
    m.from.Some? && m.to.x < Width(g) && m.to.y < |g| && m.from.value.x == m.to.x
    && SourceFor(Col(g, m.to.x), m.to.y) == Some(m.from.value.y)
    && m.from.value.y < |g| && m.cell == g[m.from.value.y][m.to.x]
  }

  /** `m` drops a cell drawn from `cells` into one of the slots of its
      column that gravity leaves empty (the top `Holes` rows). */
  predicate IsSpawn(g: Grid, cells: seq<Cell>, m: Movement)
    requires IsRect(g)
  {
    m.from.None? && m.to.x < Width(g) && m.to.y < Holes(Col(g, m.to.x)) && m.cell in cells
  }

  /** Every fall is logged before every new cell. */
  predicate FallsFirst(moves: seq<Movement>)
  {
    forall i, j :: 0 <= i < j < |moves| && moves[j].from.Some? ==> moves[i].from.Some?
  }

  /** Falls, and new cells, are each logged in scan order of their
      destinations: bottom row first, left to right. */
  predicate InScanOrder(moves: seq<Movement>)
  {
    forall i, j :: 0 <= i < j < |moves| && moves[i].from.None? == moves[j].from.None? ==>
      Before(moves[i].to, moves[j].to)
  }

  /** Every slot that gravity fills from above is the destination of a fall. */
  predicate FallsComplete(g: Grid, moves: seq<Movement>)
    requires IsRect(g)
  {
    forall y, x :: 0 <= y < |g| && 0 <= x < Width(g) && SourceFor(Col(g, x), y).Some? ==>
      LandsAt(moves, Pos(x, y), false)
  }

  /** Every slot that gravity leaves empty receives a new cell. */
  predicate HolesRefilled(g: Grid, moves: seq<Movement>)
    requires IsRect(g)
  {
    forall y, x :: 0 <= x < Width(g) && 0 <= y < Holes(Col(g, x)) ==> LandsAt(moves, Pos(x, y), true)
  }

  /** `inter` is `g` with every cell that gravity moves blanked at its origin. */
  predicate IsIntermediate(g: Grid, inter: Grid)
    requires IsRect(g)
  {
    |inter| == |g| && (forall y :: 0 <= y < |g| ==> |inter[y]| == Width(g))
    && forall y, x :: 0 <= y < |g| && 0 <= x < Width(g) ==>
      inter[y][x] == if MovesAway(Col(g, x), y) then EmptyCell else g[y][x]
  }

  /** What `fill_grid(g, cells)` returns, whatever the random draws. */
  predicate FillResult(g: Grid, cells: seq<Cell>, moves: seq<Movement>, inter: Grid)
    requires IsRect(g)
  {
    (forall j :: 0 <= j < |moves| ==> IsFall(g, moves[j]) || IsSpawn(g, cells, moves[j]))
    && FallsFirst(moves) && InScanOrder(moves)
    && FallsComplete(g, moves) && HolesRefilled(g, moves)
    && IsIntermediate(g, inter)
  }

  /** Columns left of `x` have been scanned from the bottom down to row
      `zLeft`, the others down to `zRight`. */
  predicate Scanned(g: Grid, grid: Grid, inter: Grid, zLeft: nat, zRight: nat, x: nat)
    requires IsRect(g)
  {
    |grid| == |g| && |inter| == |g|
    && (forall r :: 0 <= r < |g| ==> |grid[r]| == Width(g) && |inter[r]| == Width(g))
    && forall r, c :: 0 <= r < |g| && 0 <= c < Width(g) ==>
      grid[r][c] == Settled(Col(g, c), if c < x then zLeft else zRight, r)
      && inter[r][c] == Intermediate(Col(g, c), if c < x then zLeft else zRight, r)
  }

  /** The step of the gravity scan at slot `(x, y)`: when the slot is
      empty, search upward for the nearest non-empty slot of the column
      and pull its cell down, blanking its origin in both grids. */
  method PullDown(g: Grid, grid: Grid, inter: Grid, x: nat, y: nat) returns (grid': Grid, inter': Grid, m: Option<Movement>)
    requires IsRect(g) && y < |g| && x < Width(g)
    requires Scanned(g, grid, inter, y, y + 1, x)
    ensures Scanned(g, grid', inter', y, y + 1, x + 1)
    ensures m == match SourceFor(Col(g, x), y)
      case Some(i) => Some(Movement(Some(Pos(x, i)), Pos(x, y), g[i][x]))
      case None => None
  {
    ghost var col, z := Col(g, x), y + 1;
    assert forall r :: 0 <= r < |g| ==> grid[r][x] == Settled(col, z, r);
    grid', inter', m := grid, inter, None;
    if IsEmpty(grid[y][x]) {
      var found := false;
      var i := y - 1;
      while i >= 0 && !found
        invariant -1 <= i < y
        invariant !found ==> grid' == grid && inter' == inter && m == None
        invariant !found ==> forall r :: i < r < y ==> IsEmpty(Settled(col, z, r))
        invariant found ==> (0 <= i && SourceFor(col, y) == Some(i)
          && m == Some(Movement(Some(Pos(x, i)), Pos(x, y), g[i][x]))
          && grid' == grid[y := grid[y][x := grid[i][x]]][i := grid[i][x := EmptyCell]]
          && inter' == inter[i := inter[i][x := EmptyCell]])
        decreases if found then 0 else i + 2
      {
        if !IsEmpty(grid'[i][x]) {
          found := true;
          SearchFinds(col, y, z, i);
          m := Some(Movement(Some(Pos(x, i)), Pos(x, y), g[i][x]));
          grid' := grid'[y := grid'[y][x := grid'[i][x]]];
          grid' := grid'[i := grid'[i][x := EmptyCell]];
          inter' := inter'[i := inter'[i][x := EmptyCell]];
        } else {
          i := i - 1;
        }
      }
      if found {
        MoveAt(g, grid, inter, x, y, i);
      } else {
        SearchFails(col, y, z);
        NoChangeAt(g, grid, inter, x, y);
      }
    } else {
      StaysPut(col, y);
      NoChangeAt(g, grid, inter, x, y);
    }
  }

  /** Pulling the cell of row `i` down into `(x, y)` is the scan step there. */
  lemma MoveAt(g: Grid, grid: Grid, inter: Grid, x: nat, y: nat, i: nat)
    requires IsRect(g) && y < |g| && x < Width(g)
    requires Scanned(g, grid, inter, y, y + 1, x)
    requires SourceFor(Col(g, x), y) == Some(i)
    ensures i < y
    ensures Scanned(g, grid[y := grid[y][x := grid[i][x]]][i := grid[i][x := EmptyCell]],
      inter[i := inter[i][x := EmptyCell]], y, y + 1, x + 1)
  {
    SourceIsAbove(Col(g, x), y);
    var grid' := grid[y := grid[y][x := grid[i][x]]][i := grid[i][x := EmptyCell]];
    var inter' := inter[i := inter[i][x := EmptyCell]];
    forall r, c | 0 <= r < |g| && 0 <= c < Width(g)
      ensures grid'[r][c] == Settled(Col(g, c), if c < x + 1 then y else y + 1, r)
      ensures inter'[r][c] == Intermediate(Col(g, c), if c < x + 1 then y else y + 1, r)
    {
      if c == x { StepWithMove(Col(g, x), y, r); }
    }
  }

  /** Handling a slot into which nothing falls leaves both grids as they are. */
  lemma NoChangeAt(g: Grid, grid: Grid, inter: Grid, x: nat, y: nat)
    requires IsRect(g) && y < |g| && x < Width(g)
    requires Scanned(g, grid, inter, y, y + 1, x)
    requires SourceFor(Col(g, x), y) == None
    ensures Scanned(g, grid, inter, y, y + 1, x + 1)
  {
    forall r | 0 <= r < |g| { StepWithoutMove(Col(g, x), y, r); }
  }


  /** `falls` is the fall log of a scan that has reached `(x, y)`. */
  predicate FallsLogged(g: Grid, falls: seq<Movement>, y: int, x: int)
    requires IsRect(g)
  {
    (forall j :: 0 <= j < |falls| ==> IsFall(g, falls[j]) && Processed(falls[j].to, y, x))
    && (forall i, j :: 0 <= i < j < |falls| ==> Before(falls[i].to, falls[j].to))
    && (forall r, c ::
          (0 <= r < |g| && 0 <= c < Width(g) && Processed(Pos(c, r), y, x) && SourceFor(Col(g, c), r).Some?) ==>
          LandsAt(falls, Pos(c, r), false))
  }

  /** `spawns` is the new-cell log of a refill scan that has reached `(x, y)`. */
  predicate SpawnsLogged(g: Grid, cells: seq<Cell>, spawns: seq<Movement>, y: int, x: int)
    requires IsRect(g)
  {
    (forall j :: 0 <= j < |spawns| ==> IsSpawn(g, cells, spawns[j]) && Processed(spawns[j].to, y, x))
    && (forall i, j :: 0 <= i < j < |spawns| ==> Before(spawns[i].to, spawns[j].to))
    && (forall r, c ::
          (0 <= r < |g| && 0 <= c < Width(g) && Processed(Pos(c, r), y, x) && r < Holes(Col(g, c))) ==>
          LandsAt(spawns, Pos(c, r), true))
  }

  /** The slots the refill scan has not reached still hold what gravity left. */
  predicate RefillPending(g: Grid, grid: Grid, y: int, x: int)
    requires IsRect(g)
  {
    |grid| == |g| && (forall r :: 0 <= r < |g| ==> |grid[r]| == Width(g))
    && forall r, c :: 0 <= r < |g| && 0 <= c < Width(g) && !Processed(Pos(c, r), y, x) ==>
      grid[r][c] == Settled(Col(g, c), 0, r)
  }

  lemma FallsLoggedNext(g: Grid, falls: seq<Movement>, y: nat, x: nat, m: Option<Movement>)
    requires IsRect(g) && y < |g| && x < Width(g) && FallsLogged(g, falls, y, x)
    requires m == match SourceFor(Col(g, x), y)
      case Some(i) => Some(Movement(Some(Pos(x, i)), Pos(x, y), g[i][x]))
      case None => None
    ensures FallsLogged(g, if m.Some? then falls + [m.value] else falls, y, x + 1)
  {
    if m.Some? {
      SourceIsAbove(Col(g, x), y);
      assert IsFall(g, m.value);
      FallsAppendLogged(g, falls, y, x, m.value);
      FallsAppendComplete(g, falls, y, x, m.value);
    } else {
      FallsSkip(g, falls, y, x);
    }
  }

  /** Appending the fall into `(x, y)` keeps every logged fall in scan order. */
  lemma FallsAppendLogged(g: Grid, falls: seq<Movement>, y: nat, x: nat, m: Movement)
    requires IsRect(g) && FallsLogged(g, falls, y, x) && IsFall(g, m) && m.to == Pos(x, y)
    ensures forall j :: 0 <= j < |falls + [m]| ==> IsFall(g, (falls + [m])[j]) && Processed((falls + [m])[j].to, y, x + 1)
    ensures forall i, j :: 0 <= i < j < |falls + [m]| ==> Before((falls + [m])[i].to, (falls + [m])[j].to)
  {
    var falls' := falls + [m];
    assert forall j :: 0 <= j < |falls| ==> falls'[j] == falls[j];
    assert falls'[|falls|] == m;
  }

  /** Appending the fall into `(x, y)` logs every fall up to `(x + 1, y)`. */
  lemma FallsAppendComplete(g: Grid, falls: seq<Movement>, y: nat, x: nat, m: Movement)
    requires IsRect(g) && FallsLogged(g, falls, y, x) && m.from.Some? && m.to == Pos(x, y)
    ensures forall r, c ::
          (0 <= r < |g| && 0 <= c < Width(g) && Processed(Pos(c, r), y, x + 1) && SourceFor(Col(g, c), r).Some?) ==>
          LandsAt(falls + [m], Pos(c, r), false)
  {
    forall r, c | 0 <= r < |g| && 0 <= c < Width(g) && Processed(Pos(c, r), y, x + 1)
      && SourceFor(Col(g, c), r).Some?
      ensures LandsAt(falls + [m], Pos(c, r), false)
    {
      LandsAtAppend(falls, m, Pos(c, r), false);
    }
  }

  /** Passing a slot that nothing falls into keeps the log complete. */
  lemma FallsSkip(g: Grid, falls: seq<Movement>, y: nat, x: nat)
    requires IsRect(g) && y < |g| && x < Width(g) && FallsLogged(g, falls, y, x)
    requires SourceFor(Col(g, x), y) == None
    ensures FallsLogged(g, falls, y, x + 1)
  {
  }

  lemma FallsLoggedNextRow(g: Grid, falls: seq<Movement>, y: nat)
    requires IsRect(g) && FallsLogged(g, falls, y, Width(g))
    ensures FallsLogged(g, falls, y - 1, 0)
  {
  }

  lemma SpawnsLoggedNextRow(g: Grid, cells: seq<Cell>, spawns: seq<Movement>, y: nat)
    requires IsRect(g) && SpawnsLogged(g, cells, spawns, y, Width(g))
    ensures SpawnsLogged(g, cells, spawns, y - 1, 0)
  {
  }

  lemma RefillPendingNextRow(g: Grid, grid: Grid, y: nat)
    requires IsRect(g) && RefillPending(g, grid, y, Width(g))
    ensures RefillPending(g, grid, y - 1, 0)
  {
  }

  /** One row of the gravity pass: every slot of row `y`, left to right. */
  method GravityRow(g: Grid, grid: Grid, inter: Grid, falls: seq<Movement>, y: nat)
    returns (grid': Grid, inter': Grid, falls': seq<Movement>)
    requires IsRect(g) && y < |g|
    requires Scanned(g, grid, inter, y + 1, y + 1, 0) && FallsLogged(g, falls, y, 0)
    ensures Scanned(g, grid', inter', y, y, 0) && FallsLogged(g, falls', y, Width(g))
  {
    grid', inter', falls' := grid, inter, falls;
    ScannedRowStart(g, grid, inter, y);
    var x := 0;
    while x < Width(g)
      invariant 0 <= x <= Width(g)
      invariant Scanned(g, grid', inter', y, y + 1, x) && FallsLogged(g, falls', y, x)
    {
      var m;
      grid', inter', m := PullDown(g, grid', inter', x, y);
      FallsLoggedNext(g, falls', y, x, m);
      if m.Some? {
        falls' := falls' + [m.value];
      }
      x := x + 1;
    }
    ScannedRowEnd(g, grid', inter', y);
  }

  /** Starting a row: no column has been scanned down to it yet. */
  lemma ScannedRowStart(g: Grid, grid: Grid, inter: Grid, y: nat)
    requires IsRect(g) && Scanned(g, grid, inter, y + 1, y + 1, 0)
    ensures Scanned(g, grid, inter, y, y + 1, 0)
  {
  }

  /** Finishing a row: every column has been scanned down to it. */
  lemma ScannedRowEnd(g: Grid, grid: Grid, inter: Grid, y: nat)
    requires IsRect(g) && Scanned(g, grid, inter, y, y + 1, Width(g))
    ensures Scanned(g, grid, inter, y, y, 0)
  {
  }

  /** No slot of `g` is empty, so the refill never draws a cell. */
  predicate NoEmptySlot(g: Grid)
  {
    forall y, x :: 0 <= y < |g| && 0 <= x < |g[y]| ==> !IsEmpty(g[y][x])
  }

  /** One row of the refill pass: every slot of row `y` that gravity left
      empty gets a cell drawn from `cells`. */
  method RefillRow(g: Grid, cells: seq<Cell>, grid: Grid, spawns: seq<Movement>, y: nat)
    returns (grid': Grid, spawns': seq<Movement>)
    requires IsRect(g) && y < |g| && (|cells| > 0 || NoEmptySlot(g))
    requires RefillPending(g, grid, y, 0) && SpawnsLogged(g, cells, spawns, y, 0)
    ensures RefillPending(g, grid', y, Width(g)) && SpawnsLogged(g, cells, spawns', y, Width(g))
  {
    grid', spawns' := grid, spawns;
    var x := 0;
    while x < Width(g)
      invariant 0 <= x <= Width(g)
      invariant RefillPending(g, grid', y, x) && SpawnsLogged(g, cells, spawns', y, x)
    {
      SettledEnd(Col(g, x), y);
      if IsEmpty(grid'[y][x]) {
        HolesAreEmpties(Col(g, x));
        EmptySlotOfCount(Col(g, x));
        assert cells[0] in cells;
        var cell :| cell in cells;
        grid' := grid'[y := grid'[y][x := cell]];
        var m := Movement(None, Pos(x, y), cell);
        SpawnsLoggedAppend(g, cells, spawns', y, x, m);
        spawns' := spawns' + [m];
      }
      x := x + 1;
    }
  }

  lemma SpawnsLoggedAppend(g: Grid, cells: seq<Cell>, spawns: seq<Movement>, y: nat, x: nat, m: Movement)
    requires IsRect(g) && y < |g| && x < Width(g) && SpawnsLogged(g, cells, spawns, y, x)
    requires m.from.None? && m.to == Pos(x, y) && y < Holes(Col(g, x)) && m.cell in cells
    ensures SpawnsLogged(g, cells, spawns + [m], y, x + 1)
  {
    var spawns' := spawns + [m];
    assert forall j :: 0 <= j < |spawns| ==> spawns'[j] == spawns[j];
    forall r, c | 0 <= r < |g| && 0 <= c < Width(g) && Processed(Pos(c, r), y, x + 1) && r < Holes(Col(g, c))
      ensures LandsAt(spawns', Pos(c, r), true)
    {
      LandsAtAppend(spawns, m, Pos(c, r), true);
    }
  }

  /** Fills the holes of `g`: each column is compacted downward, then every
      slot still empty gets a cell drawn from `cells`. Returns the movement
      log and the intermediate grid; the input is not changed. */
  method FillGrid(g: Grid, cells: seq<Cell>) returns (moves: seq<Movement>, inter: Grid)
    requires IsRect(g)
    requires |cells| > 0 || NoEmptySlot(g)
    ensures FillResult(g, cells, moves, inter)
  {
    var grid, falls;
    grid, inter, falls := GravityPass(g);
    ghost var settled := grid;
    PendingInitially(g, grid, inter);
    var spawns := RefillPass(g, cells, grid);
    moves := falls + spawns;
    FillResultFromParts(g, cells, settled, inter, falls, spawns);
  }

  /** The gravity pass of `fill_grid`, bottom row first. */
  method GravityPass(g: Grid) returns (grid: Grid, inter: Grid, falls: seq<Movement>)
    requires IsRect(g)
    ensures Scanned(g, grid, inter, 0, 0, 0) && FallsLogged(g, falls, -1, 0)
  {
    grid, inter, falls := g, g, [];
    ScannedInitially(g);
    var y := |g| - 1;
    while y >= 0
      invariant -1 <= y < |g|
      invariant Scanned(g, grid, inter, y + 1, y + 1, 0) && FallsLogged(g, falls, y, 0)
    {
      grid, inter, falls := GravityRow(g, grid, inter, falls, y);
      FallsLoggedNextRow(g, falls, y);
      y := y - 1;
    }
  }

  /** The refill pass of `fill_grid`, bottom row first. */
  method RefillPass(g: Grid, cells: seq<Cell>, grid: Grid) returns (spawns: seq<Movement>)
    requires IsRect(g) && (|cells| > 0 || NoEmptySlot(g))
    requires RefillPending(g, grid, |g| - 1, 0)
    ensures SpawnsLogged(g, cells, spawns, -1, 0)
  {
    var grid' := grid;
    spawns := [];
    var y := |g| - 1;
    while y >= 0
      invariant -1 <= y < |g|
      invariant RefillPending(g, grid', y, 0) && SpawnsLogged(g, cells, spawns, y, 0)
    {
      grid', spawns := RefillRow(g, cells, grid', spawns, y);
      RefillPendingNextRow(g, grid', y);
      SpawnsLoggedNextRow(g, cells, spawns, y);
      y := y - 1;
    }
  }

  /** Before the scan, the copies equal the input. */
  lemma ScannedInitially(g: Grid)
    requires IsRect(g)
    ensures Scanned(g, g, g, |g|, |g|, 0)
  {
    forall r, c | 0 <= r < |g| && 0 <= c < Width(g)
      ensures g[r][c] == Settled(Col(g, c), |g|, r) && g[r][c] == Intermediate(Col(g, c), |g|, r)
    {
      SettledStart(Col(g, c), r);
    }
  }

  /** After the gravity pass, the refill scan finds the settled grid. */
  lemma PendingInitially(g: Grid, grid: Grid, inter: Grid)
    requires IsRect(g) && Scanned(g, grid, inter, 0, 0, 0)
    ensures RefillPending(g, grid, |g| - 1, 0)
  {
  }

  lemma FillResultFromParts(g: Grid, cells: seq<Cell>, grid: Grid, inter: Grid, falls: seq<Movement>, spawns: seq<Movement>)
    requires IsRect(g)
    requires Scanned(g, grid, inter, 0, 0, 0)
    requires FallsLogged(g, falls, -1, 0) && SpawnsLogged(g, cells, spawns, -1, 0)
    ensures FillResult(g, cells, falls + spawns, inter)
  {
    LogKinds(g, cells, falls, spawns);
    LogOrder(g, cells, falls, spawns);
    LogComplete(g, cells, falls, spawns);
  }

  lemma LogKinds(g: Grid, cells: seq<Cell>, falls: seq<Movement>, spawns: seq<Movement>)
    requires IsRect(g)
    requires FallsLogged(g, falls, -1, 0) && SpawnsLogged(g, cells, spawns, -1, 0)
    ensures forall j :: 0 <= j < |falls + spawns| ==> IsFall(g, (falls + spawns)[j]) || IsSpawn(g, cells, (falls + spawns)[j])
  {
    var moves := falls + spawns;
    forall j | 0 <= j < |moves| ensures IsFall(g, moves[j]) || IsSpawn(g, cells, moves[j]) {
      if j < |falls| {
        assert moves[j] == falls[j];
      } else {
        assert moves[j] == spawns[j - |falls|];
      }
    }
  }

  lemma LogOrder(g: Grid, cells: seq<Cell>, falls: seq<Movement>, spawns: seq<Movement>)
    requires IsRect(g)
    requires FallsLogged(g, falls, -1, 0) && SpawnsLogged(g, cells, spawns, -1, 0)
    ensures FallsFirst(falls + spawns) && InScanOrder(falls + spawns)
  {
    var moves := falls + spawns;
    assert forall j :: 0 <= j < |falls| ==> moves[j] == falls[j] && moves[j].from.Some?;
    assert forall j :: |falls| <= j < |moves| ==> moves[j] == spawns[j - |falls|] && moves[j].from.None?;
  }

  lemma LogComplete(g: Grid, cells: seq<Cell>, falls: seq<Movement>, spawns: seq<Movement>)
    requires IsRect(g)
    requires FallsLogged(g, falls, -1, 0) && SpawnsLogged(g, cells, spawns, -1, 0)
    ensures FallsComplete(g, falls + spawns) && HolesRefilled(g, falls + spawns)
  {
    FallsStayLogged(g, falls, spawns);
    SpawnsStayLogged(g, cells, falls, spawns);
  }

  lemma FallsStayLogged(g: Grid, falls: seq<Movement>, spawns: seq<Movement>)
    requires IsRect(g) && FallsLogged(g, falls, -1, 0)
    ensures FallsComplete(g, falls + spawns)
  {
    var moves := falls + spawns;
    forall r, c | 0 <= r < |g| && 0 <= c < Width(g) && SourceFor(Col(g, c), r).Some?
      ensures LandsAt(moves, Pos(c, r), false)
    {
      assert Processed(Pos(c, r), -1, 0);
      var j :| 0 <= j < |falls| && falls[j].to == Pos(c, r) && falls[j].from.None? == false;
      assert moves[j] == falls[j];
    }
  }

  lemma SpawnsStayLogged(g: Grid, cells: seq<Cell>, falls: seq<Movement>, spawns: seq<Movement>)
    requires IsRect(g) && SpawnsLogged(g, cells, spawns, -1, 0)
    ensures HolesRefilled(g, falls + spawns)
  {
    var moves := falls + spawns;
    forall r, c | 0 <= r < |g| && 0 <= c < Width(g) && r < Holes(Col(g, c))
      ensures LandsAt(moves, Pos(c, r), true)
    {
      assert Processed(Pos(c, r), -1, 0);
      var j :| 0 <= j < |spawns| && spawns[j].to == Pos(c, r) && spawns[j].from.None? == true;
      assert moves[|falls| + j] == spawns[j];
    }
  }
}
