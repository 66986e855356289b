/** `detect_alignments`: every slot anchors a window of three slots in
    four directions; the members of every window whose three names are
    equal are removed from a copy of the grid and counted per name. */
module Alignment {
  import opened GameGrid

  /** The four directions a window extends in from its anchor. */
  datatype Dir = Right | Down | DownRight | DownLeft

  /** The anchor bounds under which the engine checks a window: the
      window's far end must lie inside the grid. */
  predicate WindowIn(g: Grid, x: nat, y: nat, d: Dir)
  {
    match d
    case Right => x < Width(g) - 2
    case Down => y < |g| - 2
    case DownRight => y < |g| - 2 && x < Width(g) - 2
    case DownLeft => y < |g| - 2 && x > 1
  }

  /** The `k`-th slot of the window anchored at `(x, y)` in direction `d`. */
  function Member(x: nat, y: nat, d: Dir, k: nat): Pos
    requires d.DownLeft? ==> k <= x
  {
    match d
    case Right => Pos(x + k, y)
    case Down => Pos(x, y + k)
    case DownRight => Pos(x + k, y + k)
    case DownLeft => Pos(x - k, y + k)
  }

  lemma MemberInGrid(g: Grid, x: nat, y: nat, d: Dir, k: nat)
    requires IsRect(g) && x < Width(g) && y < |g| && WindowIn(g, x, y, d) && k < 3
    ensures (d.DownLeft? ==> k <= x) && InGrid(g, Member(x, y, d, k))
  {
  }

  /** The three names of the window are equal; two empty names are equal too. */
  predicate Matches(g: Grid, x: nat, y: nat, d: Dir)
    requires IsRect(g) && x < Width(g) && y < |g| && WindowIn(g, x, y, d)
  {
    MemberInGrid(g, x, y, d, 0);
    MemberInGrid(g, x, y, d, 1);
    MemberInGrid(g, x, y, d, 2);
    var a, b, c := Member(x, y, d, 0), Member(x, y, d, 1), Member(x, y, d, 2);
    g[a.y][a.x].name == g[b.y][b.x].name == g[c.y][c.x].name
  }

  /** Slot `p` is the `k`-th member of a matching window anchored at `(x, y)`. */
  predicate InWindow(g: Grid, p: Pos, x: nat, y: nat, d: Dir, k: nat)
    requires IsRect(g)
  {
    x < Width(g) && y < |g| && k < 3 && WindowIn(g, x, y, d) && Matches(g, x, y, d)
    && Member(x, y, d, k) == p
  }

  /** The reference definition: `p` belongs to some in-bounds window of
      three equal names. */
  ghost predicate Aligned(g: Grid, p: Pos)
    requires IsRect(g)
  {
    exists x: nat, y: nat, d: Dir, k: nat :: InWindow(g, p, x, y, d, k)
  }

  lemma AlignedInGrid(g: Grid, p: Pos)
    requires IsRect(g) && Aligned(g, p)
    ensures InGrid(g, p)
  {
    var x: nat, y: nat, d: Dir, k: nat :| InWindow(g, p, x, y, d, k);
    MemberInGrid(g, x, y, d, k);
  }

  /** The slots the engine removes from `g`. */
  ghost function Removed(g: Grid): set<Pos>
    requires IsRect(g)
  {
    set y, x | 0 <= y < |g| && 0 <= x < Width(g) && Aligned(g, Pos(x, y)) :: Pos(x, y)
  }

  /** The slots of `ps` whose cell in `g` has name `n`. */
  ghost function HeldBy(g: Grid, ps: set<Pos>, n: Option<string>): set<Pos>
  {
    set p | p in ps && InGrid(g, p) && g[p.y][p.x].name == n
  }

  /** What `detect_alignments(g)` returns: the grid with exactly the
      aligned slots blanked, and for each name held by a removed slot the
      number of removed slots holding it. */
  ghost predicate DetectResult(g: Grid, counts: map<Option<string>, nat>, newGrid: Grid)
    requires IsRect(g)
  {
    |newGrid| == |g| && (forall y :: 0 <= y < |g| ==> |newGrid[y]| == Width(g))
    && (forall y, x :: 0 <= y < |g| && 0 <= x < Width(g) ==>
          newGrid[y][x] == if Aligned(g, Pos(x, y)) then EmptyCell else g[y][x])
    && CountsOf(g, Removed(g), counts)
  }

  // ----- the scan that collects aligned slots -----

  /** Members of the matching window anchored at `(x, y)` in direction `d`. */
  function DirSlots(g: Grid, x: nat, y: nat, d: Dir): set<Pos>
    requires IsRect(g) && x < Width(g) && y < |g|
  {
    if WindowIn(g, x, y, d) && Matches(g, x, y, d) then
      {Member(x, y, d, 0), Member(x, y, d, 1), Member(x, y, d, 2)}
    else {}
  }

  function AnchorSlots(g: Grid, x: nat, y: nat): set<Pos>
    requires IsRect(g) && x < Width(g) && y < |g|
  {
    DirSlots(g, x, y, Right) + DirSlots(g, x, y, Down) + DirSlots(g, x, y, DownRight) + DirSlots(g, x, y, DownLeft)
  }

  /** Slots collected from the anchors scanned before `(x, y)`: all of the
      rows above `y`, and the first `x` anchors of row `y`. */
  function MarkedBefore(g: Grid, y: nat, x: nat): set<Pos>
    requires IsRect(g) && y <= |g| && x <= Width(g) && (x > 0 ==> y < |g|)
    decreases y, x
  {
    if x == 0 then (if y == 0 then {} else MarkedBefore(g, y - 1, Width(g)))
    else MarkedBefore(g, y, x - 1) + AnchorSlots(g, x - 1, y)
  }

  lemma DirSlotsMeaning(g: Grid, x: nat, y: nat, d: Dir, p: Pos)
    requires IsRect(g) && x < Width(g) && y < |g|
    ensures p in DirSlots(g, x, y, d) <==> exists k: nat :: InWindow(g, p, x, y, d, k)
  {
    if p in DirSlots(g, x, y, d) {
      if p == Member(x, y, d, 0) {
        assert InWindow(g, p, x, y, d, 0);
      } else if p == Member(x, y, d, 1) {
        assert InWindow(g, p, x, y, d, 1);
      } else {
        assert InWindow(g, p, x, y, d, 2);
      }
    }
  }

  /** `p` belongs to a matching window anchored at `(x, y)`. */
  ghost predicate InAnchor(g: Grid, p: Pos, x: nat, y: nat)
    requires IsRect(g)
  {
    exists d: Dir, k: nat :: InWindow(g, p, x, y, d, k)
  }

  lemma AnchorSlotsMeaning(g: Grid, x: nat, y: nat, p: Pos)
    requires IsRect(g) && x < Width(g) && y < |g|
    ensures p in AnchorSlots(g, x, y) <==> InAnchor(g, p, x, y)
  {
    if p in AnchorSlots(g, x, y) {
      if p in DirSlots(g, x, y, Right) {
        DirSlotsInAnchor(g, x, y, Right, p);
      } else if p in DirSlots(g, x, y, Down) {
        DirSlotsInAnchor(g, x, y, Down, p);
      } else if p in DirSlots(g, x, y, DownRight) {
        DirSlotsInAnchor(g, x, y, DownRight, p);
      } else {
        DirSlotsInAnchor(g, x, y, DownLeft, p);
      }
    }
    if InAnchor(g, p, x, y) {
      var d: Dir, k: nat :| InWindow(g, p, x, y, d, k);
      DirSlotsMeaning(g, x, y, d, p);
      assert p in DirSlots(g, x, y, d);
    }
  }

  lemma DirSlotsInAnchor(g: Grid, x: nat, y: nat, d: Dir, p: Pos)
    requires IsRect(g) && x < Width(g) && y < |g| && p in DirSlots(g, x, y, d)
    ensures InAnchor(g, p, x, y)
  {
    DirSlotsMeaning(g, x, y, d, p);
    var k: nat :| InWindow(g, p, x, y, d, k);
  }

  /** `p` belongs to a matching window anchored before `(x, y)` in scan order. */
  ghost predicate MarkedBy(g: Grid, p: Pos, y: nat, x: nat)
    requires IsRect(g)
  {
    exists ax: nat, ay: nat :: (ay < y || (ay == y && ax < x)) && InAnchor(g, p, ax, ay)
  }

  lemma MarkedByRowStart(g: Grid, p: Pos, y: nat)
    requires IsRect(g) && 0 < y
    ensures MarkedBy(g, p, y, 0) <==> MarkedBy(g, p, y - 1, Width(g))
  {
    if MarkedBy(g, p, y, 0) {
      var ax: nat, ay: nat :| (ay < y || (ay == y && ax < 0)) && InAnchor(g, p, ax, ay);
      var d: Dir, k: nat :| InWindow(g, p, ax, ay, d, k);
      assert ay < y - 1 || (ay == y - 1 && ax < Width(g));
    }
    if MarkedBy(g, p, y - 1, Width(g)) {
      var ax: nat, ay: nat :| (ay < y - 1 || (ay == y - 1 && ax < Width(g))) && InAnchor(g, p, ax, ay);
      assert ay < y || (ay == y && ax < 0);
    }
  }

  lemma MarkedByStep(g: Grid, p: Pos, y: nat, x: nat)
    requires IsRect(g) && 0 < x
    ensures MarkedBy(g, p, y, x) <==> MarkedBy(g, p, y, x - 1) || InAnchor(g, p, x - 1, y)
  {
    if MarkedBy(g, p, y, x) {
      MarkedBySplit(g, p, y, x);
    }
    if MarkedBy(g, p, y, x - 1) {
      MarkedByGrows(g, p, y, x);
    }
    if InAnchor(g, p, x - 1, y) {
      MarkedByAnchor(g, p, y, x);
    }
  }

  lemma MarkedByGrows(g: Grid, p: Pos, y: nat, x: nat)
    requires IsRect(g) && 0 < x && MarkedBy(g, p, y, x - 1)
    ensures MarkedBy(g, p, y, x)
  {
    var ax: nat, ay: nat :| (ay < y || (ay == y && ax < x - 1)) && InAnchor(g, p, ax, ay);
    assert ay < y || (ay == y && ax < x);
  }

  lemma MarkedByAnchor(g: Grid, p: Pos, y: nat, x: nat)
    requires IsRect(g) && 0 < x && InAnchor(g, p, x - 1, y)
    ensures MarkedBy(g, p, y, x)
  {
    var ax: nat, ay: nat := x - 1, y;
    assert (ay < y || (ay == y && ax < x)) && InAnchor(g, p, ax, ay);
  }

  lemma MarkedBySplit(g: Grid, p: Pos, y: nat, x: nat)
    requires IsRect(g) && 0 < x && MarkedBy(g, p, y, x)
    ensures MarkedBy(g, p, y, x - 1) || InAnchor(g, p, x - 1, y)
  {
    var ax: nat, ay: nat :| (ay < y || (ay == y && ax < x)) && InAnchor(g, p, ax, ay);
    if !(ay == y && ax == x - 1) {
      assert ay < y || (ay == y && ax < x - 1);
    }
  }

  lemma {:induction false} MarkedBeforeMeaning(g: Grid, y: nat, x: nat, p: Pos)
    requires IsRect(g) && y <= |g| && x <= Width(g) && (x > 0 ==> y < |g|)
    ensures p in MarkedBefore(g, y, x) <==> MarkedBy(g, p, y, x)
    decreases y, x
  {
    if x == 0 {
      if y > 0 {
        MarkedBeforeMeaning(g, y - 1, Width(g), p);
        MarkedByRowStart(g, p, y);
      }
    } else {
      MarkedBeforeMeaning(g, y, x - 1, p);
      MarkedBeforeStep(g, y, x, p);
    }
  }

  /** One anchor more keeps the scan's set and `MarkedBy` in step. */
  lemma MarkedBeforeStep(g: Grid, y: nat, x: nat, p: Pos)
    requires IsRect(g) && y < |g| && 0 < x <= Width(g)
    requires p in MarkedBefore(g, y, x - 1) <==> MarkedBy(g, p, y, x - 1)
    ensures p in MarkedBefore(g, y, x) <==> MarkedBy(g, p, y, x)
  {
    AnchorSlotsMeaning(g, x - 1, y, p);
    MarkedByStep(g, p, y, x);
  }

  /** The whole scan collects exactly the removed slots. */
  lemma MarkedAllIsRemoved(g: Grid)
    requires IsRect(g)
    ensures MarkedBefore(g, |g|, 0) == Removed(g)
  {
    forall p ensures p in MarkedBefore(g, |g|, 0) <==> p in Removed(g) {
      MarkedBeforeMeaning(g, |g|, 0, p);
      if Aligned(g, p) {
        AlignedInGrid(g, p);
        var x: nat, y: nat, d: Dir, k: nat :| InWindow(g, p, x, y, d, k);
        assert InAnchor(g, p, x, y);
      }
      if MarkedBy(g, p, |g|, 0) {
        var x: nat, y: nat :| (y < |g| || (y == |g| && x < 0)) && InAnchor(g, p, x, y);
        var d: Dir, k: nat :| InWindow(g, p, x, y, d, k);
        AlignedInGrid(g, p);
      }
    }
  }

  // ----- counting -----

  /** `counts` holds, for each name held by some slot of `ps`, the number
      of slots of `ps` holding it. */
  ghost predicate CountsOf(g: Grid, ps: set<Pos>, counts: map<Option<string>, nat>)
  {
    (forall n :: n in counts <==> HeldBy(g, ps, n) != {})
    && forall n :: n in counts ==> counts[n] == |HeldBy(g, ps, n)|
  }

  lemma HeldByAdd(g: Grid, ps: set<Pos>, p: Pos, n: Option<string>)
    requires InGrid(g, p) && p !in ps
    ensures HeldBy(g, ps + {p}, n) == HeldBy(g, ps, n) + (if g[p.y][p.x].name == n then {p} else {})
    ensures g[p.y][p.x].name == n ==> |HeldBy(g, ps + {p}, n)| == |HeldBy(g, ps, n)| + 1
  {
    assert p !in HeldBy(g, ps, n);
  }

  /** Counting one more slot adds one to its name's count. */
  lemma CountsOfAdd(g: Grid, ps: set<Pos>, p: Pos, counts: map<Option<string>, nat>, counts': map<Option<string>, nat>)
    requires InGrid(g, p) && p !in ps && CountsOf(g, ps, counts)
    requires var name := g[p.y][p.x].name;
      counts' == if name in counts then counts[name := counts[name] + 1] else counts[name := 1]
    ensures CountsOf(g, ps + {p}, counts')
  {
    var name := g[p.y][p.x].name;
    forall n ensures (n in counts' <==> HeldBy(g, ps + {p}, n) != {})
      && (n in counts' ==> counts'[n] == |HeldBy(g, ps + {p}, n)|)
    {
      HeldByAdd(g, ps, p, n);
      if n == name {
        assert p in HeldBy(g, ps + {p}, n);
        if name !in counts {
          assert HeldBy(g, ps, n) == {};
        }
      }
    }
  }

  /** Removes every slot of `g` collected by the scan, on a copy of `g`. */
  method BlankAligned(g: Grid, aligned: set<Pos>) returns (newGrid: Grid)
    requires IsRect(g)
    ensures |newGrid| == |g| && forall y :: 0 <= y < |g| ==> |newGrid[y]| == Width(g)
    ensures forall y, x :: 0 <= y < |g| && 0 <= x < Width(g) ==>
      newGrid[y][x] == if Pos(x, y) in aligned then EmptyCell else g[y][x]
  {
    newGrid := g;
    var y := 0;
    while y < |g|
      invariant 0 <= y <= |g|
      invariant |newGrid| == |g| && forall r :: 0 <= r < |g| ==> |newGrid[r]| == Width(g)
      invariant forall r, c :: 0 <= r < |g| && 0 <= c < Width(g) ==>
        newGrid[r][c] == if r < y && Pos(c, r) in aligned then EmptyCell else g[r][c]
    {
      var x := 0;
      while x < |g[y]|
        invariant 0 <= x <= |g[y]|
        invariant |newGrid| == |g| && forall r :: 0 <= r < |g| ==> |newGrid[r]| == Width(g)
        invariant forall r, c :: 0 <= r < |g| && 0 <= c < Width(g) ==>
          newGrid[r][c] == if (r < y || (r == y && c < x)) && Pos(c, r) in aligned then EmptyCell else g[r][c]
      {
        if Pos(x, y) in aligned {
          newGrid := newGrid[y := newGrid[y][x := EmptyCell]];
        }
        x := x + 1;
      }
      y := y + 1;
    }
  }

  /** Counts, per name of `g`, the slots of `aligned`, visiting them in
      an unspecified order as iteration over a set does. */
  method CountByName(g: Grid, aligned: set<Pos>) returns (counts: map<Option<string>, nat>)
    requires forall p :: p in aligned ==> InGrid(g, p)
    ensures CountsOf(g, aligned, counts)
  {
    counts := map[];
    var rest := aligned;
    ghost var done: set<Pos> := {};
    while rest != {}
      invariant done + rest == aligned && done !! rest
      invariant CountsOf(g, done, counts)
      decreases |rest|
    {
      var p :| p in rest;
      assert p !in done && InGrid(g, p);
      var name := g[p.y][p.x].name;
      ghost var before := counts;
      if name in counts {
        counts := counts[name := counts[name] + 1];
      } else {
        counts := counts[name := 1];
      }
      CountsOfAdd(g, done, p, before, counts);
      MoveToDone(aligned, done, rest, p);
      rest := rest - {p};
      done := done + {p};
    }
  }

  lemma MoveToDone(all: set<Pos>, done: set<Pos>, rest: set<Pos>, p: Pos)
    requires done + rest == all && done !! rest && p in rest
    ensures (done + {p}) + (rest - {p}) == all && (done + {p}) !! (rest - {p})
    ensures |rest - {p}| < |rest|
  {
  }

  /** One anchor of the scan: adds the members of each of its matching
      windows to `aligned`. */
  method ScanAnchor(g: Grid, x: nat, y: nat, aligned: set<Pos>) returns (aligned': set<Pos>)
    requires IsRect(g) && x < Width(g) && y < |g|
    ensures aligned' == aligned + AnchorSlots(g, x, y)
  {
    aligned' := aligned;
    if x < |g[y]| - 2 && g[y][x].name == g[y][x + 1].name == g[y][x + 2].name {
      aligned' := aligned' + {Pos(x, y), Pos(x + 1, y), Pos(x + 2, y)};
    }
    if y < |g| - 2 && g[y][x].name == g[y + 1][x].name == g[y + 2][x].name {
      aligned' := aligned' + {Pos(x, y), Pos(x, y + 1), Pos(x, y + 2)};
    }
    if y < |g| - 2 && x < |g[y]| - 2 && g[y][x].name == g[y + 1][x + 1].name == g[y + 2][x + 2].name {
      aligned' := aligned' + {Pos(x, y), Pos(x + 1, y + 1), Pos(x + 2, y + 2)};
    }
    if y < |g| - 2 && x > 1 && g[y][x].name == g[y + 1][x - 1].name == g[y + 2][x - 2].name {
      aligned' := aligned' + {Pos(x, y), Pos(x - 1, y + 1), Pos(x - 2, y + 2)};
    }
  }

  /** The engine's scan: collect the members of every matching window,
      blank them in a copy of `g`, and count the removed slots per name. */
  method DetectAlignments(g: Grid) returns (counts: map<Option<string>, nat>, newGrid: Grid)
    requires IsRect(g)
    ensures DetectResult(g, counts, newGrid)
  {
    var aligned := CollectAligned(g);
    newGrid := BlankAligned(g, aligned);
    RemovedInGrid(g);
    counts := CountByName(g, aligned);
    BlankedIsAligned(g, newGrid);
  }

  /** The first pass of the engine: every anchor, row by row, left to
      right, adds the members of its matching windows. */
  method CollectAligned(g: Grid) returns (aligned: set<Pos>)
    requires IsRect(g)
    ensures aligned == Removed(g)
  {
    aligned := {};
    var y := 0;
    while y < |g|
      invariant 0 <= y <= |g|
      invariant aligned == MarkedBefore(g, y, 0)
    {
      aligned := ScanRow(g, y, aligned);
      y := y + 1;
    }
    MarkedAllIsRemoved(g);
  }

  /** Row `y` of the first pass, left to right. */
  method ScanRow(g: Grid, y: nat, aligned: set<Pos>) returns (aligned': set<Pos>)
    requires IsRect(g) && y < |g| && aligned == MarkedBefore(g, y, 0)
    ensures aligned' == MarkedBefore(g, y + 1, 0)
  {
    aligned' := aligned;
    var x := 0;
    while x < |g[y]|
      invariant 0 <= x <= |g[y]|
      invariant aligned' == MarkedBefore(g, y, x)
    {
      aligned' := ScanAnchor(g, x, y, aligned');
      x := x + 1;
    }
  }

  lemma RemovedInGrid(g: Grid)
    requires IsRect(g)
    ensures forall p :: p in Removed(g) ==> InGrid(g, p)
  {
  }

  /** Blanking the removed slots blanks exactly the aligned ones. */
  lemma BlankedIsAligned(g: Grid, newGrid: Grid)
    requires IsRect(g) && |newGrid| == |g| && forall y :: 0 <= y < |g| ==> |newGrid[y]| == Width(g)
    requires forall y, x :: 0 <= y < |g| && 0 <= x < Width(g) ==>
      newGrid[y][x] == if Pos(x, y) in Removed(g) then EmptyCell else g[y][x]
    ensures forall y, x :: 0 <= y < |g| && 0 <= x < Width(g) ==>
      newGrid[y][x] == if Aligned(g, Pos(x, y)) then EmptyCell else g[y][x]
  {
  }
}
