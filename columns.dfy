/** Gravity on one column, stated independently of the scan that performs it.
    A column is read top to bottom. When it is compacted downward, the
    empty slots end on top and the non-empty cells keep their order below
    them: the cell of rank `j` (the `j`-th non-empty cell from the top)
    settles in row `Holes + j`. */
module Columns {
  import opened GameGrid

  type Column = seq<Cell>

  /** Rows of the non-empty slots among the first `k`, top to bottom. */
  function FilledRows(col: Column, k: nat): (rows: seq<nat>)
    requires k <= |col|
    ensures |rows| <= k
    ensures forall j :: 0 <= j < |rows| ==> rows[j] < k && !IsEmpty(col[rows[j]])
    ensures forall i, j :: 0 <= i < j < |rows| ==> rows[i] < rows[j]
  {
    if k == 0 then [] else FilledRows(col, k - 1) + (if IsEmpty(col[k - 1]) then [] else [k - 1])
  }

  /** Rows of all non-empty slots, top to bottom. */
  function Filled(col: Column): seq<nat> { FilledRows(col, |col|) }

  /** Number of non-empty slots above row `r`. */
  function Rank(col: Column, r: nat): nat
    requires r <= |col|
  {
    |FilledRows(col, r)|
  }

  /** Number of empty slots once gravity is done: the column's height less
      its non-empty cells. */
  function Holes(col: Column): nat { |col| - |Filled(col)| }

  /** Row of the `j`-th non-empty cell from the top. */
  function Nth(col: Column, j: nat): nat
    requires j < |Filled(col)|
  {
    Filled(col)[j]
  }

  /** Row where the non-empty cell of row `r` comes to rest. */
  function Target(col: Column, r: nat): nat
    requires r <= |col|
  {
    Holes(col) + Rank(col, r)
  }

  /** Number of empty slots of the column, counted directly. */
  function EmptyCount(col: Column): (n: nat)
    ensures n <= |col|
  {
    if col == [] then 0 else (if IsEmpty(col[0]) then 1 else 0) + EmptyCount(col[1..])
  }

  // ----- facts about ranks -----

  lemma {:induction false} FilledRowsPrefix(col: Column, k: nat, k': nat)
    requires k <= k' <= |col|
    ensures FilledRows(col, k) <= FilledRows(col, k')
    decreases k' - k
  {
    if k < k' {
      FilledRowsPrefix(col, k, k' - 1);
    }
  }

  lemma {:induction false} RankGrowth(col: Column, a: nat, b: nat)
    requires a <= b <= |col|
    ensures Rank(col, a) <= Rank(col, b) <= Rank(col, a) + (b - a)
    decreases b - a
  {
    if a < b {
      RankGrowth(col, a, b - 1);
    }
  }

  /** The non-empty cell of row `r` has rank `Rank(col, r)`. */
  lemma NthOfRank(col: Column, r: nat)
    requires r < |col| && !IsEmpty(col[r])
    ensures Rank(col, r) < |Filled(col)| && Nth(col, Rank(col, r)) == r
  {
    FilledRowsPrefix(col, r + 1, |col|);
    assert FilledRows(col, r + 1) == FilledRows(col, r) + [r];
    assert FilledRows(col, r + 1)[Rank(col, r)] == r;
  }

  /** ... and the cell of rank `j` sits in a row whose rank is `j`. */
  lemma RankOfNth(col: Column, j: nat)
    requires j < |Filled(col)|
    ensures Nth(col, j) < |col| && !IsEmpty(col[Nth(col, j)]) && Rank(col, Nth(col, j)) == j
  {
    NthOfRank(col, Nth(col, j));
  }

  /** A non-empty cell never moves up, and it stays inside the column. */
  lemma TargetBounds(col: Column, r: nat)
    requires r < |col| && !IsEmpty(col[r])
    ensures r <= Target(col, r) < |col|
  {
    NthOfRank(col, r);
    RankGrowth(col, r + 1, |col|);
    assert FilledRows(col, r + 1) == FilledRows(col, r) + [r];
  }

  /** A non-empty cell above another one has the smaller rank. */
  lemma RankStrict(col: Column, a: nat, b: nat)
    requires a < b <= |col| && !IsEmpty(col[a])
    ensures Rank(col, a) < Rank(col, b)
  {
    assert FilledRows(col, a + 1) == FilledRows(col, a) + [a];
    RankGrowth(col, a + 1, b);
  }

  lemma {:induction false} EmptiesAndFilled(col: Column, k: nat)
    requires k <= |col|
    ensures EmptyCount(col[..k]) + Rank(col, k) == k
  {
    if k > 0 {
      EmptiesAndFilled(col, k - 1);
      EmptyCountSnoc(col[..k - 1], col[k - 1]);
      assert col[..k] == col[..k - 1] + [col[k - 1]];
    }
  }

  lemma {:induction false} EmptyCountSnoc(s: Column, c: Cell)
    ensures EmptyCount(s + [c]) == EmptyCount(s) + (if IsEmpty(c) then 1 else 0)
  {
    if s != [] {
      assert (s + [c])[1..] == s[1..] + [c];
      EmptyCountSnoc(s[1..], c);
    } else {
      assert (s + [c])[1..] == [];
    }
  }

  /** A column with a hole has an empty slot. */
  lemma {:induction false} EmptySlotOfCount(col: Column)
    requires EmptyCount(col) > 0
    ensures exists r :: 0 <= r < |col| && IsEmpty(col[r])
  {
    if !IsEmpty(col[0]) {
      EmptySlotOfCount(col[1..]);
      var r :| 0 <= r < |col[1..]| && IsEmpty(col[1..][r]);
      assert IsEmpty(col[r + 1]);
    }
  }

  /** Gravity leaves exactly as many holes on top as the column had empty slots. */
  lemma HolesAreEmpties(col: Column)
    ensures Holes(col) == EmptyCount(col)
  {
    EmptiesAndFilled(col, |col|);
    assert col[..|col|] == col;
  }

  // ----- the scan, as a closed form -----

  /** Row from which gravity pulls a cell down into row `y`, if any: the
      cell that settles in `y`, when it does not already sit there. */
  function SourceFor(col: Column, y: nat): Option<nat>
    requires y < |col|
  {
    if y >= Holes(col) && Nth(col, y - Holes(col)) < y then Some(Nth(col, y - Holes(col))) else None
  }

  /** The non-empty cell of row `r` leaves its slot. */
  predicate MovesAway(col: Column, r: nat)
    requires r < |col|
  {
    !IsEmpty(col[r]) && Target(col, r) != r
  }

  /** Slot `r` of the column once the scan has handled rows `z..` (bottom
      up): those rows hold their final cells as far as the column has
      cells for them, and every cell that has been pulled down from above
      has left an empty slot behind. */
  function Settled(col: Column, z: nat, r: nat): Cell
    requires r < |col|
  {
    if r >= z && r >= Holes(col) then
      (RankOfNthBound(col, r); col[Nth(col, r - Holes(col))])
    else if !IsEmpty(col[r]) && Target(col, r) >= z then EmptyCell
    else col[r]
  }

  /** Slot `r` of the intermediate column once rows `z..` are handled: the
      input with each cell pulled down so far blanked at its origin. */
  function Intermediate(col: Column, z: nat, r: nat): Cell
    requires r < |col|
  {
    if !IsEmpty(col[r]) && Target(col, r) >= z && Target(col, r) != r then EmptyCell else col[r]
  }

  lemma RankOfNthBound(col: Column, r: nat)
    requires Holes(col) <= r < |col|
    ensures r - Holes(col) < |Filled(col)|
    ensures Nth(col, r - Holes(col)) < |col|
  {
  }

  // ----- one step of the scan -----

  /** Where gravity pulls a cell into row `y`, that cell is non-empty, it
      comes from strictly above, and it is the one that settles in `y`. */
  lemma SourceIsAbove(col: Column, y: nat)
    requires y < |col| && SourceFor(col, y).Some?
    ensures SourceFor(col, y).value < y
    ensures !IsEmpty(col[SourceFor(col, y).value])
    ensures Target(col, SourceFor(col, y).value) == y
  {
    RankOfNth(col, y - Holes(col));
  }

  /** Before the scan starts, nothing has changed. */
  lemma SettledStart(col: Column, r: nat)
    requires r < |col|
    ensures Settled(col, |col|, r) == col[r] && Intermediate(col, |col|, r) == col[r]
  {
    if !IsEmpty(col[r]) { TargetBounds(col, r); }
  }

  /** Row `y` is non-empty when the scan reaches it exactly when its cell
      already sits where it settles; nothing is then pulled into it. */
  lemma StaysPut(col: Column, y: nat)
    requires y < |col|
    ensures !IsEmpty(Settled(col, y + 1, y)) <==> y >= Holes(col) && Nth(col, y - Holes(col)) == y
    ensures !IsEmpty(Settled(col, y + 1, y)) ==> SourceFor(col, y) == None
  {
    if !IsEmpty(Settled(col, y + 1, y)) {
      NthOfRank(col, y);
      TargetBounds(col, y);
    }
    if y >= Holes(col) && Nth(col, y - Holes(col)) == y {
      RankOfNth(col, y - Holes(col));
    }
  }

  /** Every slot above `y` that is still non-empty when the scan reaches an
      empty row `y` lies at or above the cell that settles in `y`. */
  lemma OccupiedAbove(col: Column, y: nat, r: nat)
    requires r < y < |col| && !IsEmpty(Settled(col, y + 1, r))
    ensures y >= Holes(col) && r <= Nth(col, y - Holes(col))
  {
    TargetBounds(col, r);
    var j := y - Holes(col);
    RankOfNth(col, j);
    if r > Nth(col, j) {
      RankStrict(col, Nth(col, j), r);
    }
  }

  /** The upward search from an empty row `y` that stops at the first
      non-empty slot `i` has found the row gravity pulls from. */
  lemma SearchFinds(col: Column, y: nat, z: nat, i: nat)
    requires i < y < |col| && z == y + 1
    requires IsEmpty(Settled(col, z, y))
    requires !IsEmpty(Settled(col, z, i))
    requires forall r :: i < r < y ==> IsEmpty(Settled(col, z, r))
    ensures SourceFor(col, y) == Some(i)
  {
    OccupiedAbove(col, y, i);
    StaysPut(col, y);
    var s := Nth(col, y - Holes(col));
    RankOfNth(col, y - Holes(col));
    TargetBounds(col, s);
    assert s < y;
    assert !IsEmpty(Settled(col, z, s));
  }

  /** An upward search from an empty row that finds nothing means that no
      cell settles there. */
  lemma SearchFails(col: Column, y: nat, z: nat)
    requires y < |col| && z == y + 1
    requires IsEmpty(Settled(col, z, y))
    requires forall r :: 0 <= r < y ==> IsEmpty(Settled(col, z, r))
    ensures SourceFor(col, y) == None && y < Holes(col)
  {
    SettlingCellAbove(col, y, z);
  }

  /** When row `y` is empty as the scan reaches it, the cell that settles
      in `y` (if any) is still in place strictly above it. */
  lemma SettlingCellAbove(col: Column, y: nat, z: nat)
    requires y < |col| && z == y + 1
    requires IsEmpty(Settled(col, z, y))
    ensures y >= Holes(col) ==>
      Nth(col, y - Holes(col)) < y && !IsEmpty(Settled(col, z, Nth(col, y - Holes(col))))
  {
    StaysPut(col, y);
    if y >= Holes(col) {
      RankOfNth(col, y - Holes(col));
      TargetBounds(col, Nth(col, y - Holes(col)));
    }
  }

  /** Handling row `y` when nothing is pulled into it changes no slot. */
  lemma StepWithoutMove(col: Column, y: nat, r: nat)
    requires r < |col| && y < |col| && SourceFor(col, y) == None
    ensures Settled(col, y, r) == Settled(col, y + 1, r)
    ensures Intermediate(col, y, r) == Intermediate(col, y + 1, r)
  {
    if y >= Holes(col) {
      RankOfNth(col, y - Holes(col));
      TargetBounds(col, Nth(col, y - Holes(col)));
    }
    if !IsEmpty(col[r]) && Target(col, r) == y {
      NthOfRank(col, r);
    }
  }

  /** Handling row `y` when the cell of row `s` is pulled into it: row `y`
      receives that cell, row `s` becomes empty in both columns, and no
      other slot changes. */
  lemma StepWithMove(col: Column, y: nat, r: nat)
    requires r < |col| && y < |col| && SourceFor(col, y).Some?
    ensures var s := SourceFor(col, y).value;
      Settled(col, y, r) == (if r == y then col[s] else if r == s then EmptyCell else Settled(col, y + 1, r))
      && Intermediate(col, y, r) == (if r == s then EmptyCell else Intermediate(col, y + 1, r))
  {
    var s := SourceFor(col, y).value;
    SourceIsAbove(col, y);
    if !IsEmpty(col[r]) && Target(col, r) == y {
      NthOfRank(col, r);
    }
    if r == y && !IsEmpty(col[y]) {
      TargetBounds(col, y);
      NthOfRank(col, y);
    }
  }

  /** After the whole scan, the holes are the top `Holes` rows and each
      lower row holds the non-empty cell of matching rank. */
  lemma SettledEnd(col: Column, r: nat)
    requires r < |col|
    ensures IsEmpty(Settled(col, 0, r)) <==> r < Holes(col)
    ensures r >= Holes(col) ==> Settled(col, 0, r) == col[Nth(col, r - Holes(col))]
  {
    if r >= Holes(col) {
      RankOfNth(col, r - Holes(col));
    }
  }

  /** The cells blanked in the intermediate column are exactly the ones
      gravity pulls down: a cell moves away from `r` iff some row draws
      from `r`, and then it is the row where the cell settles. */
  lemma MovesAwayIffSource(col: Column, r: nat)
    requires r < |col|
    ensures MovesAway(col, r) ==> Target(col, r) < |col| && SourceFor(col, Target(col, r)) == Some(r)
    ensures forall y :: 0 <= y < |col| && SourceFor(col, y) == Some(r) ==> MovesAway(col, r) && y == Target(col, r)
  {
    if !IsEmpty(col[r]) {
      TargetBounds(col, r);
      NthOfRank(col, r);
    }
    forall y | 0 <= y < |col| && SourceFor(col, y) == Some(r)
      ensures MovesAway(col, r) && y == Target(col, r)
    {
      SourceIsAbove(col, y);
    }
  }
}
