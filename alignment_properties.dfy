/** What the result of `detect_alignments` guarantees about its counts
    and its grid. */
module AlignmentProperties {
  import opened GameGrid
  import opened Alignment

  /** Sum of the values of a count map. */
  ghost function Total(m: map<Option<string>, nat>): nat
    decreases |m|
  {
    if m == map[] then 0
    else
      var k :| k in m;
      assert |m - {k}| < |m| by {
        assert (m - {k}).Keys == m.Keys - {k};
      }
      m[k] + Total(m - {k})
  }

  /** The sum does not depend on which key is taken out first. */
  lemma {:induction false} TotalRemove(m: map<Option<string>, nat>, k: Option<string>)
    requires k in m
    ensures Total(m) == m[k] + Total(m - {k})
    decreases |m|
  {
    var j :| j in m && Total(m) == m[j] + Total(m - {j});
    if j != k {
      assert (m - {j}).Keys == m.Keys - {j};
      assert (m - {k}).Keys == m.Keys - {k};
      TotalRemove(m - {j}, k);
      TotalRemove(m - {k}, j);
      assert m - {j} - {k} == m - {k} - {j};
    }
  }

  lemma EachSlotHeld(g: Grid, s: set<Pos>)
    ensures forall p :: p in s && InGrid(g, p) ==> p in HeldBy(g, s, g[p.y][p.x].name)
  {
  }

  /** Taking out one name's slots takes out that name's count. */
  lemma CountsOfWithout(g: Grid, s: set<Pos>, m: map<Option<string>, nat>, k: Option<string>)
    requires CountsOf(g, s, m) && k in m
    ensures CountsOf(g, s - HeldBy(g, s, k), m - {k})
    ensures |s| == |s - HeldBy(g, s, k)| + m[k]
  {
    var held := HeldBy(g, s, k);
    var rest := s - held;
    forall n ensures HeldBy(g, rest, n) == if n == k then {} else HeldBy(g, s, n) {
    }
    assert s == rest + held && rest !! held;
  }

  /** A count map of a set of slots adds up to the size of the set. */
  lemma {:induction false} TotalOfCounts(g: Grid, s: set<Pos>, m: map<Option<string>, nat>)
    requires CountsOf(g, s, m) && forall p :: p in s ==> InGrid(g, p)
    ensures Total(m) == |s|
    decreases |m|
  {
    if m == map[] {
      EachSlotHeld(g, s);
      assert s == {};
    } else {
      var k :| k in m;
      TotalRemove(m, k);
      CountsOfWithout(g, s, m, k);
      assert (m - {k}).Keys == m.Keys - {k};
      TotalOfCounts(g, s - HeldBy(g, s, k), m - {k});
    }
  }

  /** The counts add up to the number of removed slots. */
  lemma CountsSumToRemoved(g: Grid, counts: map<Option<string>, nat>, newGrid: Grid)
    requires IsRect(g) && DetectResult(g, counts, newGrid)
    ensures Total(counts) == |Removed(g)|
  {
    TotalOfCounts(g, Removed(g), counts);
  }

  /** The three members of a matching window are distinct removed slots
      holding the same name. */
  lemma WindowRemoved(g: Grid, x: nat, y: nat, d: Dir)
    requires IsRect(g) && x < Width(g) && y < |g| && WindowIn(g, x, y, d) && Matches(g, x, y, d)
    ensures (d.DownLeft? ==> 2 <= x) && InGrid(g, Member(x, y, d, 0))
    ensures var a, b, c := Member(x, y, d, 0), Member(x, y, d, 1), Member(x, y, d, 2);
      |{a, b, c}| == 3 && {a, b, c} <= HeldBy(g, Removed(g), g[a.y][a.x].name)
      && forall q :: q in {a, b, c} ==> InGrid(g, q) && g[q.y][q.x].name == g[a.y][a.x].name
  {
    MemberInGrid(g, x, y, d, 0);
    MemberInGrid(g, x, y, d, 1);
    MemberInGrid(g, x, y, d, 2);
    var a, b, c := Member(x, y, d, 0), Member(x, y, d, 1), Member(x, y, d, 2);
    WindowMemberRemoved(g, a, x, y, d, 0);
    WindowMemberRemoved(g, b, x, y, d, 1);
    WindowMemberRemoved(g, c, x, y, d, 2);
    var n := g[a.y][a.x].name;
    MatchedNames(g, x, y, d);
    var removed := Removed(g);
    HeldByMember(g, removed, a, n);
    HeldByMember(g, removed, b, n);
    HeldByMember(g, removed, c, n);
    MembersDistinct(x, y, d);
    ThreeSlots(a, b, c, HeldBy(g, removed, n));
  }

  lemma MatchedNames(g: Grid, x: nat, y: nat, d: Dir)
    requires IsRect(g) && x < Width(g) && y < |g| && WindowIn(g, x, y, d) && Matches(g, x, y, d)
    ensures (d.DownLeft? ==> 2 <= x) && InGrid(g, Member(x, y, d, 0))
    ensures InGrid(g, Member(x, y, d, 1)) && InGrid(g, Member(x, y, d, 2))
    ensures var a, b, c := Member(x, y, d, 0), Member(x, y, d, 1), Member(x, y, d, 2);
      g[b.y][b.x].name == g[a.y][a.x].name && g[c.y][c.x].name == g[a.y][a.x].name
  {
    MemberInGrid(g, x, y, d, 0);
    MemberInGrid(g, x, y, d, 1);
    MemberInGrid(g, x, y, d, 2);
  }

  lemma HeldByMember(g: Grid, ps: set<Pos>, p: Pos, n: Option<string>)
    requires p in ps && InGrid(g, p) && g[p.y][p.x].name == n
    ensures p in HeldBy(g, ps, n)
  {
  }

  lemma MembersDistinct(x: nat, y: nat, d: Dir)
    requires d.DownLeft? ==> 2 <= x
    ensures Member(x, y, d, 0) != Member(x, y, d, 1) && Member(x, y, d, 1) != Member(x, y, d, 2)
    ensures Member(x, y, d, 0) != Member(x, y, d, 2)
  {
  }

  lemma ThreeSlots(a: Pos, b: Pos, c: Pos, s: set<Pos>)
    requires a != b && b != c && a != c && a in s && b in s && c in s
    ensures |{a, b, c}| == 3 && {a, b, c} <= s
  {
  }

  lemma WindowMemberRemoved(g: Grid, p: Pos, x: nat, y: nat, d: Dir, k: nat)
    requires IsRect(g) && InWindow(g, p, x, y, d, k)
    ensures InGrid(g, p) && p in Removed(g)
  {
    AlignedInGrid(g, p);
    assert p == Pos(p.x, p.y);
  }

  /** A removed slot shares its name with at least two other removed slots. */
  lemma RemovedInThrees(g: Grid, p: Pos)
    requires IsRect(g) && Aligned(g, p)
    ensures InGrid(g, p) && |HeldBy(g, Removed(g), g[p.y][p.x].name)| >= 3
  {
    AlignedInGrid(g, p);
    var x: nat, y: nat, d: Dir, k: nat :| InWindow(g, p, x, y, d, k);
    WindowRemoved(g, x, y, d);
    var a, b, c := Member(x, y, d, 0), Member(x, y, d, 1), Member(x, y, d, 2);
    assert p in {a, b, c} by {
      assert k == 0 || k == 1 || k == 2;
    }
    SubsetSize({a, b, c}, HeldBy(g, Removed(g), g[p.y][p.x].name));
  }

  /** Every name that is counted is counted at least three times: the
      window that removed one of its slots removed two more of them. */
  lemma CountsAtLeastThree(g: Grid, counts: map<Option<string>, nat>, newGrid: Grid)
    requires IsRect(g) && DetectResult(g, counts, newGrid)
    ensures forall n :: n in counts ==> counts[n] >= 3
  {
    forall n | n in counts ensures counts[n] >= 3 {
      var p :| p in HeldBy(g, Removed(g), n);
      RemovedInThrees(g, p);
    }
  }

  lemma {:induction false} SubsetSize(a: set<Pos>, b: set<Pos>)
    requires a <= b
    ensures |a| <= |b|
    decreases |a|
  {
    if a != {} {
      var p :| p in a;
      SubsetSize(a - {p}, b - {p});
    }
  }

  /** The count map is empty exactly when no slot is in a matching window,
      and then the returned grid equals the input. */
  lemma EmptyCountsIffNoAlignment(g: Grid, counts: map<Option<string>, nat>, newGrid: Grid)
    requires IsRect(g) && DetectResult(g, counts, newGrid)
    ensures counts == map[] <==> Removed(g) == {}
    ensures Removed(g) == {} <==> forall p :: !Aligned(g, p)
    ensures counts == map[] ==> newGrid == g
  {
    if Removed(g) != {} {
      var p :| p in Removed(g);
      assert p in HeldBy(g, Removed(g), g[p.y][p.x].name);
    }
    if exists p :: Aligned(g, p) {
      var p :| Aligned(g, p);
      AlignedInGrid(g, p);
      assert p in Removed(g);
    }
    if counts == map[] {
      forall y | 0 <= y < |g| ensures newGrid[y] == g[y] {
        forall x | 0 <= x < Width(g) ensures newGrid[y][x] == g[y][x] {
          assert Pos(x, y) !in Removed(g);
        }
      }
    }
  }

  /** Two results of `detect_alignments` on the same grid are identical. */
  lemma DetectDeterministic(g: Grid, counts1: map<Option<string>, nat>, newGrid1: Grid,
                            counts2: map<Option<string>, nat>, newGrid2: Grid)
    requires IsRect(g) && DetectResult(g, counts1, newGrid1) && DetectResult(g, counts2, newGrid2)
    ensures counts1 == counts2 && newGrid1 == newGrid2
  {
    assert counts1.Keys == counts2.Keys;
    forall y | 0 <= y < |g| ensures newGrid1[y] == newGrid2[y] {
    }
  }
}
