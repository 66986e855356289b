/** The score keeper: parallel lists of cells, objectives and scores,
    where the score of a cell is credited by name. */
module Scoring {
  import opened GameGrid

  /** How a credit ends: applied, refused because no cell has the name
      (`ValueError`), or refused because the matching cell has no score
      entry (the `IndexError` of a cell list longer than the objectives). */
  datatype Outcome = Updated | UnknownCell | NoScoreEntry

  /** Index of the first cell named `name`. */
  function FirstIndex(cells: seq<Cell>, name: Option<string>): (r: Option<nat>)
    ensures r.None? <==> forall j :: 0 <= j < |cells| ==> cells[j].name != name
    ensures r.Some? ==>
      (r.value < |cells| && cells[r.value].name == name
       && forall j :: 0 <= j < r.value ==> cells[j].name != name)
  {
    if cells == [] then None
    else if cells[0].name == name then Some(0)
    else match FirstIndex(cells[1..], name)
      case None => None
      case Some(i) => Some(i + 1)
  }

  /** How crediting `name` ends, given `count` score entries. */
  function CreditOutcome(cells: seq<Cell>, count: nat, name: Option<string>): Outcome
  {
    match FirstIndex(cells, name)
    case None => UnknownCell
    case Some(i) => if i < count then Updated else NoScoreEntry
  }

  /** The scores after crediting each `(name, amount)` of `items` in order,
      every one of which is accepted. */
  function Credit(cells: seq<Cell>, scores: seq<int>, items: seq<(Option<string>, int)>): (out: seq<int>)
    requires forall k :: 0 <= k < |items| ==> CreditOutcome(cells, |scores|, items[k].0) == Updated
    ensures |out| == |scores|
  {
    if items == [] then scores
    else
      var before := Credit(cells, scores, items[..|items| - 1]);
      var last := items[|items| - 1];
      assert CreditOutcome(cells, |scores|, last.0) == Updated;
      var i := FirstIndex(cells, last.0).value;
      before[i := before[i] + last.1]
  }

  /** Crediting one more entry extends the credit of the entries before it. */
  lemma CreditAppend(cells: seq<Cell>, scores: seq<int>, items: seq<(Option<string>, int)>, k: nat)
    requires k < |items|
    requires forall j :: 0 <= j <= k ==> CreditOutcome(cells, |scores|, items[j].0) == Updated
    ensures Credit(cells, scores, items[..k + 1])
      == Credit(cells, Credit(cells, scores, items[..k]), [items[k]])
  {
    assert items[..k + 1][..k] == items[..k];
  }

  /** Sum of the amounts of `items` that go to score entry `i`. */
  function AmountFor(cells: seq<Cell>, items: seq<(Option<string>, int)>, i: nat): int
  {
    if items == [] then 0
    else
      var last := items[|items| - 1];
      AmountFor(cells, items[..|items| - 1], i) + (if FirstIndex(cells, last.0) == Some(i) then last.1 else 0)
  }

  /** Crediting adds to each score exactly the amounts sent to it. */
  lemma {:induction false} CreditPointwise(cells: seq<Cell>, scores: seq<int>, items: seq<(Option<string>, int)>, i: nat)
    requires forall k :: 0 <= k < |items| ==> CreditOutcome(cells, |scores|, items[k].0) == Updated
    requires i < |scores|
    ensures Credit(cells, scores, items)[i] == scores[i] + AmountFor(cells, items, i)
  {
    if items != [] {
      CreditPointwise(cells, scores, items[..|items| - 1], i);
    }
  }

  /** Every objective is met. */
  predicate Complete(objectives: seq<int>, scores: seq<int>)
    requires |scores| == |objectives|
  {
    forall i :: 0 <= i < |objectives| ==> scores[i] >= objectives[i]
  }

  /** Non-negative credits never undo a completed set of objectives. */
  lemma CreditKeepsCompletion(cells: seq<Cell>, objectives: seq<int>, scores: seq<int>, items: seq<(Option<string>, int)>)
    requires |scores| == |objectives|
    requires forall k :: 0 <= k < |items| ==> CreditOutcome(cells, |scores|, items[k].0) == Updated && items[k].1 >= 0
    requires Complete(objectives, scores)
    ensures Complete(objectives, Credit(cells, scores, items))
  {
    forall i | 0 <= i < |objectives| ensures Credit(cells, scores, items)[i] >= objectives[i] {
      CreditPointwise(cells, scores, items, i);
      AmountsNonNegative(cells, items, i);
    }
  }

  lemma {:induction false} AmountsNonNegative(cells: seq<Cell>, items: seq<(Option<string>, int)>, i: nat)
    requires forall k :: 0 <= k < |items| ==> items[k].1 >= 0
    ensures AmountFor(cells, items, i) >= 0
  {
    if items != [] {
      AmountsNonNegative(cells, items[..|items| - 1], i);
    }
  }

  class ScoreManager {
    var cells: seq<Cell>
    var objectives: seq<int>
    var scores: seq<int>

    /** There is one score per objective. */
    ghost predicate Valid()
      reads this
    {
      |scores| == |objectives|
    }

    /** Every objective starts with a score of zero. */
    constructor (cells: seq<Cell>, objectives: seq<int>)
      ensures Valid()
      ensures this.cells == cells && this.objectives == objectives
      ensures scores == seq(|objectives|, _ => 0)
    {
      this.cells := cells;
      this.objectives := objectives;
      scores := seq(|objectives|, _ => 0);
    }

    /** Walks the objectives and stops at the first one not met. */
    method CheckCompletion() returns (completed: bool)
      requires Valid()
      ensures completed <==> Complete(objectives, scores)
    {
      completed := true;
      var i := 0;
      while completed && i < |objectives|
        invariant 0 <= i <= |objectives|
        invariant completed <==> forall j :: 0 <= j < i ==> scores[j] >= objectives[j]
      {
        if scores[i] < objectives[i] {
          completed := false;
        }
        i := i + 1;
      }
    }

    /** Adds `amount` to the score of the first cell named `name`; refuses
      an unknown name, and a cell with no score entry. */
    method UpdateScore(name: Option<string>, amount: int) returns (outcome: Outcome)
      requires Valid()
      modifies this
      ensures Valid() && cells == old(cells) && objectives == old(objectives)
      ensures outcome == CreditOutcome(cells, |scores|, name)
      ensures outcome == Updated ==> scores == Credit(cells, old(scores), [(name, amount)])
      ensures outcome != Updated ==> scores == old(scores)
    {
      var i := 0;
      while i < |cells| && cells[i].name != name
        invariant 0 <= i <= |cells|
        invariant forall j :: 0 <= j < i ==> cells[j].name != name
      {
        i := i + 1;
      }
      if i < |cells| {
        if i < |scores| {
          scores := scores[i := scores[i] + amount];
          outcome := Updated;
        } else {
          outcome := NoScoreEntry;
        }
      } else {
        outcome := UnknownCell;
      }
    }

    /** Credits every entry of a count dictionary, given as its items in
      iteration order; the first refused entry stops the walk, leaving
      the entries before it credited. */
    method UpdateScoreFromDict(items: seq<(Option<string>, int)>) returns (outcome: Outcome)
      requires Valid()
      modifies this
      ensures Valid() && cells == old(cells) && objectives == old(objectives)
      ensures outcome == Updated <==>
        forall k :: 0 <= k < |items| ==> CreditOutcome(cells, |scores|, items[k].0) == Updated
      ensures outcome == Updated ==> scores == Credit(cells, old(scores), items)
      ensures outcome != Updated ==>
        (exists f :: 0 <= f < |items|
          && (forall k :: 0 <= k < f ==> CreditOutcome(cells, |scores|, items[k].0) == Updated)
          && outcome == CreditOutcome(cells, |scores|, items[f].0)
          && scores == Credit(cells, old(scores), items[..f]))
    {
      var k := 0;
      while k < |items|
        invariant 0 <= k <= |items|
        invariant Valid() && cells == old(cells) && objectives == old(objectives)
        invariant |scores| == |old(scores)|
        invariant forall j :: 0 <= j < k ==> CreditOutcome(cells, |scores|, items[j].0) == Updated
        invariant scores == Credit(cells, old(scores), items[..k])
      {
        var (name, amount) := items[k];
        outcome := UpdateScore(name, amount);
        if outcome != Updated {
          return;
        }
        CreditAppend(cells, old(scores), items, k);
        k := k + 1;
      }
      assert items[..k] == items;
      outcome := Updated;
    }
  }
}
