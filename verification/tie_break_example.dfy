/** A catalog where two answers tie on both ranked rules: 4 items from sizes
    1, 2 and 3 ship as 1 + 3 or as 2 + 2, each in two packs. The calculator
    keeps, for each total, the smallest size that finishes it with the fewest
    packs (4 is finished by 1, the 3 left by a single 3), so it answers
    `{1: 1, 3: 1}`. */
module TieBreakExample {
  import opened Selections
  import opened Tallies
  import opened Tables
  import opened PackCalculator
  import TestTable

  /** The catalog with the sizes 1, 2 and 3. */
  const Sizes: seq<int> := [1, 2, 3]

  /** Four items from sizes 1, 2 and 3 ship in two packs at best. */
  lemma Order4()
    ensures IsOptimal(Sizes, 4, 4, 2)
  {
    SumAppend([], 1);
    SumAppend([1], 3);
    assert [1] + [3] == [1, 3];
    assert IsSelection(Sizes, [1, 3]);
    forall s | IsSelection(Sizes, s) && Sum(s) == 4 ensures 2 <= |s| {
    }
  }

  /** The answer the calculator gives counts a selection with the optimal
      totals. */
  lemma TieOneThree()
    ensures CountsSelection(Sizes, PackingCalculation(map[1 := 1, 3 := 1], 4, 2))
  {
    SumAppend([], 1);
    SumAppend([1], 3);
    assert [1] + [3] == [1, 3];
    assert IsSelection(Sizes, [1, 3]);
    CountsOf13();
  }

  /** So does the tied answer it does not give: counting a selection alone
      does not tell the two apart. */
  lemma TieTwoTwo()
    ensures CountsSelection(Sizes, PackingCalculation(map[2 := 2], 4, 2))
  {
    SumAppend([], 2);
    SumAppend([2], 2);
    assert [2] + [2] == [2, 2];
    assert IsSelection(Sizes, [2, 2]);
    assert multiset([2, 2]) == multiset{2, 2};
    assert forall p :: Get(map[2 := 2], p) == multiset([2, 2])[p];
  }

  /** In tables filled for these sizes, each of the totals 1, 2 and 3 is
      one pack. */
  lemma SinglePack(items: seq<int>, packs: seq<int>, last: map<int, int>, j: int)
    requires Filled(Sizes, items, packs, last)
    requires 0 < j <= 3 && j < |items|
    ensures items[j] == j && packs[j] == 1
  {
    SumAppend([], j);
    assert [] + [j] == [j];
    assert IsSelection(Sizes, [j]);
    assert EntryOk(Sizes, items, packs, last, j);
    WalkSelection(Sizes, items, packs, last, j);
  }

  /** In tables filled for these sizes, the walk from 4 meets 1 and then 3:
      1 is the smallest size that finishes 4 in two packs, and 3 the only
      size that finishes 3 in one. */
  lemma Walk4(items: seq<int>, packs: seq<int>, last: map<int, int>)
    requires Filled(Sizes, items, packs, last) && 4 < |items|
    ensures items[4] == 4 && Walk(last, 4) == [1, 3]
  {
    SinglePack(items, packs, last, 1);
    SinglePack(items, packs, last, 2);
    SinglePack(items, packs, last, 3);
    SumAppend([], 1);
    SumAppend([1], 3);
    assert [1] + [3] == [1, 3];
    assert IsSelection(Sizes, [1, 3]);
    assert EntryOk(Sizes, items, packs, last, 4);
    WalkStep(Sizes, items, packs, last, 4);
    WalkPacks(Sizes, items, packs, last, 4);
    assert last[4] == 1 by {
      assert SmallestLink(Sizes, items, packs, last[4], 4, |Sizes|);
      assert Fits(Sizes, items, 0, 4);
    }
    WalkStep(Sizes, items, packs, last, 3);
    WalkPacks(Sizes, items, packs, last, 3);
    assert last[3] == 3;
    assert Walk(last, 0) == [];
  }

  /** The packs 1 and 3 are counted as `{1: 1, 3: 1}`. */
  lemma CountsOf13()
    ensures forall p :: multiset([1, 3])[p] == Get(map[1 := 1, 3 := 1], p)
  {
    assert multiset([1, 3]) == multiset{1, 3};
  }

  /** A map walked from 4 over tables filled for these sizes reads as
      `{1: 1, 3: 1}`. */
  lemma WalkedCounts(answer: PackingCalculation)
    requires WalkedFromTable(Sizes, answer) && answer.totalItems == 4
    ensures forall p :: Get(answer.packs, p) == Get(map[1 := 1, 3 := 1], p)
  {
    var items, packs, last :| Filled(Sizes, items, packs, last)
      && 0 <= 4 < |items| && items[4] == 4
      && forall p :: Get(answer.packs, p) == multiset(Walk(last, 4))[p];
    Walk4(items, packs, last);
    CountsOf13();
  }

  /** Any answer for 4 items that meets the rules and is the walk over tables
      filled for these sizes is `{1: 1, 3: 1}`, never `{2: 2}`. */
  lemma Answer4(answer: PackingCalculation)
    requires IsOptimal(Sizes, 4, answer.totalItems, answer.totalPacks)
    requires WalkedFromTable(Sizes, answer)
    requires forall p :: p in answer.packs ==> 0 < answer.packs[p]
    ensures answer == PackingCalculation(map[1 := 1, 3 := 1], 4, 2)
  {
    Order4();
    OptimalTotalsUnique(Sizes, Sizes, 4, answer.totalItems, answer.totalPacks, 4, 2);
    WalkedCounts(answer);
    SameCounts(answer.packs, map[1 := 1, 3 := 1]);
  }

  /** The calculator on sizes 1, 2 and 3 with 4 items returns `{1: 1, 3: 1}`. */
  method RunOrder4() returns (r: Result)
    ensures r == Success(PackingCalculation(map[1 := 1, 3 := 1], 4, 2))
  {
    r := TestTable.Run(Sizes, 4);
    Answer4(r.value);
  }
}
