/** The calculator's test table, applied to the model: each order's whole
    answer, map included, follows from the contract of `CalculatePack` and
    the worked examples. */
module TestTable {
  import opened Selections
  import opened Tallies
  import opened Tables
  import opened PackCalculator
  import CatalogExample
  import SingleSizeExample

  /** The calculator on a fresh array holding `sizes`. */
  method Run(sizes: seq<int>, requestedCount: int) returns (r: Result)
    requires 0 < requestedCount && sizes != []
    requires forall k :: 0 <= k < |sizes| ==> 0 < sizes[k] && requestedCount + sizes[k] < Sentinel
    ensures r.Success?
    ensures IsOptimal(sizes, requestedCount, r.value.totalItems, r.value.totalPacks)
    ensures CountsSelection(sizes, r.value)
    ensures WalkedFromTable(sizes, r.value)
    ensures forall p :: p in r.value.packs ==> 0 < r.value.packs[p]
  {
    var a := new int[|sizes|](i requires 0 <= i < |sizes| => sizes[i]);
    assert a[..] == sizes;
    r := CalculatePack(a, requestedCount);
  }

  /** Every selection from `c` with the totals of `expected` counts as the
      map of `expected` does: no other map has those totals. */
  ghost predicate PinsMap(c: seq<int>, expected: PackingCalculation)
  {
    forall s :: IsSelection(c, s) && Sum(s) == expected.totalItems && |s| == expected.totalPacks ==>
      forall p :: multiset(s)[p] == Get(expected.packs, p)
  }

  /** An answer that meets the rules for `requested` over `c` and counts a
      selection with its totals is `expected`, when `expected`'s totals are
      optimal and no other map has them. */
  lemma ExpectedAnswer(c: seq<int>, requested: int, answer: PackingCalculation, expected: PackingCalculation)
    requires IsOptimal(c, requested, expected.totalItems, expected.totalPacks)
    requires PinsMap(c, expected)
    requires forall p :: p in expected.packs ==> 0 < expected.packs[p]
    requires IsOptimal(c, requested, answer.totalItems, answer.totalPacks)
    requires CountsSelection(c, answer)
    requires forall p :: p in answer.packs ==> 0 < answer.packs[p]
    ensures answer == expected
  {
    OptimalTotalsUnique(c, c, requested, answer.totalItems, answer.totalPacks,
                        expected.totalItems, expected.totalPacks);
    var s :| IsSelection(c, s) && Sum(s) == answer.totalItems
      && |s| == answer.totalPacks && forall p :: Get(answer.packs, p) == multiset(s)[p];
    SameCounts(answer.packs, expected.packs);
  }

  /** `n` packs of 5 are counted only as `{5: n}`. */
  lemma PinsFives(n: nat)
    ensures PinsMap(SingleSizeExample.Fives, PackingCalculation(map[5 := n], 5 * n, n))
  {
    forall s | IsSelection(SingleSizeExample.Fives, s) && Sum(s) == 5 * n && |s| == n
      ensures forall p :: multiset(s)[p] == Get(map[5 := n], p)
    {
      SingleSizeExample.AllFives(s);
    }
  }

  /** One pack holding `size` items is counted only as `{size: 1}`. */
  lemma PinsOnePack(size: int)
    ensures PinsMap(CatalogExample.Catalog, PackingCalculation(map[size := 1], size, 1))
  {
    forall s | IsSelection(CatalogExample.Catalog, s) && Sum(s) == size && |s| == 1
      ensures forall p :: multiset(s)[p] == Get(map[size := 1], p)
    {
      CatalogExample.OnePack(s);
    }
  }

  /** Two packs holding 750 items are counted only as `{250: 1, 500: 1}`. */
  lemma Pins750()
    ensures PinsMap(CatalogExample.Catalog, PackingCalculation(map[250 := 1, 500 := 1], 750, 2))
  {
    forall s | IsSelection(CatalogExample.Catalog, s) && Sum(s) == 750 && |s| == 2
      ensures forall p :: multiset(s)[p] == Get(map[250 := 1, 500 := 1], p)
    {
      CatalogExample.TwoPacks750(s);
    }
  }

  /** Four packs holding 12250 items are counted only as
      `{5000: 2, 2000: 1, 250: 1}`. */
  lemma Pins12250()
    ensures PinsMap(CatalogExample.Catalog, PackingCalculation(map[5000 := 2, 2000 := 1, 250 := 1], 12250, 4))
  {
    forall s | IsSelection(CatalogExample.Catalog, s) && Sum(s) == 12250 && |s| == 4
      ensures forall p :: multiset(s)[p] == Get(map[5000 := 2, 2000 := 1, 250 := 1], p)
    {
      CatalogExample.FourPacks12250(s);
    }
  }

  /** With only packs of 5, the orders 5, 3 and 12: `n` packs of 5, counted
      as `{5: n}`. */
  lemma AnswerFives(requested: int, n: nat, answer: PackingCalculation)
    requires 5 * (n - 1) < requested <= 5 * n && 0 < n
    requires IsOptimal(SingleSizeExample.Fives, requested, answer.totalItems, answer.totalPacks)
    requires CountsSelection(SingleSizeExample.Fives, answer)
    requires forall p :: p in answer.packs ==> 0 < answer.packs[p]
    ensures answer == PackingCalculation(map[5 := n], 5 * n, n)
  {
    SingleSizeExample.FivesOptimal(requested, n);
    PinsFives(n);
    ExpectedAnswer(SingleSizeExample.Fives, requested, answer, PackingCalculation(map[5 := n], 5 * n, n));
  }

  /** "single pack exact match": 5 items from packs of 5 ship one pack. */
  method RunExactMatch() returns (r: Result)
    ensures r == Success(PackingCalculation(map[5 := 1], 5, 1))
  {
    r := Run(SingleSizeExample.Fives, 5);
    AnswerFives(5, 1, r.value);
  }

  /** "single pack with overshoot": 3 items from packs of 5 ship one pack. */
  method RunOvershoot() returns (r: Result)
    ensures r == Success(PackingCalculation(map[5 := 1], 5, 1))
  {
    r := Run(SingleSizeExample.Fives, 3);
    AnswerFives(3, 1, r.value);
  }

  /** "multiple same packs": 12 items from packs of 5 ship three packs. */
  method RunSamePacks() returns (r: Result)
    ensures r == Success(PackingCalculation(map[5 := 3], 15, 3))
  {
    r := Run(SingleSizeExample.Fives, 12);
    AnswerFives(12, 3, r.value);
  }

  /** The test orders 1 and 250 over the example sizes, and every order in
      between, ship one pack of 250. */
  lemma AnswerSmallOrder(requestedCount: int, answer: PackingCalculation)
    requires 0 < requestedCount <= 250
    requires IsOptimal(CatalogExample.Catalog, requestedCount, answer.totalItems, answer.totalPacks)
    requires CountsSelection(CatalogExample.Catalog, answer)
    requires forall p :: p in answer.packs ==> 0 < answer.packs[p]
    ensures answer == PackingCalculation(map[250 := 1], 250, 1)
  {
    CatalogExample.SmallOrder(requestedCount);
    PinsOnePack(250);
    ExpectedAnswer(CatalogExample.Catalog, requestedCount, answer, PackingCalculation(map[250 := 1], 250, 1));
  }

  /** "order 1 item, choose smallest pack (250)" and "order 250 items, exact
      match with 1x250". */
  method RunSmallOrder(requestedCount: int) returns (r: Result)
    requires 0 < requestedCount <= 250
    ensures r == Success(PackingCalculation(map[250 := 1], 250, 1))
  {
    r := Run(CatalogExample.Catalog, requestedCount);
    AnswerSmallOrder(requestedCount, r.value);
  }

  /** The order of 251 items: one pack of 500. */
  lemma AnswerOrder251(answer: PackingCalculation)
    requires IsOptimal(CatalogExample.Catalog, 251, answer.totalItems, answer.totalPacks)
    requires CountsSelection(CatalogExample.Catalog, answer)
    requires forall p :: p in answer.packs ==> 0 < answer.packs[p]
    ensures answer == PackingCalculation(map[500 := 1], 500, 1)
  {
    CatalogExample.Order251();
    PinsOnePack(500);
    ExpectedAnswer(CatalogExample.Catalog, 251, answer, PackingCalculation(map[500 := 1], 500, 1));
  }

  /** "order 251 items, prefer 1x500 over 2x250". */
  method RunOrder251() returns (r: Result)
    ensures r == Success(PackingCalculation(map[500 := 1], 500, 1))
  {
    r := Run(CatalogExample.Catalog, 251);
    AnswerOrder251(r.value);
  }

  /** The order of 501 items: 250 and 500. */
  lemma AnswerOrder501(answer: PackingCalculation)
    requires IsOptimal(CatalogExample.Catalog, 501, answer.totalItems, answer.totalPacks)
    requires CountsSelection(CatalogExample.Catalog, answer)
    requires forall p :: p in answer.packs ==> 0 < answer.packs[p]
    ensures answer == PackingCalculation(map[250 := 1, 500 := 1], 750, 2)
  {
    CatalogExample.Order501();
    Pins750();
    ExpectedAnswer(CatalogExample.Catalog, 501, answer, PackingCalculation(map[250 := 1, 500 := 1], 750, 2));
  }

  /** The order of 501 items: 250 and 500. */
  method RunOrder501() returns (r: Result)
    ensures r == Success(PackingCalculation(map[250 := 1, 500 := 1], 750, 2))
  {
    r := Run(CatalogExample.Catalog, 501);
    AnswerOrder501(r.value);
  }

  /** The order of 12001 items: two packs of 5000, one of 2000, one of 250. */
  lemma AnswerOrder12001(answer: PackingCalculation)
    requires IsOptimal(CatalogExample.Catalog, 12001, answer.totalItems, answer.totalPacks)
    requires CountsSelection(CatalogExample.Catalog, answer)
    requires forall p :: p in answer.packs ==> 0 < answer.packs[p]
    ensures answer == PackingCalculation(map[5000 := 2, 2000 := 1, 250 := 1], 12250, 4)
  {
    CatalogExample.Order12001();
    Pins12250();
    ExpectedAnswer(CatalogExample.Catalog, 12001, answer,
                   PackingCalculation(map[5000 := 2, 2000 := 1, 250 := 1], 12250, 4));
  }

  /** "order 12001 items, optimal is 2x5000 + 1x2000 + 1x250 over 3x5000". */
  method RunOrder12001() returns (r: Result)
    ensures r == Success(PackingCalculation(map[5000 := 2, 2000 := 1, 250 := 1], 12250, 4))
  {
    r := Run(CatalogExample.Catalog, 12001);
    AnswerOrder12001(r.value);
  }

  /** The error rows: a zero or negative request with packs of 5, and an
      order of 5 with no packs (a nil slice is an empty one here). */
  method RunErrors() returns (zero: Result, negative: Result, empty: Result)
    ensures zero == Failure(RequestedCountNotPositive)
    ensures zero.error.Message() == "requested count must be greater than 0"
    ensures negative == Failure(RequestedCountNotPositive)
    ensures negative.error.Message() == "requested count must be greater than 0"
    ensures empty == Failure(NoPacksAvailable)
    ensures empty.error.Message() == "no packs available to fulfill the order"
  {
    var fives := new int[1];
    fives[0] := 5;
    zero := CalculatePack(fives, 0);
    negative := CalculatePack(fives, -1);
    var none := new int[0];
    empty := CalculatePack(none, 5);
  }
}
