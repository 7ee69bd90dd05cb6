/** The worked example of the pack calculator: sizes 250, 500, 1000, 2000
    and 5000, and an order of 12001 items. */
module CatalogExample {
  import opened Selections

  /** The example catalog, in ascending order. */
  const Catalog: seq<int> := [250, 500, 1000, 2000, 5000]

  /** Every selection from the example catalog ships a multiple of 250. */
  lemma {:induction false} MultipleOf250(s: seq<int>)
    requires IsSelection(Catalog, s)
    ensures Sum(s) % 250 == 0
  {
    if s != [] {
      assert IsSelection(Catalog, s[..|s| - 1]);
      MultipleOf250(s[..|s| - 1]);
      assert s[|s| - 1] in Catalog;
    }
  }

  /** Whatever covers `requested` ships at least the next multiple of 250. */
  lemma RoundUp(s: seq<int>, requested: int, total: int)
    requires IsSelection(Catalog, s) && requested <= Sum(s)
    requires total % 250 == 0 && total - 250 < requested
    ensures total <= Sum(s)
  {
    MultipleOf250(s);
  }

  /** No pack of the example catalog holds more than 5000 items. */
  lemma {:induction false} AtMost5000Each(s: seq<int>)
    requires IsSelection(Catalog, s)
    ensures Sum(s) <= 5000 * |s|
  {
    if s != [] {
      assert IsSelection(Catalog, s[..|s| - 1]);
      AtMost5000Each(s[..|s| - 1]);
      assert s[|s| - 1] in Catalog;
    }
  }

  /** Three packs of the example catalog never make exactly 12250 items. */
  lemma ThreePacks(s: seq<int>)
    requires IsSelection(Catalog, s) && |s| == 3
    ensures Sum(s) != 12250
  {
    assert s[0] in Catalog && s[1] in Catalog && s[2] in Catalog;
    assert Sum(s[..1]) == s[0] by { assert s[..1][..0] == []; }
    assert Sum(s[..2]) == s[0] + s[1] by { assert s[..2][..1] == s[..1]; }
    assert Sum(s) == s[0] + s[1] + s[2];
  }

  /** Ordering 12001 items from the example catalog ships 12250 items in four
      packs (5000, 5000, 2000 and 250): 12250 is the smallest multiple of 250
      that covers the order, and three packs cannot hold it. */
  lemma Order12001()
    ensures IsOptimal(Catalog, 12001, 12250, 4)
  {
    var best := [5000, 5000, 2000, 250];
    assert Sum(best) == 12250 by {
      SumAppend([], 5000);
      SumAppend([5000], 5000);
      SumAppend([5000, 5000], 2000);
      SumAppend([5000, 5000, 2000], 250);
      assert [5000, 5000, 2000] + [250] == best;
    }
    assert IsSelection(Catalog, best);
    forall s | IsSelection(Catalog, s) && 12001 <= Sum(s) ensures 12250 <= Sum(s) {
      RoundUp(s, 12001, 12250);
    }
    forall s | IsSelection(Catalog, s) && Sum(s) == 12250 ensures 4 <= |s| {
      AtMost5000Each(s);
      if |s| == 3 {
        ThreePacks(s);
      }
    }
  }

  /** Whatever answer meets the ranked rules for 12001 items over the example
      sizes, listed in any order (as the calculator returns it for the test
      order), it ships 12250 items in four packs. */
  lemma Order12001Totals(c: seq<int>, items: int, packs: int)
    requires multiset(c) == multiset(Catalog)
    requires IsOptimal(c, 12001, items, packs)
    ensures items == 12250 && packs == 4
  {
    OptimalSameSizes(c, Catalog, 12001, items, packs);
    Order12001();
    OptimalTotalsUnique(Catalog, Catalog, 12001, items, packs, 12250, 4);
  }

  /** A single pack of the example catalog is its own size. */
  lemma OnePack(s: seq<int>)
    requires IsSelection(Catalog, s) && |s| == 1
    ensures Sum(s) in Catalog && s == [Sum(s)]
  {
    assert s[..0] == [];
    assert s[0] in Catalog;
  }

  /** Ordering 251 items ships one pack of 500 rather than two of 250: both
      ship 500 items, and one pack is fewer. */
  lemma Order251()
    ensures IsOptimal(Catalog, 251, 500, 1)
  {
    assert IsSelection(Catalog, [500]);
    SumAppend([], 500);
    forall s | IsSelection(Catalog, s) && 251 <= Sum(s) ensures 500 <= Sum(s) {
      RoundUp(s, 251, 500);
    }
  }

  /** No size of the example catalog is 750, so 750 items take two packs. */
  lemma NoSingle750(s: seq<int>)
    requires IsSelection(Catalog, s) && Sum(s) == 750
    ensures 2 <= |s|
  {
    if |s| == 1 {
      OnePack(s);
    }
  }

  /** Ordering 501 items ships 750 items as 250 and 500: no single size of the
      catalog is 750, so two packs are needed. */
  lemma Order501()
    ensures IsOptimal(Catalog, 501, 750, 2)
  {
    SumAppend([], 250);
    SumAppend([250], 500);
    assert [250] + [500] == [250, 500];
    assert IsSelection(Catalog, [250, 500]);
    forall s | IsSelection(Catalog, s) && 501 <= Sum(s) ensures 750 <= Sum(s) {
      RoundUp(s, 501, 750);
    }
    forall s | IsSelection(Catalog, s) && Sum(s) == 750 ensures 2 <= |s| {
      NoSingle750(s);
    }
  }

  /** Ordering 1 to 250 items (the test orders 1 and 250) ships one pack of
      250. */
  lemma SmallOrder(requested: int)
    requires 0 < requested <= 250
    ensures IsOptimal(Catalog, requested, 250, 1)
  {
    assert IsSelection(Catalog, [250]);
    SumAppend([], 250);
    forall s | IsSelection(Catalog, s) && requested <= Sum(s) ensures 250 <= Sum(s) {
      RoundUp(s, requested, 250);
    }
  }

  /** The only two packs of the example catalog that make 750 items are 250
      and 500, so the answer to 501 items has one map. */
  lemma TwoPacks750(s: seq<int>)
    requires IsSelection(Catalog, s) && |s| == 2 && Sum(s) == 750
    ensures multiset(s) == multiset{250, 500}
  {
    assert s[0] in Catalog && s[1] in Catalog;
    assert Sum(s[..1]) == s[0] by { assert s[..1][..0] == []; }
    assert s == [s[0], s[1]];
  }

  /** One of the example sizes, written out. */
  predicate IsSize(x: int)
  {
    x == 250 || x == 500 || x == 1000 || x == 2000 || x == 5000
  }

  /** Four of the example sizes adding up to 12250 are 5000, 5000, 2000 and
      250, in some order. */
  lemma FourSizes(a: int, b: int, c: int, d: int)
    requires IsSize(a) && IsSize(b) && IsSize(c) && IsSize(d)
    requires a + b + c + d == 12250
    ensures multiset{a, b, c, d} == multiset{5000, 5000, 2000, 250}
  {
  }

  /** A size of the example catalog is one of the five written out. */
  lemma SizeOf(x: int)
    requires x in Catalog
    ensures IsSize(x)
  {
  }

  /** The items in four packs, written out. */
  lemma SumOfFour(s: seq<int>)
    requires |s| == 4
    ensures Sum(s) == s[0] + s[1] + s[2] + s[3]
  {
    assert Sum(s[..1]) == s[0] by { assert s[..1][..0] == []; }
    assert Sum(s[..2]) == s[0] + s[1] by { assert s[..2][..1] == s[..1]; }
    assert Sum(s[..3]) == s[0] + s[1] + s[2] by { assert s[..3][..2] == s[..2]; }
  }

  /** Four packs, as a multiset, whatever their order. */
  lemma MultisetOfFour(s: seq<int>)
    requires |s| == 4
    ensures multiset(s) == multiset{s[0], s[1], s[2], s[3]}
  {
    assert s == [s[0]] + [s[1]] + [s[2]] + [s[3]];
  }

  /** Four packs from the example catalog making 12250 items, as values. */
  lemma FourPacksValues(s: seq<int>)
    requires IsSelection(Catalog, s) && |s| == 4 && Sum(s) == 12250
    ensures multiset{s[0], s[1], s[2], s[3]} == multiset{5000, 5000, 2000, 250}
  {
    SumOfFour(s);
    SizeOf(s[0]);
    SizeOf(s[1]);
    SizeOf(s[2]);
    SizeOf(s[3]);
    FourSizes(s[0], s[1], s[2], s[3]);
  }

  /** The only four packs of the example catalog that make 12250 items are
      5000, 5000, 2000 and 250, so the answer to 12001 items has one map. */
  lemma FourPacks12250(s: seq<int>)
    requires IsSelection(Catalog, s) && |s| == 4 && Sum(s) == 12250
    ensures multiset(s) == multiset{5000, 5000, 2000, 250}
  {
    MultisetOfFour(s);
    FourPacksValues(s);
  }
}
