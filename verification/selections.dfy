/** Selections of packs from a catalog, and what makes a selection optimal.
    A selection is the list of packs shipped, in any order; the catalog is the
    list of pack sizes (duplicates allowed, as in the slice the calculator gets). */
module Selections {

  /** Total number of items in a list of packs. */
  function Sum(s: seq<int>): int
  {
    if s == [] then 0 else Sum(s[..|s| - 1]) + s[|s| - 1]
  }

  /** Every pack size in the catalog is positive. */
  ghost predicate Positive(c: seq<int>)
  {
    forall k :: 0 <= k < |c| ==> 0 < c[k]
  }

  /** Ascending order, as the calculator leaves its catalog. */
  ghost predicate Sorted(c: seq<int>)
  {
    forall x, y :: 0 <= x < y < |c| ==> c[x] <= c[y]
  }

  /** Every pack of `s` is a size from the catalog `c` (packs are whole). */
  ghost predicate IsSelection(c: seq<int>, s: seq<int>)
  {
    forall k :: 0 <= k < |s| ==> s[k] in c
  }

  /** The three ranked rules: packs are whole, the fewest items that still
      cover `requested`, and among those the fewest packs. */
  ghost predicate IsOptimal(c: seq<int>, requested: int, totalItems: int, totalPacks: int)
  {
    && requested <= totalItems
    && (exists s :: IsSelection(c, s) && Sum(s) == totalItems && |s| == totalPacks)
    && (forall s :: IsSelection(c, s) && requested <= Sum(s) ==> totalItems <= Sum(s))
    && (forall s :: IsSelection(c, s) && Sum(s) == totalItems ==> totalPacks <= |s|)
  }

  /** A selection of positive packs holds at least one item per pack. */
  lemma {:induction false} SumAtLeastLength(c: seq<int>, s: seq<int>)
    requires Positive(c) && IsSelection(c, s)
    ensures |s| <= Sum(s)
  {
    if s != [] {
      assert IsSelection(c, s[..|s| - 1]);
      SumAtLeastLength(c, s[..|s| - 1]);
      var k :| 0 <= k < |c| && c[k] == s[|s| - 1];
    }
  }

  /** Appending a pack adds its size. */
  lemma SumAppend(s: seq<int>, p: int)
    ensures Sum(s + [p]) == Sum(s) + p
  {
    assert (s + [p])[..|s + [p]| - 1] == s;
  }

  /** Putting a pack in front adds its size. */
  lemma {:induction false} SumPrepend(p: int, s: seq<int>)
    ensures Sum([p] + s) == p + Sum(s)
  {
    if s == [] {
      assert [p] + s == [p];
      assert [p][..0] == [];
    } else {
      var front := s[..|s| - 1];
      assert ([p] + s)[..|s|] == [p] + front;
      SumPrepend(p, front);
    }
  }

  /** Repeating the largest pack covers any positive request with an overshoot
      below that pack's size, so the search ceiling `requested + maxPack` is
      never too small. */
  lemma {:induction false} Covering(c: seq<int>, m: int, requested: int) returns (s: seq<int>)
    requires m in c && 0 < m && 0 < requested
    ensures IsSelection(c, s)
    ensures requested <= Sum(s) < requested + m
    decreases requested
  {
    if requested <= m {
      s := [m];
      assert Sum(s) == Sum([]) + m;
    } else {
      var t := Covering(c, m, requested - m);
      s := t + [m];
      SumAppend(t, m);
    }
  }

  /** Which sizes a catalog offers is all that selections depend on. */
  lemma SameSizes(c1: seq<int>, c2: seq<int>, s: seq<int>)
    requires multiset(c1) == multiset(c2)
    requires IsSelection(c1, s)
    ensures IsSelection(c2, s)
  {
    forall k | 0 <= k < |s| ensures s[k] in c2 {
      assert s[k] in multiset(c1);
    }
  }

  /** A selection from `c1` is one from any catalog offering its sizes. */
  lemma SubsetSizes(c1: seq<int>, c2: seq<int>, s: seq<int>)
    requires forall p :: p in c1 ==> p in c2
    requires IsSelection(c1, s)
    ensures IsSelection(c2, s)
  {
    forall k | 0 <= k < |s| ensures s[k] in c2 {
      var i :| 0 <= i < |c1| && c1[i] == s[k];
    }
  }

  /** Optimality depends only on which sizes the catalog offers, not on
      their order: it survives the in-place sort. */
  lemma OptimalSameSizes(c1: seq<int>, c2: seq<int>, requested: int, items: int, packs: int)
    requires multiset(c1) == multiset(c2)
    requires IsOptimal(c1, requested, items, packs)
    ensures IsOptimal(c2, requested, items, packs)
  {
    var s :| IsSelection(c1, s) && Sum(s) == items && |s| == packs;
    SameSizes(c1, c2, s);
    forall s | IsSelection(c2, s) ensures IsSelection(c1, s) {
      SameSizes(c2, c1, s);
    }
  }

  /** The ranked rules pin down both totals: two optimal answers for the same
      request over catalogs with the same sizes agree on items and on packs,
      whatever order the catalogs list their sizes in. */
  lemma OptimalTotalsUnique(c1: seq<int>, c2: seq<int>, requested: int,
                            items1: int, packs1: int, items2: int, packs2: int)
    requires forall p :: p in c1 ==> p in c2
    requires forall p :: p in c2 ==> p in c1
    requires IsOptimal(c1, requested, items1, packs1)
    requires IsOptimal(c2, requested, items2, packs2)
    ensures items1 == items2 && packs1 == packs2
  {
    var s1 :| IsSelection(c1, s1) && Sum(s1) == items1 && |s1| == packs1;
    var s2 :| IsSelection(c2, s2) && Sum(s2) == items2 && |s2| == packs2;
    assert IsSelection(c2, s1) by {
      forall k | 0 <= k < |s1| ensures s1[k] in c2 {
        var i :| 0 <= i < |c1| && c1[i] == s1[k];
      }
    }
    assert IsSelection(c1, s2) by {
      forall k | 0 <= k < |s2| ensures s2[k] in c1 {
        var i :| 0 <= i < |c2| && c2[i] == s2[k];
      }
    }
  }
}
