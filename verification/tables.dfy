/** The dynamic-programming tables of the pack calculator, and what each entry
    means once it is filled. `items[t]` is the table `minItems`, `packs[t]` is
    `minPacks` and `last` is `lastPackUsed`; `c` is the sorted catalog. */
module Tables {
  import opened Selections

  /** `math.MaxInt32`, the marker of a total no combination reaches. */
  const Sentinel: int := 0x7FFF_FFFF

  /** Catalog entry `c[k]` can be the final pack of total `i`: it fits, and the
      rest `i - c[k]` is a total already known to be reachable. */
  ghost predicate Fits(c: seq<int>, items: seq<int>, k: int, i: int)
    requires 0 <= k < |c| && 0 <= i <= |items|
  {
    0 < c[k] <= i && items[i - c[k]] != Sentinel
  }

  /** `p` is a recorded final pack of total `j`: a catalog size that leaves a
      reachable rest, one pack fewer. */
  ghost predicate BackLink(c: seq<int>, items: seq<int>, packs: seq<int>, p: int, j: int)
    requires |items| == |packs| && 0 <= j < |items|
  {
    && p in c && 0 < p <= j
    && items[j - p] == j - p
    && packs[j] == packs[j - p] + 1
  }

  /** No entry among the first `n` of the catalog that is smaller than `p`
      would have finished total `j` with as few packs: the tie-break of the
      strict comparisons over the ascending catalog. */
  ghost predicate SmallestLink(c: seq<int>, items: seq<int>, packs: seq<int>, p: int, j: int, n: int)
    requires |items| == |packs| && 0 <= j < |items| && 0 <= n <= |c|
  {
    forall k :: 0 <= k < n && c[k] < p && Fits(c, items, k, j) ==> packs[j] < packs[j - c[k]] + 1
  }

  /** Entry `j` of the filled tables: either unreachable (the sentinel) or
      exactly `j`; reachable positive totals have a recorded final pack; and
      every selection summing to `j` is seen, with no fewer packs than
      `packs[j]`. */
  ghost predicate EntryOk(c: seq<int>, items: seq<int>, packs: seq<int>, last: map<int, int>, j: int)
    requires |items| == |packs| && 0 <= j < |items|
  {
    && (items[j] == j || items[j] == Sentinel)
    && (j == 0 ==> items[0] == 0 && packs[0] == 0 && 0 !in last)
    && (0 < j ==> (j in last <==> items[j] == j))
    && (0 < j && items[j] == j ==>
          BackLink(c, items, packs, last[j], j) && SmallestLink(c, items, packs, last[j], j, |c|))
    && (forall s :: IsSelection(c, s) && Sum(s) == j ==> items[j] == j && packs[j] <= |s|)
  }

  /** All entries of the tables are filled. */
  ghost predicate Filled(c: seq<int>, items: seq<int>, packs: seq<int>, last: map<int, int>)
  {
    && |items| == |packs| <= Sentinel
    && forall j :: 0 <= j < |items| ==> EntryOk(c, items, packs, last, j)
  }

  /** Every entry of `items` is its own total or the sentinel. */
  ghost predicate ExactOrUnreached(items: seq<int>)
  {
    forall j :: 0 <= j < |items| ==> items[j] == j || items[j] == Sentinel
  }

  lemma FilledExact(c: seq<int>, items: seq<int>, packs: seq<int>, last: map<int, int>)
    requires Filled(c, items, packs, last)
    ensures ExactOrUnreached(items)
  {
    forall j | 0 <= j < |items| ensures items[j] == j || items[j] == Sentinel {
      assert EntryOk(c, items, packs, last, j);
    }
  }

  /** Entry `i`, holding `item` and `pack`, after the packs `c[..n]` have been
      tried against it; `items` and `packs` are the entries below `i`. */
  ghost predicate Considered(c: seq<int>, items: seq<int>, packs: seq<int>, last: map<int, int>,
                             i: int, n: int, item: int, pack: int)
    requires |items| == |packs| == i && 0 < i && 0 <= n <= |c|
  {
    && (item == i || item == Sentinel)
    && (i in last <==> item == i)
    && (item == i ==>
          && (exists k :: 0 <= k < n && c[k] == last[i])
          && 0 < last[i] <= i && items[i - last[i]] == i - last[i]
          && pack == packs[i - last[i]] + 1
          && (forall k :: 0 <= k < n && c[k] < last[i] && Fits(c, items, k, i) ==> pack < packs[i - c[k]] + 1))
    && (forall k :: 0 <= k < n && Fits(c, items, k, i) ==> item == i && pack <= packs[i - c[k]] + 1)
  }

  /** Trying `c[k]` on entry `i` when it strictly improves the entry (there
      was none, or it needs fewer packs): it becomes the recorded final pack. */
  lemma ConsiderImproving(c: seq<int>, items: seq<int>, packs: seq<int>, last: map<int, int>,
                          i: int, k: int, item: int, pack: int)
    requires |items| == |packs| == i && 0 < i < Sentinel && 0 <= k < |c|
    requires Considered(c, items, packs, last, i, k, item, pack)
    requires Fits(c, items, k, i) && items[i - c[k]] == i - c[k]
    requires item == Sentinel || packs[i - c[k]] + 1 < pack
    ensures Considered(c, items, packs, last[i := c[k]], i, k + 1, i, packs[i - c[k]] + 1)
  {
  }

  /** Trying `c[k]` on entry `i` when it does not strictly improve it: the
      entry stays, and the ascending order keeps its final pack the smallest. */
  lemma ConsiderKeeping(c: seq<int>, items: seq<int>, packs: seq<int>, last: map<int, int>,
                        i: int, k: int, item: int, pack: int)
    requires |items| == |packs| == i && 0 < i && 0 <= k < |c|
    requires Sorted(c)
    requires Considered(c, items, packs, last, i, k, item, pack)
    requires Fits(c, items, k, i) ==> item == i && pack <= packs[i - c[k]] + 1
    ensures Considered(c, items, packs, last, i, k + 1, item, pack)
  {
    if item == i {
      var k' :| 0 <= k' < k && c[k'] == last[i];
      assert c[k'] <= c[k];
    }
  }

  /** Entries below `|items|` read the recorded final packs only below
      `|items|`. */
  lemma FilledFrame(c: seq<int>, items: seq<int>, packs: seq<int>, last: map<int, int>, last': map<int, int>)
    requires Filled(c, items, packs, last)
    requires forall u :: 0 <= u < |items| ==> (u in last <==> u in last')
    requires forall u :: 0 <= u < |items| && u in last ==> last[u] == last'[u]
    ensures Filled(c, items, packs, last')
  {
    forall j | 0 <= j < |items| ensures EntryOk(c, items, packs, last', j) {
      assert EntryOk(c, items, packs, last, j);
    }
  }

  /** Adding one entry that is right keeps the earlier entries right. */
  lemma FilledExtend(c: seq<int>, items: seq<int>, packs: seq<int>, last: map<int, int>)
    requires 0 < |items| == |packs| <= Sentinel
    requires Filled(c, items[..|items| - 1], packs[..|packs| - 1], last)
    requires EntryOk(c, items, packs, last, |items| - 1)
    ensures Filled(c, items, packs, last)
  {
    var n := |items| - 1;
    var items0, packs0 := items[..n], packs[..n];
    forall j | 0 <= j < n ensures EntryOk(c, items, packs, last, j) {
      assert EntryOk(c, items0, packs0, last, j);
      if 0 < j && items[j] == j {
        var p := last[j];
        assert BackLink(c, items0, packs0, p, j);
        assert SmallestLink(c, items0, packs0, p, j, |c|);
        forall k | 0 <= k < |c| && c[k] < p && Fits(c, items, k, j)
          ensures packs[j] < packs[j - c[k]] + 1
        {
          assert Fits(c, items0, k, j);
        }
      }
    }
  }

  /** Once every pack has been tried, entry `i` has seen every selection
      summing to `i`: its last pack fits, and the rest was already complete. */
  lemma ConsideredComplete(c: seq<int>, items: seq<int>, packs: seq<int>, last: map<int, int>,
                           i: int, item: int, pack: int)
    requires Positive(c)
    requires |items| == |packs| == i && 0 < i
    requires Filled(c, items, packs, last)
    requires Considered(c, items, packs, last, i, |c|, item, pack)
    ensures forall s :: IsSelection(c, s) && Sum(s) == i ==> item == i && pack <= |s|
  {
    forall s | IsSelection(c, s) && Sum(s) == i ensures item == i && pack <= |s| {
      assert s != [];
      var front, p := s[..|s| - 1], s[|s| - 1];
      assert IsSelection(c, front);
      SumAtLeastLength(c, front);
      var k :| 0 <= k < |c| && c[k] == p;
      assert EntryOk(c, items, packs, last, i - p);
      assert Fits(c, items, k, i);
    }
  }

  /** Entry `i`, with every pack tried, extends the filled tables by one. */
  lemma EntryFilled(c: seq<int>, items: seq<int>, packs: seq<int>, last: map<int, int>, last': map<int, int>,
                    i: int, item: int, pack: int)
    requires Positive(c)
    requires |items| == |packs| == i < Sentinel && 0 < i
    requires Filled(c, items, packs, last)
    requires forall u :: u != i ==> (u in last' <==> u in last)
    requires forall u :: u != i && u in last ==> last'[u] == last[u]
    requires Considered(c, items, packs, last', i, |c|, item, pack)
    ensures Filled(c, items + [item], packs + [pack], last')
  {
    FilledFrame(c, items, packs, last, last');
    ConsideredComplete(c, items, packs, last', i, item, pack);
    var items', packs' := items + [item], packs + [pack];
    assert items'[..i] == items && packs'[..i] == packs;
    if item == i {
      var p := last'[i];
      assert BackLink(c, items', packs', p, i) by {
        var k :| 0 <= k < |c| && c[k] == p;
      }
      forall k | 0 <= k < |c| && c[k] < p && Fits(c, items', k, i)
        ensures packs'[i] < packs'[i - c[k]] + 1
      {
        assert Fits(c, items, k, i);
      }
    }
    assert EntryOk(c, items', packs', last', i);
    FilledExtend(c, items', packs', last');
  }

  /** In filled tables, the first reachable total at or above `requested` is
      the optimal answer: rule 2 because every covering selection sums to a
      reachable total, rule 3 because the entry counts no more packs than any
      selection with that sum. `used` is a selection reaching it. */
  lemma FirstReachableOptimal(c: seq<int>, items: seq<int>, packs: seq<int>, last: map<int, int>,
                              requested: int, t: int, used: seq<int>)
    requires Filled(c, items, packs, last)
    requires 0 <= requested <= t < |items| && items[t] == t
    requires forall j :: requested <= j < t ==> items[j] == Sentinel
    requires IsSelection(c, used) && Sum(used) == t && |used| == packs[t]
    ensures IsOptimal(c, requested, t, packs[t])
  {
    assert EntryOk(c, items, packs, last, t);
    forall s | IsSelection(c, s) && requested <= Sum(s) ensures t <= Sum(s) {
      if Sum(s) < |items| {
        assert EntryOk(c, items, packs, last, Sum(s));
      }
    }
  }

  /** The packs met walking the recorded final packs down from total `t`:
      `last[t]`, then the walk from the rest `t - last[t]`, until 0. (The walk
      also stops at a total with no usable record, which filled tables never
      reach.) */
  function Walk(last: map<int, int>, t: int): seq<int>
    decreases t
  {
    if t <= 0 || t !in last || !(0 < last[t] <= t) then []
    else [last[t]] + Walk(last, t - last[t])
  }

  /** One step of the walk in filled tables: a reachable positive total
      records a catalog size no larger than itself that leaves a reachable
      rest, and the walk goes on from that rest. */
  lemma WalkStep(c: seq<int>, items: seq<int>, packs: seq<int>, last: map<int, int>, t: int)
    requires Filled(c, items, packs, last)
    requires 0 < t < |items| && items[t] == t
    ensures t in last && last[t] in c && 0 < last[t] <= t
    ensures items[t - last[t]] == t - last[t]
    ensures Walk(last, t) == [last[t]] + Walk(last, t - last[t])
  {
    assert EntryOk(c, items, packs, last, t);
    assert BackLink(c, items, packs, last[t], t);
  }

  /** In filled tables, the walk from a reachable total is a selection with
      that many items and as many packs as the table records for it. */
  lemma {:induction false} WalkSelection(c: seq<int>, items: seq<int>, packs: seq<int>, last: map<int, int>, t: int)
    requires Filled(c, items, packs, last)
    requires 0 <= t < |items| && items[t] == t
    ensures IsSelection(c, Walk(last, t))
    ensures Sum(Walk(last, t)) == t && |Walk(last, t)| == packs[t]
    decreases t
  {
    if t == 0 {
      assert EntryOk(c, items, packs, last, 0);
    } else {
      WalkStep(c, items, packs, last, t);
      var p := last[t];
      WalkSelection(c, items, packs, last, t - p);
      SumPrepend(p, Walk(last, t - p));
      WalkPacks(c, items, packs, last, t);
    }
  }

  /** A reachable positive total needs one pack more than the rest its
      recorded final pack leaves. */
  lemma WalkPacks(c: seq<int>, items: seq<int>, packs: seq<int>, last: map<int, int>, t: int)
    requires Filled(c, items, packs, last)
    requires 0 < t < |items| && items[t] == t
    ensures t in last && 0 < last[t] <= t && packs[t] == packs[t - last[t]] + 1
  {
    assert EntryOk(c, items, packs, last, t);
    assert BackLink(c, items, packs, last[t], t);
  }

  /** Filled tables depend only on which sizes the catalog offers. */
  lemma FilledSameMembers(c1: seq<int>, c2: seq<int>, items: seq<int>, packs: seq<int>, last: map<int, int>)
    requires forall p :: p in c1 ==> p in c2
    requires forall p :: p in c2 ==> p in c1
    requires Filled(c1, items, packs, last)
    ensures Filled(c2, items, packs, last)
  {
    forall j | 0 <= j < |items| ensures EntryOk(c2, items, packs, last, j) {
      assert EntryOk(c1, items, packs, last, j);
      forall s | IsSelection(c2, s) && Sum(s) == j ensures items[j] == j && packs[j] <= |s| {
        SubsetSizes(c2, c1, s);
      }
      if 0 < j && items[j] == j {
        var p := last[j];
        assert SmallestLink(c1, items, packs, p, j, |c1|);
        forall k | 0 <= k < |c2| && c2[k] < p && Fits(c2, items, k, j)
          ensures packs[j] < packs[j - c2[k]] + 1
        {
          assert c2[k] in c1;
          var k1 :| 0 <= k1 < |c1| && c1[k1] == c2[k];
          assert Fits(c1, items, k1, j);
        }
      }
    }
  }

  /** Two filled tables over catalogs with the same sizes agree on which
      totals are reachable and, for those, on the fewest packs. */
  lemma ReachSame(c1: seq<int>, items1: seq<int>, packs1: seq<int>, last1: map<int, int>,
                  c2: seq<int>, items2: seq<int>, packs2: seq<int>, last2: map<int, int>, j: int)
    requires forall p :: p in c1 ==> p in c2
    requires forall p :: p in c2 ==> p in c1
    requires Filled(c1, items1, packs1, last1) && Filled(c2, items2, packs2, last2)
    requires 0 <= j < |items1| && j < |items2|
    ensures items1[j] == items2[j]
    ensures items1[j] == j ==> packs1[j] == packs2[j]
  {
    assert EntryOk(c1, items1, packs1, last1, j);
    assert EntryOk(c2, items2, packs2, last2, j);
    if items1[j] == j {
      WalkSelection(c1, items1, packs1, last1, j);
      SubsetSizes(c1, c2, Walk(last1, j));
    }
    if items2[j] == j {
      WalkSelection(c2, items2, packs2, last2, j);
      SubsetSizes(c2, c1, Walk(last2, j));
    }
  }

  /** Two filled tables over catalogs with the same sizes record the same
      final pack for every reachable positive total: the smallest size that
      finishes it with the fewest packs. */
  lemma LastSame(c1: seq<int>, items1: seq<int>, packs1: seq<int>, last1: map<int, int>,
                 c2: seq<int>, items2: seq<int>, packs2: seq<int>, last2: map<int, int>, j: int)
    requires forall p :: p in c1 ==> p in c2
    requires forall p :: p in c2 ==> p in c1
    requires Filled(c1, items1, packs1, last1) && Filled(c2, items2, packs2, last2)
    requires 0 < j < |items1| && j < |items2| && items1[j] == j
    ensures j in last1 && j in last2 && last1[j] == last2[j]
  {
    ReachSame(c1, items1, packs1, last1, c2, items2, packs2, last2, j);
    assert EntryOk(c1, items1, packs1, last1, j);
    assert EntryOk(c2, items2, packs2, last2, j);
    var p1, p2 := last1[j], last2[j];
    assert BackLink(c1, items1, packs1, p1, j) && BackLink(c2, items2, packs2, p2, j);
    ReachSame(c1, items1, packs1, last1, c2, items2, packs2, last2, j - p1);
    ReachSame(c1, items1, packs1, last1, c2, items2, packs2, last2, j - p2);
  }

  /** Two filled tables over catalogs with the same sizes walk the same packs
      down from any reachable total. */
  lemma {:induction false} WalkSame(c1: seq<int>, items1: seq<int>, packs1: seq<int>, last1: map<int, int>,
                                    c2: seq<int>, items2: seq<int>, packs2: seq<int>, last2: map<int, int>, t: int)
    requires forall p :: p in c1 ==> p in c2
    requires forall p :: p in c2 ==> p in c1
    requires Filled(c1, items1, packs1, last1) && Filled(c2, items2, packs2, last2)
    requires 0 <= t < |items1| && t < |items2| && items1[t] == t
    ensures Walk(last1, t) == Walk(last2, t)
    decreases t
  {
    if t > 0 {
      LastSame(c1, items1, packs1, last1, c2, items2, packs2, last2, t);
      ReachSame(c1, items1, packs1, last1, c2, items2, packs2, last2, t);
      WalkStep(c1, items1, packs1, last1, t);
      WalkStep(c2, items2, packs2, last2, t);
      WalkSame(c1, items1, packs1, last1, c2, items2, packs2, last2, t - last1[t]);
    }
  }
}
