/** `CalculatePack`: given the catalog of pack sizes and a requested item
    count, how many of each pack to ship. The ranked rules: packs are whole;
    ship the fewest items that cover the order; among those, the fewest packs.
    A bounded dynamic program over item totals `0 ..= requested + maxPack`. */
module PackCalculator {
  import opened Selections
  import opened Tallies
  import opened Tables

  /** `PackingCalculation`: pack size to count, and the two totals. */
  datatype PackingCalculation = PackingCalculation(packs: map<int, int>, totalItems: int, totalPacks: int)

  /** The answer's map counts, size by size, one selection from `c` with the
      answer's item and pack totals. */
  ghost predicate CountsSelection(c: seq<int>, answer: PackingCalculation)
  {
    exists s :: IsSelection(c, s) && Sum(s) == answer.totalItems && |s| == answer.totalPacks
      && forall p :: Get(answer.packs, p) == multiset(s)[p]
  }

  /** The answer's map counts the packs met walking the recorded final packs
      down from its item total, in tables filled for `c`: at each total the
      smallest size that finishes it with the fewest packs. */
  ghost predicate WalkedFromTable(c: seq<int>, answer: PackingCalculation)
  {
    exists items, packs, last :: Filled(c, items, packs, last)
      && 0 <= answer.totalItems < |items| && items[answer.totalItems] == answer.totalItems
      && forall p :: Get(answer.packs, p) == multiset(Walk(last, answer.totalItems))[p]
  }

  /** The ranked rules together with the walk pin down the whole answer:
      two answers for the same request over catalogs offering the same sizes,
      listed in any order, are equal, map included. */
  lemma AnswerUnique(c1: seq<int>, c2: seq<int>, requested: int, a1: PackingCalculation, a2: PackingCalculation)
    requires forall p :: p in c1 ==> p in c2
    requires forall p :: p in c2 ==> p in c1
    requires IsOptimal(c1, requested, a1.totalItems, a1.totalPacks)
    requires IsOptimal(c2, requested, a2.totalItems, a2.totalPacks)
    requires WalkedFromTable(c1, a1) && WalkedFromTable(c2, a2)
    requires forall p :: p in a1.packs ==> 0 < a1.packs[p]
    requires forall p :: p in a2.packs ==> 0 < a2.packs[p]
    ensures a1 == a2
  {
    OptimalTotalsUnique(c1, c2, requested, a1.totalItems, a1.totalPacks, a2.totalItems, a2.totalPacks);
    var t := a1.totalItems;
    var items1, packs1, last1 :| Filled(c1, items1, packs1, last1)
      && 0 <= t < |items1| && items1[t] == t
      && forall p :: Get(a1.packs, p) == multiset(Walk(last1, t))[p];
    var items2, packs2, last2 :| Filled(c2, items2, packs2, last2)
      && 0 <= t < |items2| && items2[t] == t
      && forall p :: Get(a2.packs, p) == multiset(Walk(last2, t))[p];
    WalkSame(c1, items1, packs1, last1, c2, items2, packs2, last2, t);
    SameCounts(a1.packs, a2.packs);
  }

  /** The three errors the calculator can return. */
  datatype CalcError =
    | RequestedCountNotPositive
    | NoPacksAvailable
    | NoValidCombination
  {
    /** The error's text; each text names exactly one error. */
    function Message(): (msg: string)
      ensures msg == "requested count must be greater than 0" <==> this == RequestedCountNotPositive
      ensures msg == "no packs available to fulfill the order" <==> this == NoPacksAvailable
      ensures msg == "no valid combination found" <==> this == NoValidCombination
    {
      match this
      case RequestedCountNotPositive => "requested count must be greater than 0"
      case NoPacksAvailable => "no packs available to fulfill the order"
      case NoValidCombination => "no valid combination found"
    }
  }

  datatype Result = Success(value: PackingCalculation) | Failure(error: CalcError)

  /** `sort.Slice` with `availablePacks[i] < availablePacks[j]`: ascending,
      in place, a permutation of what was there. */
  method SortAscending(a: array<int>)
    modifies a
    ensures Sorted(a[..])
    ensures multiset(a[..]) == old(multiset(a[..]))
  {
    var i := 1;
    while i < a.Length
      invariant 0 < a.Length ==> 1 <= i <= a.Length
      invariant forall x, y :: 0 <= x < y < i && y < a.Length ==> a[x] <= a[y]
      invariant multiset(a[..]) == old(multiset(a[..]))
    {
      var j := i;
      while 0 < j && a[j] < a[j - 1]
        invariant 0 <= j <= i
        invariant forall x, y :: 0 <= x < y <= i && y != j ==> a[x] <= a[y]
        invariant multiset(a[..]) == old(multiset(a[..]))
      {
        a[j - 1], a[j] := a[j], a[j - 1];
        j := j - 1;
      }
      i := i + 1;
    }
  }

  /** One step of the inner loop: try catalog entry `c[k]` as the final pack
      of total `i`. It replaces the recorded pack only when it strictly
      improves the item total or, at an equal item total, the pack count. */
  method TryPack(c: array<int>, minItems: array<int>, minPacks: array<int>,
                 lastPackUsed: map<int, int>, i: int, k: int)
    returns (last': map<int, int>)
    requires minItems != minPacks && c != minItems && c != minPacks
    requires Sorted(c[..]) && Positive(c[..])
    requires minItems.Length == minPacks.Length <= Sentinel
    requires 0 < i < minItems.Length && 0 <= k < c.Length
    requires ExactOrUnreached(minItems[..i])
    requires Considered(c[..], minItems[..i], minPacks[..i], lastPackUsed, i, k, minItems[i], minPacks[i])
    modifies minItems, minPacks
    ensures minItems[..i] == old(minItems[..i]) && minPacks[..i] == old(minPacks[..i])
    ensures Considered(c[..], minItems[..i], minPacks[..i], last', i, k + 1, minItems[i], minPacks[i])
    ensures forall j :: i < j < minItems.Length ==> minItems[j] == old(minItems[j]) && minPacks[j] == old(minPacks[j])
    ensures last' == lastPackUsed || last' == lastPackUsed[i := c[k]]
  {
    ghost var cat := c[..];
    ghost var items, packs := minItems[..i], minPacks[..i];
    last' := lastPackUsed;
    var packSize := c[k];
    if i >= packSize && minItems[i - packSize] != Sentinel {
      assert items[i - packSize] == i - packSize;
      var newTotalItems := minItems[i - packSize] + packSize;
      var newTotalPacks := minPacks[i - packSize] + 1;
      assert newTotalItems == i && newTotalPacks == packs[i - cat[k]] + 1;
      assert Fits(cat, items, k, i) && items[i - cat[k]] == i - cat[k];
      if newTotalItems < minItems[i] {
        ConsiderImproving(cat, items, packs, lastPackUsed, i, k, minItems[i], minPacks[i]);
        minItems[i] := newTotalItems;
        minPacks[i] := newTotalPacks;
        last' := lastPackUsed[i := packSize];
      } else if newTotalItems == minItems[i] {
        if newTotalPacks < minPacks[i] {
          ConsiderImproving(cat, items, packs, lastPackUsed, i, k, minItems[i], minPacks[i]);
          minPacks[i] := newTotalPacks;
          last' := lastPackUsed[i := packSize];
        } else {
          ConsiderKeeping(cat, items, packs, lastPackUsed, i, k, minItems[i], minPacks[i]);
        }
      }
    } else {
      ConsiderKeeping(cat, items, packs, lastPackUsed, i, k, minItems[i], minPacks[i]);
    }
    assert minItems[..i] == items && minPacks[..i] == packs;
  }

  /** The inner loop for one total `i`: try every catalog size, in ascending
      order, as its final pack. Entries below `i` are left as they were. */
  method ImproveTotal(c: array<int>, minItems: array<int>, minPacks: array<int>,
                      lastPackUsed: map<int, int>, i: int)
    returns (last': map<int, int>)
    requires minItems != minPacks && c != minItems && c != minPacks
    requires Sorted(c[..]) && Positive(c[..])
    requires minItems.Length == minPacks.Length <= Sentinel
    requires 0 < i < minItems.Length
    requires ExactOrUnreached(minItems[..i])
    requires i !in lastPackUsed && minItems[i] == Sentinel
    modifies minItems, minPacks
    ensures minItems[..i] == old(minItems[..i]) && minPacks[..i] == old(minPacks[..i])
    ensures forall j :: i < j < minItems.Length ==> minItems[j] == old(minItems[j]) && minPacks[j] == old(minPacks[j])
    ensures forall u :: u != i ==> (u in last' <==> u in lastPackUsed)
    ensures forall u :: u != i && u in lastPackUsed ==> last'[u] == lastPackUsed[u]
    ensures Considered(c[..], minItems[..i], minPacks[..i], last', i, c.Length, minItems[i], minPacks[i])
  {
    ghost var cat := c[..];
    ghost var items0, packs0 := minItems[..i], minPacks[..i];
    last' := lastPackUsed;
    var k := 0;
    while k < c.Length
      invariant 0 <= k <= c.Length
      invariant c[..] == cat
      invariant minItems[..i] == items0 && minPacks[..i] == packs0
      invariant forall j :: i < j < minItems.Length ==> minItems[j] == old(minItems[j]) && minPacks[j] == old(minPacks[j])
      invariant forall u :: u != i ==> (u in last' <==> u in lastPackUsed)
      invariant forall u :: u != i && u in lastPackUsed ==> last'[u] == lastPackUsed[u]
      invariant Considered(cat, items0, packs0, last', i, k, minItems[i], minPacks[i])
    {
      last' := TryPack(c, minItems, minPacks, last', i, k);
      k := k + 1;
    }
  }

  /** One round of the outer loop: entry `i`, filled from the entries below
      it, extends the filled tables by one. */
  method FillTotal(c: array<int>, minItems: array<int>, minPacks: array<int>,
                   lastPackUsed: map<int, int>, i: int)
    returns (last': map<int, int>)
    requires minItems != minPacks && c != minItems && c != minPacks
    requires Sorted(c[..]) && Positive(c[..])
    requires minItems.Length == minPacks.Length <= Sentinel
    requires 0 < i < minItems.Length
    requires Filled(c[..], minItems[..i], minPacks[..i], lastPackUsed)
    requires forall u :: u in lastPackUsed ==> 0 < u < i
    requires minItems[i] == Sentinel
    modifies minItems, minPacks
    ensures Filled(c[..], minItems[..i + 1], minPacks[..i + 1], last')
    ensures forall u :: u in last' ==> 0 < u <= i
    ensures forall j :: i < j < minItems.Length ==> minItems[j] == old(minItems[j]) && minPacks[j] == old(minPacks[j])
  {
    ghost var items0, packs0 := minItems[..i], minPacks[..i];
    FilledExact(c[..], items0, packs0, lastPackUsed);
    last' := ImproveTotal(c, minItems, minPacks, lastPackUsed, i);
    EntryFilled(c[..], items0, packs0, lastPackUsed, last', i, minItems[i], minPacks[i]);
    assert minItems[..i + 1] == items0 + [minItems[i]] && minPacks[..i + 1] == packs0 + [minPacks[i]];
  }

  /** Allocate the tables for totals `0 ..= maxSize`, mark every positive total
      unreachable, and fill them for increasing totals. */
  method Fill(c: array<int>, maxSize: int) returns (minItems: array<int>, minPacks: array<int>, lastPackUsed: map<int, int>)
    requires Sorted(c[..]) && Positive(c[..])
    requires 0 <= maxSize < Sentinel
    ensures minItems.Length == minPacks.Length == maxSize + 1
    ensures Filled(c[..], minItems[..], minPacks[..], lastPackUsed)
    ensures forall u :: u in lastPackUsed ==> 0 < u <= maxSize
  {
    minItems := new int[maxSize + 1];
    minPacks := new int[maxSize + 1];
    lastPackUsed := map[];
    var i := 1;
    while i <= maxSize
      invariant 1 <= i <= maxSize + 1
      invariant forall j :: 1 <= j < i ==> minItems[j] == Sentinel
    {
      minItems[i] := Sentinel;
      minPacks[i] := Sentinel;
      i := i + 1;
    }
    minItems[0] := 0;
    minPacks[0] := 0;
    assert EntryOk(c[..], minItems[..1], minPacks[..1], lastPackUsed, 0);
    i := 1;
    while i <= maxSize
      invariant 1 <= i <= maxSize + 1
      invariant Filled(c[..], minItems[..i], minPacks[..i], lastPackUsed)
      invariant forall u :: u in lastPackUsed ==> 0 < u < i
      invariant forall j :: i <= j <= maxSize ==> minItems[j] == Sentinel
    {
      lastPackUsed := FillTotal(c, minItems, minPacks, lastPackUsed, i);
      i := i + 1;
    }
    assert minItems[..] == minItems[..i] && minPacks[..] == minPacks[..i];
  }

  /** The first reachable total from `requestedCount` up to `maxSize`, or -1
      when there is none. */
  method SelectOptimal(minItems: array<int>, requestedCount: int, maxSize: int) returns (optimalCount: int)
    requires 0 <= requestedCount <= maxSize && minItems.Length == maxSize + 1
    ensures optimalCount == -1 || requestedCount <= optimalCount <= maxSize
    ensures optimalCount == -1 ==> forall t :: requestedCount <= t <= maxSize ==> minItems[t] == Sentinel
    ensures optimalCount != -1 ==> minItems[optimalCount] != Sentinel
    ensures optimalCount != -1 ==> forall t :: requestedCount <= t < optimalCount ==> minItems[t] == Sentinel
  {
    optimalCount := -1;
    var i := requestedCount;
    while i <= maxSize
      invariant requestedCount <= i <= maxSize + 1
      invariant forall t :: requestedCount <= t < i ==> minItems[t] == Sentinel
    {
      if minItems[i] != Sentinel {
        optimalCount := i;
        break;
      }
      i := i + 1;
    }
  }

  /** Counting one more pack `p` keeps the map counting the packs met, and
      its totals their items and their number. */
  lemma CountPack(m: map<int, int>, used: seq<int>, p: int)
    requires forall q :: Get(m, q) == multiset(used)[q]
    requires ItemTotal(m) == Sum(used) && PackTotal(m) == |used|
    ensures forall q :: Get(m[p := Get(m, p) + 1], q) == multiset(used + [p])[q]
    ensures ItemTotal(m[p := Get(m, p) + 1]) == Sum(used + [p])
    ensures PackTotal(m[p := Get(m, p) + 1]) == |used + [p]|
    ensures 0 < m[p := Get(m, p) + 1][p]
  {
    AddOne(m, p, true);
    AddOne(m, p, false);
    SumAppend(used, p);
    assert multiset(used + [p]) == multiset(used) + multiset{p};
  }

  /** Taking the recorded pack of total `t` moves it from the walk still to
      go to the packs already met. */
  lemma WalkAdvance(last: map<int, int>, used: seq<int>, t: int)
    requires t in last && 0 < last[t] <= t
    ensures used + Walk(last, t) == (used + [last[t]]) + Walk(last, t - last[t])
  {
    var rest := Walk(last, t - last[t]);
    assert used + ([last[t]] + rest) == (used + [last[t]]) + rest;
  }

  /** Walk the recorded final packs from `optimalCount` down to zero, counting
      each pack met. It stops because every reachable positive total records a
      positive pack no larger than itself, which leaves a reachable rest. The
      packs met form a selection `used` of `optimalCount` items in
      `packs[optimalCount]` packs, and the map counts exactly them. */
  method Reconstruct(lastPackUsed: map<int, int>, optimalCount: int,
                     ghost c: seq<int>, ghost items: seq<int>, ghost packs: seq<int>)
    returns (finalPacks: map<int, int>, ghost used: seq<int>)
    requires Filled(c, items, packs, lastPackUsed)
    requires 0 <= optimalCount < |items| && items[optimalCount] == optimalCount
    ensures used == Walk(lastPackUsed, optimalCount)
    ensures IsSelection(c, used) && Sum(used) == optimalCount && |used| == packs[optimalCount]
    ensures forall p :: Get(finalPacks, p) == multiset(used)[p]
    ensures ItemTotal(finalPacks) == optimalCount
    ensures PackTotal(finalPacks) == packs[optimalCount]
    ensures forall p :: p in finalPacks ==> p in c && 0 < finalPacks[p]
  {
    finalPacks := map[];
    used := [];
    var remainingCount := optimalCount;
    ghost var walk := Walk(lastPackUsed, optimalCount);
    while remainingCount > 0
      invariant 0 <= remainingCount <= optimalCount
      invariant items[remainingCount] == remainingCount
      invariant used + Walk(lastPackUsed, remainingCount) == walk
      invariant forall p :: Get(finalPacks, p) == multiset(used)[p]
      invariant ItemTotal(finalPacks) == Sum(used)
      invariant PackTotal(finalPacks) == |used|
      invariant forall p :: p in finalPacks ==> p in c && 0 < finalPacks[p]
      decreases remainingCount
    {
      WalkStep(c, items, packs, lastPackUsed, remainingCount);
      var pack := Get(lastPackUsed, remainingCount);
      CountPack(finalPacks, used, pack);
      finalPacks := finalPacks[pack := Get(finalPacks, pack) + 1];
      WalkAdvance(lastPackUsed, used, remainingCount);
      used := used + [pack];
      remainingCount := remainingCount - pack;
    }
    WalkSelection(c, items, packs, lastPackUsed, optimalCount);
  }

  /** Tables filled for the sorted catalog witness the walk for the catalog
      as it was given. */
  lemma WalkedFrom(catalog: seq<int>, original: seq<int>, items: seq<int>, packs: seq<int>,
                   last: map<int, int>, answer: PackingCalculation)
    requires multiset(catalog) == multiset(original)
    requires Filled(catalog, items, packs, last)
    requires 0 <= answer.totalItems < |items| && items[answer.totalItems] == answer.totalItems
    requires forall p :: Get(answer.packs, p) == multiset(Walk(last, answer.totalItems))[p]
    ensures WalkedFromTable(original, answer)
  {
    forall p | p in catalog ensures p in original {
      assert p in multiset(catalog);
    }
    forall p | p in original ensures p in catalog {
      assert p in multiset(original);
    }
    FilledSameMembers(catalog, original, items, packs, last);
  }

  /** The calculator. On success the catalog array is left sorted ascending
      (a permutation of what it held), and the answer obeys the ranked rules
      for the catalog's sizes, overshoots by less than the largest pack, and
      its map holds catalog sizes with positive counts whose totals are the
      answer's totals. */
  method CalculatePack(availablePacks: array<int>, requestedCount: int) returns (r: Result)
    requires 0 < requestedCount ==> forall k :: 0 <= k < availablePacks.Length ==> 0 < availablePacks[k]
    requires 0 < requestedCount ==> forall k :: 0 <= k < availablePacks.Length ==> requestedCount + availablePacks[k] < Sentinel
    modifies availablePacks
    ensures requestedCount <= 0 ==> r == Failure(RequestedCountNotPositive)
    ensures 0 < requestedCount && availablePacks.Length == 0 ==> r == Failure(NoPacksAvailable)
    ensures 0 < requestedCount && 0 < availablePacks.Length ==> r.Success?
    ensures r.Failure? ==> unchanged(availablePacks)
    ensures r.Success? ==>
      && 0 < availablePacks.Length
      && Sorted(availablePacks[..])
      && multiset(availablePacks[..]) == old(multiset(availablePacks[..]))
      && IsOptimal(old(availablePacks[..]), requestedCount, r.value.totalItems, r.value.totalPacks)
      && r.value.totalItems < requestedCount + availablePacks[availablePacks.Length - 1]
      && ItemTotal(r.value.packs) == r.value.totalItems
      && PackTotal(r.value.packs) == r.value.totalPacks
      && (forall p :: p in r.value.packs ==> p in old(availablePacks[..]) && 0 < r.value.packs[p])
      && CountsSelection(old(availablePacks[..]), r.value)
      && WalkedFromTable(old(availablePacks[..]), r.value)
  {
    if requestedCount <= 0 {
      return Failure(RequestedCountNotPositive);
    }
    if availablePacks.Length == 0 {
      return Failure(NoPacksAvailable);
    }
    ghost var original := availablePacks[..];

    SortAscending(availablePacks);
    ghost var catalog := availablePacks[..];
    forall k | 0 <= k < |catalog| ensures 0 < catalog[k] && requestedCount + catalog[k] < Sentinel {
      assert catalog[k] in multiset(original);
    }

    var maxPackSize := availablePacks[availablePacks.Length - 1];
    var maxSize := requestedCount + maxPackSize;
    var minItems, minPacks, lastPackUsed := Fill(availablePacks, maxSize);
    ghost var items, packs := minItems[..], minPacks[..];

    var optimalCount := SelectOptimal(minItems, requestedCount, maxSize);

    // The largest pack, repeated, reaches a total in [requestedCount, maxSize].
    ghost var cover := Covering(catalog, maxPackSize, requestedCount);
    assert EntryOk(catalog, items, packs, lastPackUsed, Sum(cover));
    if optimalCount == -1 {
      return Failure(NoValidCombination);
    }

    assert EntryOk(catalog, items, packs, lastPackUsed, optimalCount);
    var finalPacks;
    ghost var used;
    finalPacks, used := Reconstruct(lastPackUsed, optimalCount, catalog, items, packs);

    r := Success(PackingCalculation(finalPacks, minItems[optimalCount], minPacks[optimalCount]));
    FirstReachableOptimal(catalog, items, packs, lastPackUsed, requestedCount, optimalCount, used);
    OptimalSameSizes(catalog, original, requestedCount, optimalCount, packs[optimalCount]);
    forall p | p in finalPacks ensures p in original {
      assert p in multiset(catalog);
    }
    SameSizes(catalog, original, used);
    assert CountsSelection(original, r.value) by {
      assert IsSelection(original, used) && Sum(used) == r.value.totalItems && |used| == r.value.totalPacks;
      assert forall p :: Get(r.value.packs, p) == multiset(used)[p];
    }
    WalkedFrom(catalog, original, items, packs, lastPackUsed, r.value);
  }
}
