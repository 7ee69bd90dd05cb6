/** The result map of the calculator, from pack size to count, and its two
    totals: items (size times count, summed) and packs (counts, summed). */
module Tallies {

  /** Go's read of a map: a missing key reads as the zero value. */
  function Get(m: map<int, int>, k: int): (r: int)
    ensures k in m ==> r == m[k]
    ensures r != 0 ==> k in m
  {
    if k in m then m[k] else 0
  }

  /** A map whose counts are all positive is determined by what Go reads
      from it: two such maps that read alike for every key are equal. */
  lemma SameCounts(m1: map<int, int>, m2: map<int, int>)
    requires forall p :: p in m1 ==> 0 < m1[p]
    requires forall p :: p in m2 ==> 0 < m2[p]
    requires forall p :: Get(m1, p) == Get(m2, p)
    ensures m1 == m2
  {
    forall p ensures p in m1 <==> p in m2 {
      assert Get(m1, p) == Get(m2, p);
    }
    forall p | p in m1 ensures m1[p] == m2[p] {
      assert Get(m1, p) == Get(m2, p);
    }
  }

  /** What one pack of size `k` contributes: `k` items, or one pack. */
  function Weight(k: int, bySize: bool): int
  {
    if bySize then k else 1
  }

  /** A non-empty set of keys has a member. */
  lemma HasKey(keys: set<int>)
    requires keys != {}
    ensures exists k :: k in keys
  {
    if forall k :: k !in keys {
      assert false;
    }
  }

  /** Sum of `Weight(k) * m[k]` over the keys in `keys`, in no particular order. */
  ghost function TallyOver(m: map<int, int>, keys: set<int>, bySize: bool): int
    requires keys <= m.Keys
  {
    if keys == {} then 0
    else
      HasKey(keys);
      var k :| k in keys;
      Weight(k, bySize) * m[k] + TallyOver(m, keys - {k}, bySize)
  }

  /** Sum of `Weight(k) * m[k]` over all keys of `m`. */
  ghost function Tally(m: map<int, int>, bySize: bool): int
  {
    TallyOver(m, m.Keys, bySize)
  }

  /** Items shipped: the sum of size times count. */
  ghost function ItemTotal(m: map<int, int>): int
  {
    Tally(m, true)
  }

  /** Packs shipped: the sum of counts. */
  ghost function PackTotal(m: map<int, int>): int
  {
    Tally(m, false)
  }

  /** The tally does not depend on which key is taken first. */
  lemma {:induction false} TallyRemove(m: map<int, int>, keys: set<int>, k: int, bySize: bool)
    requires keys <= m.Keys && k in keys
    ensures TallyOver(m, keys, bySize) == Weight(k, bySize) * m[k] + TallyOver(m, keys - {k}, bySize)
    decreases keys
  {
    HasKey(keys);
    var j :| j in keys && TallyOver(m, keys, bySize) == Weight(j, bySize) * m[j] + TallyOver(m, keys - {j}, bySize);
    if j != k {
      TallyRemove(m, keys - {j}, k, bySize);
      TallyRemove(m, keys - {k}, j, bySize);
      assert keys - {j} - {k} == keys - {k} - {j};
    }
  }

  /** The tally over `keys` reads `m` only at `keys`. */
  lemma {:induction false} TallyFrame(m: map<int, int>, m': map<int, int>, keys: set<int>, bySize: bool)
    requires keys <= m.Keys && keys <= m'.Keys
    requires forall k :: k in keys ==> m[k] == m'[k]
    ensures TallyOver(m, keys, bySize) == TallyOver(m', keys, bySize)
    decreases keys
  {
    if keys != {} {
      HasKey(keys);
      var k :| k in keys && TallyOver(m, keys, bySize) == Weight(k, bySize) * m[k] + TallyOver(m, keys - {k}, bySize);
      TallyRemove(m', keys, k, bySize);
      TallyFrame(m, m', keys - {k}, bySize);
    }
  }

  /** Counting one more pack of size `p` (`m[p] = m[p] + 1` in Go) adds that
      pack's weight to the tally. */
  lemma AddOne(m: map<int, int>, p: int, bySize: bool)
    ensures Tally(m[p := Get(m, p) + 1], bySize) == Tally(m, bySize) + Weight(p, bySize)
  {
    var m' := m[p := Get(m, p) + 1];
    TallyRemove(m', m'.Keys, p, bySize);
    AddOneRest(m, p, bySize);
    if p in m {
      TallyRemove(m, m.Keys, p, bySize);
    } else {
      assert m.Keys == m.Keys - {p};
    }
  }

  /** The keys other than `p` tally the same before and after the update. */
  lemma AddOneRest(m: map<int, int>, p: int, bySize: bool)
    ensures TallyOver(m[p := Get(m, p) + 1], m.Keys - {p}, bySize) == TallyOver(m, m.Keys - {p}, bySize)
    ensures m[p := Get(m, p) + 1].Keys - {p} == m.Keys - {p}
  {
    var m' := m[p := Get(m, p) + 1];
    assert m'.Keys - {p} == m.Keys - {p};
    TallyFrame(m, m', m.Keys - {p}, bySize);
  }
}
