/** The single-size orders of the calculator's test table: a catalog holding
    only packs of 5. */
module SingleSizeExample {
  import opened Selections

  /** The catalog with the one size 5. */
  const Fives: seq<int> := [5]

  /** A selection of fives ships five items per pack and counts nothing but
      fives. */
  lemma {:induction false} AllFives(s: seq<int>)
    requires IsSelection(Fives, s)
    ensures Sum(s) == 5 * |s|
    ensures multiset(s)[5] == |s|
    ensures forall p :: p != 5 ==> multiset(s)[p] == 0
  {
    if s != [] {
      var front := s[..|s| - 1];
      assert IsSelection(Fives, front);
      AllFives(front);
      assert s == front + [s[|s| - 1]];
      assert s[|s| - 1] in Fives;
    }
  }

  /** With only packs of 5, an order ships the fewest packs whose items cover
      it: `n` packs when `requested` lies in `(5 * (n - 1), 5 * n]`. */
  lemma FivesOptimal(requested: int, n: nat)
    requires 5 * (n - 1) < requested <= 5 * n
    ensures IsOptimal(Fives, requested, 5 * n, n)
  {
    var best := seq(n, _ => 5);
    assert IsSelection(Fives, best);
    AllFives(best);
    forall s | IsSelection(Fives, s) && requested <= Sum(s) ensures 5 * n <= Sum(s) {
      AllFives(s);
    }
    forall s | IsSelection(Fives, s) && Sum(s) == 5 * n ensures n <= |s| {
      AllFives(s);
    }
  }
}
