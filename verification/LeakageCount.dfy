/**
 How many other customers a colluding set exposes. The analysis reports "at most k, and exactly k
 when no two are paired"; that is exact for an even number of leaves. Over an odd number the last
 leaf is promoted, and a colluder under the subtree it is finally paired with derives it too
 (solvency-merkle/examples/sibling_leakage.rs, docs/SECURITY-ANALYSIS.md).
 */
module LeakageCount {
  import opened Shapes
  import opened Leakage

  /** How often two divides a positive number. */
  function Twos(m: nat): nat
    requires m > 0
  {
    if m % 2 == 1 then 0 else 1 + Twos(m / 2)
  }

  /**
   Some colluder is the last leaf or under the first subtree the last leaf is paired with. A leaf alone
   is the published root.
   */
  ghost predicate TailHit(n: nat, C: set<nat>)
    requires n > 0
  {
    n == 1 || exists c :: c in C && n - 1 - Pow2(Twos(n - 1)) <= c <= n - 1
  }

  /** Above an odd book's last leaf: promoted copies until an odd position, and last on each level. */
  lemma {:induction false} TailChain(n: nat, k: nat)
    requires n > 1 && k <= Twos(n - 1)
    ensures Above(n - 1, k) > 0 && Above(n - 1, k) * Pow2(k) == n - 1
    ensures Twos(Above(n - 1, k)) == Twos(n - 1) - k
    ensures LevelSize(n, k) == Above(n - 1, k) + 1
  {
    if k > 0 {
      TailChain(n, k - 1);
      Halve(Above(n - 1, k), Pow2(k - 1));
    } else {
      assert Pow2(0) == 1;
    }
  }

  lemma TailBelowTop(n: nat, top: nat)
    requires n > 1 && IsHeight(n, top)
    ensures Twos(n - 1) < top
  {
    TailChain(n, if top <= Twos(n - 1) then top else Twos(n - 1));
  }

  lemma AncestorRange(n: nat, C: set<nat>, k: nat, j: nat)
    requires forall c :: c in C ==> c < n
    ensures IsAncestor(C, k, j) <==> exists c :: c in C && First(k, j) <= c < Past(k, j, n)
  {
    forall c | c in C ensures Above(c, k) == j <==> First(k, j) <= c < Past(k, j, n) {
      RangeIsAbove(n, c, k, j);
    }
  }

  /** A chain node stands over the last leaf alone. */
  lemma TailAncestor(n: nat, C: set<nat>, k: nat)
    requires n > 1 && k <= Twos(n - 1) && forall c :: c in C ==> c < n
    ensures IsAncestor(C, k, Above(n - 1, k)) <==> n - 1 in C
  {
    hide IsAncestor, Twos;
    TailChain(n, k);
    AncestorRange(n, C, k, Above(n - 1, k));
    assert First(k, Above(n - 1, k)) == n - 1;
    assert (Above(n - 1, k) + 1) * Pow2(k) == n - 1 + Pow2(k);
  }

  lemma OneFewer(a: nat, p: nat)
    requires a > 0
    ensures (a - 1) * p == a * p - p && ((a - 1) + 1) * p == a * p
  {
  }

  /** Where the chain is first paired, the partner stands over the `2^t` leaves before the last. */
  lemma TailPartner(n: nat, C: set<nat>, t: nat)
    requires n > 1 && t == Twos(n - 1) && forall c :: c in C ==> c < n
    ensures Above(n - 1, t) > 0
    ensures IsAncestor(C, t, Above(n - 1, t) - 1) <==> exists c :: c in C && n - 1 - Pow2(t) <= c < n - 1
  {
    hide IsAncestor, Twos, Pow2, Above, LevelSize;
    TailChain(n, t);
    var a := Above(n - 1, t);
    AncestorRange(n, C, t, a - 1);
    OneFewer(a, Pow2(t));
    assert First(t, a - 1) == n - 1 - Pow2(t) && Past(t, a - 1, n) == n - 1;
  }

  /** The copies of the last leaf are exposed exactly when the tail is hit. */
  lemma {:induction false} TailExposed(n: nat, top: nat, C: set<nat>, k: nat)
    requires n > 1 && Colluders(n, top, C) && k <= Twos(n - 1)
    ensures Exposed(n, top, C, k, Above(n - 1, k)) <==> TailHit(n, C)
    decreases Twos(n - 1) - k
  {
    hide Pow2, IsAncestor, Twos, LevelSize, Above;
    TailBelowTop(n, top);
    TailChain(n, k);
    TailAncestor(n, C, k);
    TailHitMeans(n, C);
    if k == Twos(n - 1) {
      hide TailHit;
      OddTail(n, k);
      TailPartner(n, C, k);
      PairExposedTogether(n, top, C, k, Above(n - 1, k));
    } else {
      hide TailHit;
      EvenTail(n, k);
      TailExposed(n, top, C, k + 1);
    }
  }

  lemma TailHitMeans(n: nat, C: set<nat>)
    requires n > 1
    ensures TailHit(n, C) <==>
      n - 1 in C || exists c :: c in C && n - 1 - Pow2(Twos(n - 1)) <= c < n - 1
  {
    hide Twos, Pow2;
  }

  /** The end of the chain stands at an odd position, right of its partner. */
  lemma OddTail(n: nat, k: nat)
    requires n > 1 && k == Twos(n - 1)
    ensures Above(n - 1, k) > 0 && Partner(Above(n - 1, k)) == Above(n - 1, k) - 1 < LevelSize(n, k)
  {
    TailChain(n, k);
  }

  /** Before its end the chain is promoted. */
  lemma EvenTail(n: nat, k: nat)
    requires n > 1 && k < Twos(n - 1)
    ensures Partner(Above(n - 1, k)) == Above(n - 1, k) + 1 >= LevelSize(n, k)
    ensures Above(n - 1, k) / 2 == Above(n - 1, k + 1)
  {
    TailChain(n, k);
  }

  /** Which leaves are exposed, exactly. */
  lemma LeafExposed(n: nat, top: nat, C: set<nat>, i: nat)
    requires Colluders(n, top, C) && i < n
    ensures Exposed(n, top, C, 0, i) <==>
      || i in C
      || (Partner(i) < n && Partner(i) in C)
      || (n % 2 == 1 && i == n - 1 && TailHit(n, C))
  {
    assert forall c :: Above(c, 0) == c;
    assert forall j :: IsAncestor(C, 0, j) <==> j in C;
    if n == 1 {
      assert top == 0;
      return;
    }
    TailBelowTop(n, top);
    if Partner(i) < n {
      PairExposedTogether(n, top, C, 0, i);
    } else {
      TailExposed(n, top, C, 0);
    }
  }

  /** Customers exposed who are not among the colluders. */
  ghost function Others(n: nat, top: nat, C: set<nat>): set<nat> {
    set i | 0 <= i < n && i !in C && Exposed(n, top, C, 0, i)
  }

  /** Colluders whose partner is a customer outside the collusion. */
  ghost function Unpartnered(n: nat, C: set<nat>): set<nat> {
    set c | c in C && Partner(c) < n && Partner(c) !in C
  }

  ghost function Partners(C: set<nat>): set<nat> {
    set c | c in C :: Partner(c)
  }

  ghost predicate TailExtra(n: nat, C: set<nat>)
    requires n > 0
  {
    n % 2 == 1 && n - 1 !in C && TailHit(n, C)
  }

  lemma {:induction false} PartnersCount(C: set<nat>)
    ensures |Partners(C)| == |C|
  {
    if C != {} {
      var c :| c in C;
      PartnersCount(C - {c});
      assert Partners(C) == Partners(C - {c}) + {Partner(c)};
      assert Partner(c) !in Partners(C - {c}) by {
        forall d | d in C - {c} ensures Partner(d) != Partner(c) {
          PartnerPartner(c);
          PartnerPartner(d);
        }
      }
    }
  }

  lemma OthersAre(n: nat, top: nat, C: set<nat>)
    requires Colluders(n, top, C)
    ensures Others(n, top, C) == Partners(Unpartnered(n, C)) + if TailExtra(n, C) then {n - 1} else {}
  {
    var rhs := Partners(Unpartnered(n, C)) + if TailExtra(n, C) then {n - 1} else {};
    forall i: nat ensures i in Others(n, top, C) <==> i in rhs {
      PartnerPartner(i);
      if i < n {
        LeafExposed(n, top, C, i);
        assert i in Partners(Unpartnered(n, C)) <==> Partner(i) in Unpartnered(n, C) by {
          assert forall c :: c in Unpartnered(n, C) && Partner(c) == i ==> c == Partner(i) by {
            forall c | Partner(c) == i ensures c == Partner(i) { PartnerPartner(c); }
          }
        }
      } else {
        assert forall c :: c in Unpartnered(n, C) ==> Partner(c) < n;
      }
    }
  }

  /** The number of other customers exposed. */
  lemma OthersCount(n: nat, top: nat, C: set<nat>)
    requires Colluders(n, top, C)
    ensures |Others(n, top, C)| == |Unpartnered(n, C)| + if TailExtra(n, C) then 1 else 0
  {
    OthersAre(n, top, C);
    PartnersCount(Unpartnered(n, C));
    if TailExtra(n, C) {
      assert n - 1 !in Partners(Unpartnered(n, C));
    }
  }

  /**
   "k colluders expose at most k others" holds unless the book is odd, the last leaf is an outsider
   that the tail reaches, and every colluder exposes a partner of its own.
   */
  lemma AtMostOneEach(n: nat, top: nat, C: set<nat>)
    requires Colluders(n, top, C)
    ensures |Others(n, top, C)| <= |C| <==> !(TailExtra(n, C) && Unpartnered(n, C) == C)
    ensures n % 2 == 0 ==> |Others(n, top, C)| == |Unpartnered(n, C)| <= |C|
  {
    OthersCount(n, top, C);
    var u := Unpartnered(n, C);
    assert C == u + (C - u);
    assert |C| == |u| + |C - u|;
    assert |C - u| == 0 <==> u == C;
  }

  /** A book of three and one colluder: both other customers are exposed. */
  lemma OneColluderOfThree()
    ensures IsHeight(3, 2)
    ensures |Others(3, 2, {0})| == 2
  {
    assert LevelSize(3, 0) == 3 && LevelSize(3, 1) == 2 && LevelSize(3, 2) == 1;
    OthersCount(3, 2, {0});
    assert Twos(2) == 1 && Pow2(1) == 2;
    assert 0 in {0} && 3 - 1 - Pow2(Twos(3 - 1)) <= 0 <= 3 - 1;
    assert Unpartnered(3, {0}) == {0};
  }

  /** A book of one and nobody colluding: the published root is that customer's balance. */
  lemma NobodyOfOne()
    ensures IsHeight(1, 0)
    ensures |Others(1, 0, {})| == 1
  {
    assert IsHeight(1, 0);
    OthersCount(1, 0, {});
    assert Unpartnered(1, {}) == {};
  }
}
