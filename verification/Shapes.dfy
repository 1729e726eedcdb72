/**
 The shape every bottom-up pairing has, whatever its nodes carry: level sizes halve rounding up,
 an odd node is promoted, and the node at position `j` of level `k` stands over the leaves
 `[First(k, j), Past(k, j, n))`.
 */
module Shapes {

  function Pow2(k: nat): (r: nat)
    ensures r > 0
  {
    if k == 0 then 1 else 2 * Pow2(k - 1)
  }

  function First(k: nat, j: nat): nat {
    j * Pow2(k)
  }

  function Past(k: nat, j: nat, n: nat): nat {
    if (j + 1) * Pow2(k) < n then (j + 1) * Pow2(k) else n
  }

  /** `idx ^ 1` */
  function Partner(idx: nat): (r: nat)
    ensures r != idx && r / 2 == idx / 2
  {
    if idx % 2 == 0 then idx + 1 else idx - 1
  }

  /** The position at level `k` above leaf `i`: `idx /= 2`, `k` times. */
  function Above(i: nat, k: nat): nat {
    if k == 0 then i else Above(i, k - 1) / 2
  }

  /** How many nodes level `k` has over `n` leaves. */
  function LevelSize(n: nat, k: nat): nat {
    if k == 0 then n else (LevelSize(n, k - 1) + 1) / 2
  }

  /** `k` levels above `n` leaves stands a single node, and on no level before. */
  ghost predicate IsHeight(n: nat, k: nat) {
    LevelSize(n, k) == 1 && forall l :: 0 <= l < k ==> LevelSize(n, l) > 1
  }

  lemma HeightUnique(n: nat, k: nat, l: nat)
    requires IsHeight(n, k) && IsHeight(n, l)
    ensures k == l
  {
  }

  lemma Spread(a: nat, b: nat, p: nat)
    requires a <= b
    ensures a * p <= b * p
    ensures a < b ==> a * p + p <= b * p
  {
    if a < b {
      assert (a + 1) * p <= b * p;
    }
  }

  lemma Halve(a: int, p: nat)
    ensures (2 * a) * p == a * (2 * p)
  {
  }

  /** `LevelSize(n, k)` blocks of `2^k` cover `n` leaves, and one fewer does not. */
  lemma {:induction false} LevelSizeCovers(n: nat, k: nat)
    requires n > 0
    ensures LevelSize(n, k) > 0
    ensures (LevelSize(n, k) - 1) * Pow2(k) < n <= LevelSize(n, k) * Pow2(k)
  {
    if k > 0 {
      LevelSizeCovers(n, k - 1);
      var s, t := LevelSize(n, k - 1), LevelSize(n, k);
      HalvingCovers(n, s, t, Pow2(k - 1));
    } else {
      assert Pow2(0) == 1;
    }
  }

  lemma HalvingCovers(n: nat, s: nat, t: nat, p: nat)
    requires s > 0 && t == (s + 1) / 2
    requires (s - 1) * p < n <= s * p
    ensures (t - 1) * (2 * p) < n <= t * (2 * p)
  {
    Spread(s, 2 * t, p);
    Spread(2 * (t - 1), s - 1, p);
    Halve(t, p);
    Halve(t - 1, p);
  }

  /** Level `k` has `ceil(n / 2^k)` nodes. */
  lemma LevelSizeIsCeiling(n: nat, k: nat)
    requires n > 0
    ensures LevelSize(n, k) == (n + Pow2(k) - 1) / Pow2(k)
  {
    LevelSizeCovers(n, k);
    var s, p := LevelSize(n, k), Pow2(k);
    var m := n + p - 1;
    assert (s - 1) * p + p == s * p;
    assert s * p <= m < s * p + p;
    QuotientIs(m, p, s);
  }

  lemma QuotientIs(m: nat, p: nat, q: nat)
    requires p > 0 && q * p <= m < q * p + p
    ensures m / p == q
  {
    var d := m / p;
    assert d * p <= m < d * p + p;
    if d < q {
      Spread(d, q, p);
    } else if q < d {
      Spread(q, d, p);
    }
  }

  /** The height is the least `k` with `n <= 2^k`. */
  lemma HeightIsLog(n: nat, k: nat)
    requires n > 0 && IsHeight(n, k)
    ensures n <= Pow2(k) && (k > 0 ==> Pow2(k - 1) < n)
  {
    LevelSizeCovers(n, k);
    if k > 0 {
      LevelSizeCovers(n, k - 1);
      Spread(1, LevelSize(n, k - 1) - 1, Pow2(k - 1));
    }
  }

  lemma LeafRange(n: nat, j: nat)
    requires j < n
    ensures First(0, j) == j && Past(0, j, n) == j + 1
  {
    assert Pow2(0) == 1;
  }

  /** A node stands over at least one leaf. */
  lemma RangeNonEmpty(n: nat, k: nat, j: nat)
    requires j < LevelSize(n, k) && n > 0
    ensures First(k, j) < Past(k, j, n) <= n
  {
    LevelSizeCovers(n, k);
    Spread(j, LevelSize(n, k) - 1, Pow2(k));
    Spread(j, j + 1, Pow2(k));
  }

  /** A parent stands over what its children stand over, left before right. */
  lemma RangeSplits(n: nat, k: nat, j: nat)
    requires n > 0 && j < LevelSize(n, k + 1)
    ensures 2 * j < LevelSize(n, k)
    ensures First(k + 1, j) == First(k, 2 * j)
    ensures 2 * j + 1 < LevelSize(n, k) ==>
      Past(k, 2 * j, n) == First(k, 2 * j + 1) && Past(k + 1, j, n) == Past(k, 2 * j + 1, n)
    ensures 2 * j + 1 >= LevelSize(n, k) ==> Past(k + 1, j, n) == Past(k, 2 * j, n) == n
  {
    var s, p := LevelSize(n, k), Pow2(k);
    LevelSizeCovers(n, k);
    assert j * (2 * p) == (2 * j) * p;
    assert (j + 1) * (2 * p) == (2 * j + 2) * p;
    if 2 * j + 1 < s {
      Spread(2 * j + 1, s - 1, p);
    } else {
      Spread(s, 2 * j + 1, p);
      Spread(2 * j + 1, 2 * j + 2, p);
    }
  }

  /** What lies in block `a` of size `p` lies in block `a / 2` of twice the size. */
  lemma WithinTwice(a: nat, p: nat, i: nat)
    requires a * p <= i < a * p + p
    ensures (a / 2) * (2 * p) <= i < (a / 2) * (2 * p) + 2 * p
  {
    var h := a / 2;
    Halve(h, p);
    if a != 2 * h {
      OneMore(2 * h, p);
    }
  }

  lemma OneMore(a: nat, p: nat)
    ensures (a + 1) * p == a * p + p
  {
  }

  /** `Above` is division by `2^k`: the node whose range holds the leaf. */
  lemma {:induction false} AboveIsQuotient(i: nat, k: nat)
    ensures First(k, Above(i, k)) <= i < First(k, Above(i, k)) + Pow2(k)
    ensures Above(i, k) == i / Pow2(k)
  {
    if k > 0 {
      AboveIsQuotient(i, k - 1);
      WithinTwice(Above(i, k - 1), Pow2(k - 1), i);
    }
    QuotientIs(i, Pow2(k), Above(i, k));
  }

  /** A leaf's ancestors stay inside the shape. */
  lemma {:induction false} AboveInRange(n: nat, i: nat, k: nat)
    requires i < n
    ensures Above(i, k) < LevelSize(n, k)
  {
    if k > 0 {
      AboveInRange(n, i, k - 1);
    }
  }

  /** A node's leaves are exactly those whose ancestor at its level it is. */
  lemma RangeIsAbove(n: nat, i: nat, k: nat, j: nat)
    requires i < n
    ensures Above(i, k) == j <==> First(k, j) <= i < Past(k, j, n)
  {
    AboveIsQuotient(i, k);
    var a, p := Above(i, k), Pow2(k);
    if a < j {
      Spread(a, j, p);
    } else if j < a {
      Spread(j, a, p);
      assert (j + 1) * p == j * p + p;
    }
    assert (j + 1) * p == j * p + p;
  }
}
