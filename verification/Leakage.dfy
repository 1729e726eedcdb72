/**
 What colluding proof-holders can derive from a sum tree: everything their proofs disclose, then
 parent = left + right applied in every direction until nothing new follows
 (solvency-merkle/examples/sibling_leakage.rs).
 */
module Leakage {
  import opened Shapes

  /** A node as (level, position). */
  datatype NodeAt = NodeAt(level: nat, pos: nat)

  // ----- the closed form of what is derived

  ghost predicate IsAncestor(C: set<nat>, k: nat, j: nat) {
    exists c :: c in C && Above(c, k) == j
  }

  /**
   The root, the ancestors of colluders, the partners of those, and whatever is the promoted copy
   of an exposed node.
   */
  ghost predicate Exposed(n: nat, top: nat, C: set<nat>, k: nat, j: nat)
    decreases top - k
  {
    || (k == top && j == 0)
    || IsAncestor(C, k, j)
    || (Partner(j) < LevelSize(n, k) && IsAncestor(C, k, Partner(j)))
    || (k < top && Partner(j) >= LevelSize(n, k) && Exposed(n, top, C, k + 1, j / 2))
  }

  ghost function ExposedSet(n: nat, top: nat, C: set<nat>): (s: set<NodeAt>) {
    set k, j | 0 <= k <= top && 0 <= j < LevelSize(n, k) && Exposed(n, top, C, k, j) :: NodeAt(k, j)
  }

  // ----- the inference rules

  /** The three rules on one pair, or the identity on one promoted node. */
  predicate GroupClosed(n: nat, K: set<NodeAt>, k: nat, p: nat) {
    var left, right, parent := NodeAt(k, 2 * p), NodeAt(k, 2 * p + 1), NodeAt(k + 1, p);
    if 2 * p + 1 < LevelSize(n, k) then
      && (left in K && right in K ==> parent in K)
      && (left in K && parent in K ==> right in K)
      && (right in K && parent in K ==> left in K)
    else
      left in K <==> parent in K
  }

  ghost predicate Closed(n: nat, top: nat, K: set<NodeAt>) {
    forall k, p :: 0 <= k < top && 0 <= p && 2 * p < LevelSize(n, k) ==> GroupClosed(n, K, k, p)
  }

  /** What holder `c`'s proof discloses: the own leaf and every sibling on the path. */
  ghost predicate Discloses(n: nat, top: nat, c: nat, K: set<NodeAt>) {
    && NodeAt(0, c) in K
    && forall k :: 0 <= k < top && Partner(Above(c, k)) < LevelSize(n, k) ==> NodeAt(k, Partner(Above(c, k))) in K
  }

  ghost predicate DisclosedWithin(n: nat, top: nat, C: set<nat>, K: set<NodeAt>) {
    && NodeAt(top, 0) in K
    && forall c :: c in C ==> Discloses(n, top, c, K)
  }

  ghost predicate Colluders(n: nat, top: nat, C: set<nat>) {
    n > 0 && IsHeight(n, top) && forall c :: c in C ==> c < n
  }

  // ----- the closed form is the least closed set over the disclosed nodes

  lemma ExposedMember(n: nat, top: nat, C: set<nat>, k: nat, j: nat)
    ensures NodeAt(k, j) in ExposedSet(n, top, C) <==> k <= top && j < LevelSize(n, k) && Exposed(n, top, C, k, j)
  {
  }

  lemma PartnerPartner(j: nat)
    ensures Partner(Partner(j)) == j
  {
  }

  /** In a pair, both are exposed or neither is, and an exposed pair has an ancestor in it. */
  lemma PairExposedTogether(n: nat, top: nat, C: set<nat>, k: nat, j: nat)
    requires k < top && Partner(j) < LevelSize(n, k)
    ensures Exposed(n, top, C, k, j) <==> IsAncestor(C, k, j) || IsAncestor(C, k, Partner(j))
  {
  }

  lemma AncestorsParent(C: set<nat>, k: nat, j: nat)
    requires IsAncestor(C, k, j)
    ensures IsAncestor(C, k + 1, j / 2)
  {
    var c :| c in C && Above(c, k) == j;
    assert Above(c, k + 1) == j / 2;
  }

  lemma ExposedGroupClosed(n: nat, top: nat, C: set<nat>, k: nat, p: nat)
    requires Colluders(n, top, C) && k < top && 2 * p < LevelSize(n, k)
    ensures GroupClosed(n, ExposedSet(n, top, C), k, p)
  {
    hide ExposedSet, Exposed, IsAncestor;
    assert p < LevelSize(n, k + 1);
    ExposedMember(n, top, C, k, 2 * p);
    ExposedMember(n, top, C, k, 2 * p + 1);
    ExposedMember(n, top, C, k + 1, p);
    if 2 * p + 1 < LevelSize(n, k) {
      PairExposedTogether(n, top, C, k, 2 * p);
      PairExposedTogether(n, top, C, k, 2 * p + 1);
      if Exposed(n, top, C, k, 2 * p) {
        ParentOfPairExposed(n, top, C, k, p);
      }
    } else {
      PromotedExposed(n, top, C, k, p);
    }
  }

  lemma ParentOfPairExposed(n: nat, top: nat, C: set<nat>, k: nat, p: nat)
    requires IsAncestor(C, k, 2 * p) || IsAncestor(C, k, 2 * p + 1)
    ensures Exposed(n, top, C, k + 1, p)
  {
    if IsAncestor(C, k, 2 * p) {
      AncestorsParent(C, k, 2 * p);
    } else {
      AncestorsParent(C, k, 2 * p + 1);
    }
  }

  lemma PromotedExposed(n: nat, top: nat, C: set<nat>, k: nat, p: nat)
    requires k < top && 2 * p + 1 >= LevelSize(n, k)
    ensures Exposed(n, top, C, k, 2 * p) <==> Exposed(n, top, C, k + 1, p)
  {
    if IsAncestor(C, k, 2 * p) {
      AncestorsParent(C, k, 2 * p);
    }
  }

  lemma ExposedClosed(n: nat, top: nat, C: set<nat>)
    requires Colluders(n, top, C)
    ensures Closed(n, top, ExposedSet(n, top, C))
  {
    forall k, p | 0 <= k < top && 0 <= p && 2 * p < LevelSize(n, k)
      ensures GroupClosed(n, ExposedSet(n, top, C), k, p)
    {
      ExposedGroupClosed(n, top, C, k, p);
    }
  }

  lemma ExposedDiscloses(n: nat, top: nat, C: set<nat>, c: nat)
    requires Colluders(n, top, C) && c in C
    ensures Discloses(n, top, c, ExposedSet(n, top, C))
  {
    assert Above(c, 0) == c;
    assert IsAncestor(C, 0, c);
    ExposedMember(n, top, C, 0, c);
    forall k | 0 <= k < top && Partner(Above(c, k)) < LevelSize(n, k)
      ensures NodeAt(k, Partner(Above(c, k))) in ExposedSet(n, top, C)
    {
      var a := Above(c, k);
      AboveInRange(n, c, k);
      PartnerPartner(a);
      assert IsAncestor(C, k, a);
      ExposedMember(n, top, C, k, Partner(a));
    }
  }

  lemma ExposedHasDisclosed(n: nat, top: nat, C: set<nat>)
    requires Colluders(n, top, C)
    ensures DisclosedWithin(n, top, C, ExposedSet(n, top, C))
  {
    ExposedMember(n, top, C, top, 0);
    forall c | c in C ensures Discloses(n, top, c, ExposedSet(n, top, C)) {
      ExposedDiscloses(n, top, C, c);
    }
  }

  /** Every ancestor of a colluder follows from its own leaf and the siblings on its path. */
  lemma {:induction false} AncestorsDerived(n: nat, top: nat, C: set<nat>, K: set<NodeAt>, c: nat, k: nat)
    requires Colluders(n, top, C) && c in C && k <= top
    requires Closed(n, top, K) && DisclosedWithin(n, top, C, K)
    ensures NodeAt(k, Above(c, k)) in K
  {
    if k == 0 {
      assert Discloses(n, top, c, K);
    } else {
      AncestorsDerived(n, top, C, K, c, k - 1);
      AboveInRange(n, c, k - 1);
      var a := Above(c, k - 1);
      assert Discloses(n, top, c, K);
      assert GroupClosed(n, K, k - 1, a / 2);
    }
  }

  lemma {:induction false} ExposedDerived(n: nat, top: nat, C: set<nat>, K: set<NodeAt>, k: nat, j: nat)
    requires Colluders(n, top, C) && k <= top && j < LevelSize(n, k)
    requires Closed(n, top, K) && DisclosedWithin(n, top, C, K)
    requires Exposed(n, top, C, k, j)
    ensures NodeAt(k, j) in K
    decreases top - k
  {
    if IsAncestor(C, k, j) {
      var c :| c in C && Above(c, k) == j;
      AncestorsDerived(n, top, C, K, c, k);
    } else if Partner(j) < LevelSize(n, k) && IsAncestor(C, k, Partner(j)) {
      var c :| c in C && Above(c, k) == Partner(j);
      PartnerPartner(j);
      assert Discloses(n, top, c, K);
    } else if k < top {
      ExposedDerived(n, top, C, K, k + 1, j / 2);
      assert GroupClosed(n, K, k, j / 2);
    }
  }

  /** The closed form is contained in every set that holds the disclosed nodes and is closed. */
  lemma ExposedLeast(n: nat, top: nat, C: set<nat>, K: set<NodeAt>)
    requires Colluders(n, top, C)
    requires Closed(n, top, K) && DisclosedWithin(n, top, C, K)
    ensures ExposedSet(n, top, C) <= K
  {
    forall at | at in ExposedSet(n, top, C) ensures at in K {
      ExposedMember(n, top, C, at.level, at.pos);
      ExposedDerived(n, top, C, K, at.level, at.pos);
    }
  }

  /** More colluders never derive less. */
  lemma ExposedMonotone(n: nat, top: nat, few: set<nat>, many: set<nat>)
    requires Colluders(n, top, many) && few <= many
    ensures ExposedSet(n, top, few) <= ExposedSet(n, top, many)
  {
    ExposedClosed(n, top, many);
    ExposedHasDisclosed(n, top, many);
    ExposedLeast(n, top, few, ExposedSet(n, top, many));
  }
}
