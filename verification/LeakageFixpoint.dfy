/**
 The fixpoint loop of the leakage analysis, proved to derive exactly the closed form and only
 true sums (solvency-merkle/examples/sibling_leakage.rs).
 */
module LeakageFixpoint {
  import opened Wrappers
  import opened ByteStrings
  import opened Amounts
  import opened Balances
  import opened Leaves
  import opened Shapes
  import opened SumTrees
  import opened Leakage

  type Known = map<NodeAt, Sums>

  /** `sub`: what is left of `a` without `b`, zero entries dropped. */
  function Sub(a: Sums, b: Sums): Sums {
    map x | x in a && a[x] > At(b, x) :: a[x] - At(b, x)
  }

  /** A levelled tree of sums, the hashes aside. Every built tree is one. */
  ghost predicate SumLevels(levels: seq<seq<Node>>) {
    && |levels| > 0 && |levels[0]| > 0
    && (forall k :: 0 <= k < |levels| ==> |levels[k]| == LevelSize(|levels[0]|, k))
    && IsHeight(|levels[0]|, |levels| - 1)
    && forall k, p :: 0 <= k < |levels| - 1 && 0 <= p < |levels[k + 1]| ==> GroupSums(levels, k, p)
  }

  ghost predicate GroupSums(levels: seq<seq<Node>>, k: nat, p: nat)
    requires k + 1 < |levels| && p < |levels[k + 1]| && 2 * p < |levels[k]|
  {
    levels[k + 1][p].sums ==
      if 2 * p + 1 < |levels[k]| then Plus(levels[k][2 * p].sums, levels[k][2 * p + 1].sums)
      else levels[k][2 * p].sums
  }

  lemma TreeHasSumLevels(H: HashFn, levels: seq<seq<Node>>)
    requires IsTree(H, levels)
    ensures SumLevels(levels)
  {
    hide Combined, Plus;
    TreeClimbs(H, levels);
    forall k, p | 0 <= k < |levels| - 1 && 0 <= p < |levels[k + 1]| ensures GroupSums(levels, k, p) {
      assert Paired(H, levels[k], levels[k + 1]);
      assert Parent(H, levels[k], p) == Ok(levels[k + 1][p]);
      if 2 * p + 1 < |levels[k]| {
        CombinedSums(H, levels[k][2 * p], levels[k][2 * p + 1]);
      }
    }
  }

  /**
   `levels_of`: the tree with every combined node's hash zeroed. `None` is where the source's plain
   addition overflows: exactly when some total leaves `u128`.
   */
  method LevelsOf(leaves: seq<Node>) returns (r: Option<seq<seq<Node>>>)
    ensures r.None? <==> leaves != [] && !Fits(Total(leaves))
    ensures leaves == [] ==> r == Some([[]])
    ensures leaves != [] && r.Some? ==>
      IsTree(_ => Zeros(), r.value) && r.value[0] == leaves && SumLevels(r.value)
  {
    hide IsTree, Total, Fits, SumLevels;
    if leaves == [] {
      return Some([[]]);
    }
    var tree := Build(_ => Zeros(), leaves);
    match tree
    case Err(_) => return None;
    case Ok(t) =>
      TreeHasSumLevels(_ => Zeros(), t.levels);
      return Some(t.levels);
  }

  ghost predicate InLevels(levels: seq<seq<Node>>, at: NodeAt) {
    at.level < |levels| && at.pos < |levels[at.level]|
  }

  /** Everything recorded is a real node's sums, up to explicit zeros. */
  ghost predicate Faithful(levels: seq<seq<Node>>, known: Known) {
    forall at :: at in known ==>
      InLevels(levels, at) && SameAmounts(known[at], levels[at.level][at.pos].sums)
  }

  /** Adding faithful sums never overflows and gives the parent's. */
  lemma PlusFaithful(l: Sums, r: Sums, realL: Sums, realR: Sums, realP: Sums)
    requires SameAmounts(l, realL) && SameAmounts(r, realR) && realP == Plus(realL, realR)
    ensures Fits(Plus(l, r)) && SameAmounts(Plus(l, r), realP)
  {
    hide Plus, SameAmounts;
    forall x ensures At(Plus(l, r), x) == At(realP, x) {
      PlusAt(l, r, x);
      PlusAt(realL, realR, x);
      SameAmountsAt(l, realL, x);
      SameAmountsAt(r, realR, x);
    }
    PointwiseSame(Plus(l, r), realP);
  }

  lemma PointwiseSame(a: Totals, b: Sums)
    requires forall x :: At(a, x) == At(b, x)
    ensures Fits(a) && SameAmounts(a, b)
  {
    forall x | x in a ensures a[x] <= U128_MAX {
      assert At(a, x) == At(b, x);
    }
  }

  /** Subtracting a faithful child from a faithful parent never saturates and gives the sibling. */
  lemma SubFaithful(p: Sums, c: Sums, realP: Sums, realC: Sums, realS: Sums)
    requires SameAmounts(p, realP) && SameAmounts(c, realC) && realP == Plus(realC, realS)
    ensures forall x :: At(c, x) <= At(p, x)
    ensures SameAmounts(Sub(p, c), realS)
  {
    hide Plus, SameAmounts;
    forall x ensures At(c, x) <= At(p, x) && At(Sub(p, c), x) == At(realS, x) {
      PlusAt(realC, realS, x);
      SameAmountsAt(p, realP, x);
      SameAmountsAt(c, realC, x);
    }
    PointwiseSame(Sub(p, c), realS);
  }

  lemma Overwritten(levels: seq<seq<Node>>, known: Known, at: NodeAt, v: Sums)
    requires Faithful(levels, known) && InLevels(levels, at)
    requires SameAmounts(v, levels[at.level][at.pos].sums)
    ensures Faithful(levels, known[at := v])
  {
    hide SameAmounts;
  }

  /** One group of the pass: a pair and its parent, or a promoted node and its copy. */
  method VisitGroup(levels: seq<seq<Node>>, known: Known, k: nat, p: nat) returns (more: Known, learned: bool)
    requires SumLevels(levels) && k < |levels| - 1 && 2 * p < |levels[k]|
    requires Faithful(levels, known)
    ensures Faithful(levels, more)
    ensures known.Keys <= more.Keys
    ensures learned <==> known.Keys != more.Keys
    ensures GroupClosed(|levels[0]|, more.Keys, k, p)
    ensures forall K :: GroupClosed(|levels[0]|, K, k, p) && known.Keys <= K ==> more.Keys <= K
  {
    hide SameAmounts, Plus, Sub;
    more, learned := known, false;
    assert p < |levels[k + 1]|;
    assert GroupSums(levels, k, p);
    var left, right, parent := NodeAt(k, 2 * p), NodeAt(k, 2 * p + 1), NodeAt(k + 1, p);
    if 2 * p + 1 >= |levels[k]| {
      if left in known {
        Overwritten(levels, known, parent, known[left]);
        learned := parent !in known;
        more := known[parent := known[left]];
      } else if parent in known {
        Overwritten(levels, known, left, known[parent]);
        learned := left !in known;
        more := known[left := known[parent]];
      }
      return;
    }
    ghost var realL, realR, realP := levels[k][2 * p].sums, levels[k][2 * p + 1].sums, levels[k + 1][p].sums;
    if left in known && right in known && parent !in known {
      PlusFaithful(known[left], known[right], realL, realR, realP);
      var sum: Sums := Plus(known[left], known[right]);
      Overwritten(levels, known, parent, sum);
      more, learned := known[parent := sum], true;
    } else if left in known && right !in known && parent in known {
      SubFaithful(known[parent], known[left], realP, realL, realR);
      Overwritten(levels, known, right, Sub(known[parent], known[left]));
      more, learned := known[right := Sub(known[parent], known[left])], true;
    } else if left !in known && right in known && parent in known {
      PlusCommutes(realL, realR);
      SubFaithful(known[parent], known[right], realP, realR, realL);
      Overwritten(levels, known, left, Sub(known[parent], known[right]));
      more, learned := known[left := Sub(known[parent], known[right])], true;
    }
  }

  // ----- what the proofs disclose

  ghost predicate Holders(levels: seq<seq<Node>>, colluders: seq<nat>) {
    |levels| > 0 && forall i :: 0 <= i < |colluders| ==> colluders[i] < |levels[0]|
  }

  ghost function AsSet(colluders: seq<nat>): set<nat> {
    set i | 0 <= i < |colluders| :: colluders[i]
  }

  lemma SelfRecorded(levels: seq<seq<Node>>, known: Known, at: NodeAt)
    requires Faithful(levels, known) && InLevels(levels, at)
    ensures Faithful(levels, known[at := levels[at.level][at.pos].sums])
  {
    Overwritten(levels, known, at, levels[at.level][at.pos].sums);
  }

  /** What one holder's leaf and proof disclose, recorded. */
  method DiscloseProof(levels: seq<seq<Node>>, start: Known, leaf: nat, ghost C: set<nat>) returns (known: Known)
    requires SumLevels(levels) && leaf < |levels[0]| && Faithful(levels, start)
    requires Colluders(|levels[0]|, |levels| - 1, C) && leaf in C
    requires start.Keys <= ExposedSet(|levels[0]|, |levels| - 1, C)
    ensures Faithful(levels, known) && start.Keys <= known.Keys
    ensures Discloses(|levels[0]|, |levels| - 1, leaf, known.Keys)
    ensures known.Keys <= ExposedSet(|levels[0]|, |levels| - 1, C)
  {
    hide Faithful, ExposedSet, GroupSums, IsHeight;
    ghost var n := |levels[0]|;
    var top := |levels| - 1;
    ExposedDiscloses(n, top, C, leaf);
    SelfRecorded(levels, start, NodeAt(0, leaf));
    known := start[NodeAt(0, leaf) := levels[0][leaf].sums];
    var idx := leaf;
    for level := 0 to top
      invariant Faithful(levels, known) && start.Keys <= known.Keys && NodeAt(0, leaf) in known
      invariant idx == Above(leaf, level)
      invariant forall k :: 0 <= k < level && Partner(Above(leaf, k)) < LevelSize(n, k) ==>
        NodeAt(k, Partner(Above(leaf, k))) in known
      invariant known.Keys <= ExposedSet(n, top, C)
    {
      var sibling := Partner(idx);
      if sibling < |levels[level]| {
        SelfRecorded(levels, known, NodeAt(level, sibling));
        known := known[NodeAt(level, sibling) := levels[level][sibling].sums];
      }
      idx := idx / 2;
    }
  }

  /** The published root, and each colluder's own leaf and path. */
  method Disclose(levels: seq<seq<Node>>, colluders: seq<nat>) returns (known: Known)
    requires SumLevels(levels)
    requires Holders(levels, colluders)
    ensures Faithful(levels, known)
    ensures DisclosedWithin(|levels[0]|, |levels| - 1, AsSet(colluders), known.Keys)
    ensures known.Keys <= ExposedSet(|levels[0]|, |levels| - 1, AsSet(colluders))
  {
    hide Faithful, ExposedSet, GroupSums, Discloses;
    ghost var n, C := |levels[0]|, AsSet(colluders);
    var top := |levels| - 1;
    ExposedHasDisclosed(n, top, C);
    known := map[NodeAt(top, 0) := levels[top][0].sums];
    RootRecorded(levels);
    for i := 0 to |colluders|
      invariant Faithful(levels, known) && NodeAt(top, 0) in known
      invariant forall t :: 0 <= t < i ==> Discloses(n, top, colluders[t], known.Keys)
      invariant known.Keys <= ExposedSet(n, top, C)
    {
      ghost var before := known.Keys;
      known := DiscloseProof(levels, known, colluders[i], C);
      forall t | 0 <= t < i ensures Discloses(n, top, colluders[t], known.Keys) {
        DisclosesMore(n, top, colluders[t], before, known.Keys);
      }
    }
  }

  lemma RootRecorded(levels: seq<seq<Node>>)
    requires SumLevels(levels)
    ensures Faithful(levels, map[NodeAt(|levels| - 1, 0) := levels[|levels| - 1][0].sums])
  {
    hide SameAmounts, GroupSums;
    SelfRecorded(levels, map[], NodeAt(|levels| - 1, 0));
  }

  lemma DisclosesMore(n: nat, top: nat, c: nat, few: set<NodeAt>, many: set<NodeAt>)
    requires Discloses(n, top, c, few) && few <= many
    ensures Discloses(n, top, c, many)
  {
  }

  lemma DisclosedStays(n: nat, top: nat, C: set<nat>, few: set<NodeAt>, many: set<NodeAt>)
    requires DisclosedWithin(n, top, C, few) && few <= many
    ensures DisclosedWithin(n, top, C, many)
  {
    forall c | c in C ensures Discloses(n, top, c, many) {
      DisclosesMore(n, top, c, few, many);
    }
  }

  // ----- the fixpoint

  /** One sweep over every group, bottom level first. */
  method Sweep(levels: seq<seq<Node>>, start: Known, ghost C: set<nat>) returns (known: Known, learned: bool)
    requires SumLevels(levels) && Faithful(levels, start)
    requires Colluders(|levels[0]|, |levels| - 1, C)
    requires start.Keys <= ExposedSet(|levels[0]|, |levels| - 1, C)
    ensures Faithful(levels, known)
    ensures start.Keys <= known.Keys <= ExposedSet(|levels[0]|, |levels| - 1, C)
    ensures learned <==> known.Keys != start.Keys
    ensures !learned ==> Closed(|levels[0]|, |levels| - 1, known.Keys)
  {
    hide SameAmounts, ExposedSet, GroupSums, GroupClosed, Faithful;
    ghost var n := |levels[0]|;
    var top := |levels| - 1;
    known, learned := start, false;
    for level := 0 to top
      invariant Faithful(levels, known)
      invariant start.Keys <= known.Keys <= ExposedSet(n, top, C)
      invariant learned <==> known.Keys != start.Keys
      invariant !learned ==> forall k, q :: 0 <= k < level && 0 <= q && 2 * q < LevelSize(n, k) ==>
        GroupClosed(n, known.Keys, k, q)
    {
      var p := 0;
      while 2 * p < |levels[level]|
        invariant Faithful(levels, known)
        invariant start.Keys <= known.Keys <= ExposedSet(n, top, C)
        invariant learned <==> known.Keys != start.Keys
        invariant !learned ==> forall k, q :: 0 <= k < level && 0 <= q && 2 * q < LevelSize(n, k) ==>
          GroupClosed(n, known.Keys, k, q)
        invariant !learned ==> forall q :: 0 <= q < p ==> GroupClosed(n, known.Keys, level, q)
      {
        ExposedGroupClosed(n, top, C, level, p);
        var more, news := VisitGroup(levels, known, level, p);
        known := more;
        learned := learned || news;
        p := p + 1;
      }
    }
  }

  ghost function Everything(levels: seq<seq<Node>>): set<NodeAt> {
    set k, j | 0 <= k < |levels| && 0 <= j < |levels[k]| :: NodeAt(k, j)
  }

  lemma FaithfulWithin(levels: seq<seq<Node>>, known: Known)
    requires Faithful(levels, known)
    ensures known.Keys <= Everything(levels)
  {
  }

  lemma AsSetColluders(levels: seq<seq<Node>>, colluders: seq<nat>)
    requires SumLevels(levels) && Holders(levels, colluders)
    ensures Colluders(|levels[0]|, |levels| - 1, AsSet(colluders))
  {
  }

  /**
   The loop terminates; it derives exactly the closed form, and every value it records is the
   node's real sums up to explicit zeros.
   */
  method Derive(levels: seq<seq<Node>>, colluders: seq<nat>) returns (known: Known)
    requires SumLevels(levels)
    requires Holders(levels, colluders)
    ensures known.Keys == ExposedSet(|levels[0]|, |levels| - 1, AsSet(colluders))
    ensures Faithful(levels, known)
  {
    hide GroupSums, ExposedSet, Faithful, Closed, DisclosedWithin, Everything, AsSet;
    ghost var n, top, C := |levels[0]|, |levels| - 1, AsSet(colluders);
    AsSetColluders(levels, colluders);
    known := Disclose(levels, colluders);
    var learned := true;
    while learned
      invariant Faithful(levels, known)
      invariant DisclosedWithin(n, top, C, known.Keys)
      invariant known.Keys <= ExposedSet(n, top, C)
      invariant !learned ==> Closed(n, top, known.Keys)
      decreases Everything(levels) - known.Keys, learned
    {
      ghost var before := known.Keys;
      known, learned := Sweep(levels, known, C);
      DisclosedStays(n, top, C, before, known.Keys);
      FaithfulWithin(levels, known);
    }
    ExposedLeast(n, top, C, known.Keys);
  }

  /** `determined` */
  method Determined(levels: seq<seq<Node>>, colluders: seq<nat>) returns (nodes: set<NodeAt>)
    requires SumLevels(levels)
    requires Holders(levels, colluders)
    ensures nodes == ExposedSet(|levels[0]|, |levels| - 1, AsSet(colluders))
  {
    var known := Derive(levels, colluders);
    nodes := known.Keys;
  }
}
