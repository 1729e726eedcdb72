/**
 The Merkle sum tree: build, prove and verify as the source runs them, each proved against an
 index-based description of a finished tree (solvency-merkle/src/lib.rs).
 */
module SumTrees {
  import opened Wrappers
  import opened ByteStrings
  import opened Amounts
  import opened Balances
  import opened Domains
  import opened Leaves
  import opened Shapes

  datatype TreeError = NoLeaves | SumOverflow(asset: Bytes) | IndexOutOfRange

  datatype SumTree = SumTree(levels: seq<seq<Node>>)

  datatype ProofStep = ProofStep(sibling: Node, siblingOnLeft: bool)

  // ----- combining two nodes

  function PairPreimage(l: Digest, r: Digest, sums: Totals): Bytes {
    DomainBytes(Pair) + (l + (r + Canonical(sums)))
  }

  /** Adding `r`'s amounts for `names` into `sums`, one by one, until one leaves `u128`. */
  function AddFrom(names: seq<Bytes>, sums: Sums, r: Sums): Result<Sums, TreeError> {
    if names == [] then
      Ok(sums)
    else
      var total := At(sums, names[0]) + At(r, names[0]);
      if total > U128_MAX then Err(SumOverflow(names[0])) else AddFrom(names[1..], sums[names[0] := total], r)
  }

  function CheckedPlus(l: Sums, r: Sums): Result<Sums, TreeError> {
    AddFrom(SortedKeys(r.Keys), l, r)
  }

  function Restrict(m: Totals, names: seq<Bytes>): Totals {
    map a | a in m && a in names :: m[a]
  }

  lemma {:induction false} AddFromRestricts(names: seq<Bytes>, sums: Sums, r: Sums)
    requires StrictlySorted(names) && forall k :: k in names ==> k in r
    ensures AddFrom(names, sums, r).Ok? <==> Fits(Plus(sums, Restrict(r, names)))
    ensures AddFrom(names, sums, r).Ok? ==> AddFrom(names, sums, r).value == Plus(sums, Restrict(r, names))
    ensures AddFrom(names, sums, r).Err? ==>
      && AddFrom(names, sums, r).error.SumOverflow?
      && At(Plus(sums, Restrict(r, names)), AddFrom(names, sums, r).error.asset) > U128_MAX
  {
    hide Plus, Restrict;
    if names == [] {
      PlusEmpty(sums);
      RestrictToNone(r);
    } else {
      var a := names[0];
      HeadIsNew(names);
      PlusAt(sums, Restrict(r, names), a);
      RestrictAt(r, names, a);
      if At(sums, a) + At(r, a) > U128_MAX {
        NotFitting(Plus(sums, Restrict(r, names)), a);
      } else {
        assert forall k :: k in names[1..] ==> k in names;
        AddFromRestricts(names[1..], sums[a := At(sums, a) + At(r, a)], r);
        RestrictStep(names, sums, r);
      }
    }
  }

  lemma HeadIsNew(names: seq<Bytes>)
    requires names != [] && StrictlySorted(names)
    ensures names[0] in names && names[0] !in names[1..] && StrictlySorted(names[1..])
  {
    BeforeIrreflexive(names[0]);
  }

  lemma RestrictToNone(r: Totals)
    ensures Restrict(r, []) == map[]
  {
  }

  lemma RestrictAt(r: Totals, names: seq<Bytes>, a: Bytes)
    requires a in names
    ensures At(Restrict(r, names), a) == At(r, a)
  {
  }

  lemma RestrictStep(names: seq<Bytes>, sums: Sums, r: Sums)
    requires names != [] && names[0] in r && names[0] !in names[1..]
    requires forall k :: k in names ==> k in r
    requires At(sums, names[0]) + At(r, names[0]) <= U128_MAX
    ensures Plus(sums[names[0] := At(sums, names[0]) + At(r, names[0])], Restrict(r, names[1..]))
         == Plus(sums, Restrict(r, names))
  {
    hide Plus, Restrict;
    var a, more := names[0], sums[names[0] := At(sums, names[0]) + At(r, names[0])];
    var rest, all := Restrict(r, names[1..]), Restrict(r, names);
    forall k
      ensures At(Plus(more, rest), k) == At(Plus(sums, all), k) && (k in Plus(more, rest) <==> k in Plus(sums, all))
    {
      PlusAt(more, rest, k);
      PlusAt(sums, all, k);
      PlusKeys(more, rest, k);
      PlusKeys(sums, all, k);
      RestrictHas(r, names, k);
      RestrictHas(r, names[1..], k);
    }
    SameByAt(Plus(more, rest), Plus(sums, all));
  }

  lemma PlusKeys(l: Totals, r: Totals, k: Bytes)
    ensures k in Plus(l, r) <==> k in l || k in r
  {
  }

  lemma RestrictHas(r: Totals, names: seq<Bytes>, k: Bytes)
    ensures k in Restrict(r, names) <==> k in r && k in names
    ensures At(Restrict(r, names), k) == if k in names then At(r, k) else 0
  {
  }

  lemma SameByAt(l: Totals, r: Totals)
    requires forall k :: At(l, k) == At(r, k) && (k in l <==> k in r)
    ensures l == r
  {
    forall k | k in l ensures l[k] == r[k] {
      assert At(l, k) == At(r, k);
    }
  }

  lemma NotFitting(t: Totals, asset: Bytes)
    requires At(t, asset) > U128_MAX
    ensures !Fits(t)
  {
    assert asset in t;
  }

  /** Checked addition is addition exactly while every asset fits. */
  lemma CheckedPlusIsPlus(l: Sums, r: Sums)
    ensures CheckedPlus(l, r).Ok? <==> Fits(Plus(l, r))
    ensures CheckedPlus(l, r).Ok? ==> CheckedPlus(l, r).value == Plus(l, r)
    ensures CheckedPlus(l, r).Err? ==>
      CheckedPlus(l, r).error.SumOverflow? && At(Plus(l, r), CheckedPlus(l, r).error.asset) > U128_MAX
  {
    hide AddFrom, Restrict, Plus, Fits, StrictlySorted;
    AddFromRestricts(SortedKeys(r.Keys), l, r);
    RestrictToAll(r);
  }

  lemma RestrictToAll(r: Sums)
    ensures Restrict(r, SortedKeys(r.Keys)) == r
  {
  }

  function Combined(H: HashFn, left: Node, right: Node): Result<Node, TreeError> {
    match CheckedPlus(left.sums, right.sums)
    case Err(e) => Err(e)
    case Ok(sums) => Ok(Node(H(PairPreimage(left.hash, right.hash, sums)), sums))
  }

  /** `combine` */
  method Combine(H: HashFn, left: Node, right: Node) returns (r: Result<Node, TreeError>)
    ensures r == Combined(H, left, right)
  {
    hide StrictlySorted, AddFrom, Canonical, Ascii;
    var sums: Sums := left.sums;
    var names := SortedKeys(right.sums.Keys);
    assert forall i :: 0 <= i < |names| ==> names[i] in names;
    for i := 0 to |names|
      invariant AddFrom(names[i..], sums, right.sums) == AddFrom(names, left.sums, right.sums)
    {
      AddFromNext(names, i, sums, right.sums);
      var slot := At(sums, names[i]);
      var total := slot + right.sums[names[i]];
      if total > U128_MAX {
        return Err(SumOverflow(names[i]));
      }
      sums := sums[names[i] := total];
    }
    AddFromNone(sums, right.sums);
    assert names[|names|..] == [];
    var domain := Ascii("rocky-solvency-node-v1");
    var preimage := domain + left.hash + right.hash + Canonical(sums);
    Regrouped(domain, left.hash, right.hash, Canonical(sums));
    r := Ok(Node(H(preimage), sums));
  }

  lemma Regrouped(a: Bytes, b: Bytes, c: Bytes, d: Bytes)
    ensures ((a + b) + c) + d == a + (b + (c + d))
  {
  }

  lemma AddFromNext(names: seq<Bytes>, i: nat, sums: Sums, r: Sums)
    requires i < |names| && forall k :: k in names ==> k in r
    ensures forall k :: k in names[i..] ==> k in r
    ensures forall k :: k in names[i + 1..] ==> k in r
    ensures AddFrom(names[i..], sums, r)
         == var total := At(sums, names[i]) + r[names[i]];
            if total > U128_MAX then Err(SumOverflow(names[i]))
            else AddFrom(names[i + 1..], sums[names[i] := total], r)
  {
    assert names[i..][1..] == names[i + 1..];
  }

  lemma AddFromNone(sums: Sums, r: Sums)
    ensures AddFrom([], sums, r) == Ok(sums)
  {
  }

  // ----- levels

  /** What stands at position `j` above `level`: a combined pair, or a promoted odd node. */
  function Parent(H: HashFn, level: seq<Node>, j: nat): Result<Node, TreeError>
    requires 2 * j < |level|
  {
    if 2 * j + 1 < |level| then Combined(H, level[2 * j], level[2 * j + 1]) else Ok(level[2 * j])
  }

  ghost predicate Paired(H: HashFn, level: seq<Node>, next: seq<Node>) {
    && |next| == (|level| + 1) / 2
    && forall j :: 0 <= j < |next| ==> Parent(H, level, j) == Ok(next[j])
  }

  /** A finished tree over the leaves `levels[0]`. */
  ghost predicate IsTree(H: HashFn, levels: seq<seq<Node>>) {
    && |levels| > 0
    && (forall k :: 0 <= k < |levels| ==> |levels[k]| == LevelSize(|levels[0]|, k))
    && IsHeight(|levels[0]|, |levels| - 1)
    && forall k :: 0 <= k < |levels| - 1 ==> Paired(H, levels[k], levels[k + 1])
  }

  /** The sums of a run of leaves. */
  function Total(leaves: seq<Node>): Totals {
    if leaves == [] then map[] else Plus(leaves[0].sums, Total(leaves[1..]))
  }

  lemma {:induction false} TotalConcat(a: seq<Node>, b: seq<Node>)
    ensures Total(a + b) == Plus(Total(a), Total(b))
  {
    if a == [] {
      assert a + b == b;
      assert Plus(map[], Total(b)) == Total(b);
    } else {
      assert (a + b)[0] == a[0] && (a + b)[1..] == a[1..] + b;
      TotalConcat(a[1..], b);
      PlusAssociative(a[0].sums, Total(a[1..]), Total(b));
    }
  }

  lemma TotalOfPart(leaves: seq<Node>, i: nat, j: nat, asset: Bytes)
    requires i <= j <= |leaves|
    ensures At(Total(leaves[i..j]), asset) <= At(Total(leaves), asset)
  {
    hide Plus, Total;
    var before, part, after := leaves[..i], leaves[i..j], leaves[j..];
    assert leaves == before + (part + after);
    TotalConcat(before, part + after);
    TotalConcat(part, after);
    PlusAt(Total(before), Total(part + after), asset);
    PlusAt(Total(part), Total(after), asset);
  }

  /** The levels built so far: `IsTree` without the claim that the top is reached. */
  ghost predicate Climbing(H: HashFn, levels: seq<seq<Node>>) {
    && |levels| > 0 && |levels[0]| > 0
    && (forall k :: 0 <= k < |levels| ==> |levels[k]| == LevelSize(|levels[0]|, k))
    && (forall k :: 0 <= k < |levels| - 1 ==> |levels[k]| > 1)
    && forall k :: 0 <= k < |levels| - 1 ==> Paired(H, levels[k], levels[k + 1])
  }

  /**
   Every node carries, per asset, exactly the sum of the leaves it stands over, and no other key.
   */
  lemma {:induction false} RangeSums(H: HashFn, levels: seq<seq<Node>>, k: nat, j: nat)
    requires Climbing(H, levels)
    requires k < |levels| && j < |levels[k]|
    ensures First(k, j) < Past(k, j, |levels[0]|) <= |levels[0]|
    ensures levels[k][j].sums == Total(levels[0][First(k, j)..Past(k, j, |levels[0]|)])
  {
    hide Combined, Plus, First, Past, Total, LevelSize, Climbing, IsHeight, Parent;
    RangeNonEmptyAt(H, levels, k, j);
    if k == 0 {
      LeafSum(H, levels, j);
    } else {
      NodeHasParent(H, levels, k, j);
      RangeSums(H, levels, k - 1, 2 * j);
      if 2 * j + 1 < |levels[k - 1]| {
        RangeSums(H, levels, k - 1, 2 * j + 1);
      }
      ParentSum(H, levels, k, j);
    }
  }

  lemma RangeNonEmptyAt(H: HashFn, levels: seq<seq<Node>>, k: nat, j: nat)
    requires Climbing(H, levels) && k < |levels| && j < |levels[k]|
    ensures |levels| > 0 && First(k, j) < Past(k, j, |levels[0]|) <= |levels[0]|
  {
    RangeNonEmpty(|levels[0]|, k, j);
  }

  /** What the node at `(k, j)` has to carry. */
  ghost predicate CarriesRange(levels: seq<seq<Node>>, k: nat, j: nat) {
    && k < |levels| && j < |levels[k]|
    && First(k, j) < Past(k, j, |levels[0]|) <= |levels[0]|
    && levels[k][j].sums == Total(levels[0][First(k, j)..Past(k, j, |levels[0]|)])
  }

  lemma LeafSum(H: HashFn, levels: seq<seq<Node>>, j: nat)
    requires Climbing(H, levels) && j < |levels[0]|
    ensures CarriesRange(levels, 0, j)
  {
    hide Plus, First, Past;
    LeafRange(|levels[0]|, j);
    var alone := [levels[0][j]];
    assert levels[0][j..j + 1] == alone && alone[1..] == [];
    assert Total(alone) == Plus(levels[0][j].sums, Total([]));
    PlusEmpty(levels[0][j].sums);
  }

  lemma ParentSum(H: HashFn, levels: seq<seq<Node>>, k: nat, j: nat)
    requires Climbing(H, levels) && 0 < k < |levels| && j < |levels[k]|
    requires CarriesRange(levels, k - 1, 2 * j)
    requires 2 * j + 1 < |levels[k - 1]| ==> CarriesRange(levels, k - 1, 2 * j + 1)
    ensures CarriesRange(levels, k, j)
  {
    hide Combined, Plus, First, Past, Total, LevelSize, Climbing;
    var leaves, n := levels[0], |levels[0]|;
    NodeHasParent(H, levels, k, j);
    RangeNonEmptyAt(H, levels, k, j);
    RangeSplits(n, k - 1, j);
    if 2 * j + 1 < |levels[k - 1]| {
      PairSums(H, leaves, First(k, j), First(k - 1, 2 * j + 1), Past(k, j, n),
               levels[k - 1][2 * j], levels[k - 1][2 * j + 1], levels[k][j]);
    }
  }

  lemma NodeHasParent(H: HashFn, levels: seq<seq<Node>>, k: nat, j: nat)
    requires Climbing(H, levels) && 0 < k < |levels| && j < |levels[k]|
    ensures |levels[0]| > 0 && j < LevelSize(|levels[0]|, k) && |levels[k - 1]| == LevelSize(|levels[0]|, k - 1)
    ensures 2 * j < |levels[k - 1]| && Parent(H, levels[k - 1], j) == Ok(levels[k][j])
  {
    assert Paired(H, levels[k - 1], levels[k]);
  }

  lemma PairSums(H: HashFn, leaves: seq<Node>, lo: nat, mid: nat, hi: nat, l: Node, r: Node, parent: Node)
    requires lo <= mid <= hi <= |leaves|
    requires l.sums == Total(leaves[lo..mid]) && r.sums == Total(leaves[mid..hi])
    requires Combined(H, l, r) == Ok(parent)
    ensures parent.sums == Total(leaves[lo..hi])
  {
    hide Combined, Plus, Total;
    CombinedSums(H, l, r);
    assert leaves[lo..hi] == leaves[lo..mid] + leaves[mid..hi];
    TotalConcat(leaves[lo..mid], leaves[mid..hi]);
  }

  lemma CombinedSums(H: HashFn, l: Node, r: Node)
    ensures Combined(H, l, r).Ok? <==> Fits(Plus(l.sums, r.sums))
    ensures Combined(H, l, r).Ok? ==> Combined(H, l, r).value.sums == Plus(l.sums, r.sums)
    ensures Combined(H, l, r).Ok? ==>
      Combined(H, l, r).value.hash == H(PairPreimage(l.hash, r.hash, Plus(l.sums, r.sums)))
    ensures Combined(H, l, r).Err? ==>
      Combined(H, l, r).error.SumOverflow? && At(Plus(l.sums, r.sums), Combined(H, l, r).error.asset) > U128_MAX
  {
    hide CheckedPlus, Plus, PairPreimage;
    CheckedPlusIsPlus(l.sums, r.sums);
  }

  /** Two neighbours that are paired never hold more than the whole book. */
  lemma PairWithinTotal(H: HashFn, levels: seq<seq<Node>>, k: nat, j: nat, asset: Bytes)
    requires Climbing(H, levels) && k < |levels| && 2 * j + 1 < |levels[k]|
    ensures At(Plus(levels[k][2 * j].sums, levels[k][2 * j + 1].sums), asset) <= At(Total(levels[0]), asset)
  {
    hide Combined, Plus, Total;
    var leaves := levels[0];
    var n := |leaves|;
    RangeSums(H, levels, k, 2 * j);
    RangeSums(H, levels, k, 2 * j + 1);
    RangeSplits(n, k, j);
    var lo, mid, hi := First(k, 2 * j), First(k, 2 * j + 1), Past(k, 2 * j + 1, n);
    assert leaves[lo..hi] == leaves[lo..mid] + leaves[mid..hi];
    TotalConcat(leaves[lo..mid], leaves[mid..hi]);
    TotalOfPart(leaves, lo, hi, asset);
  }

  lemma ClimbFrom(H: HashFn, leaves: seq<Node>)
    requires leaves != []
    ensures Climbing(H, [leaves])
  {
  }

  lemma ClimbOn(H: HashFn, levels: seq<seq<Node>>, next: seq<Node>)
    requires Climbing(H, levels) && |levels[|levels| - 1]| > 1
    requires Paired(H, levels[|levels| - 1], next)
    ensures Climbing(H, levels + [next])
    ensures 0 < |next| < |levels[|levels| - 1]|
  {
    hide Paired;
    var more, n := levels + [next], |levels| - 1;
    assert |next| == (|levels[n]| + 1) / 2 by {
      PairedSize(H, levels[n], next);
    }
    assert LevelSize(|levels[0]|, n + 1) == |next|;
    forall k | 0 <= k < |more| - 1 ensures Paired(H, more[k], more[k + 1]) {
      if k < n {
        assert Paired(H, levels[k], levels[k + 1]);
      }
    }
  }

  lemma PairedSize(H: HashFn, level: seq<Node>, next: seq<Node>)
    requires Paired(H, level, next)
    ensures |next| == (|level| + 1) / 2
  {
  }

  lemma Climbed(H: HashFn, levels: seq<seq<Node>>)
    requires Climbing(H, levels) && |levels[|levels| - 1]| == 1
    ensures IsTree(H, levels)
  {
    hide Paired;
    forall l | 0 <= l < |levels| - 1 ensures LevelSize(|levels[0]|, l) > 1 {
      assert |levels[l]| > 1;
    }
  }

  /**
   `SumTree::build`. It fails exactly on no leaves or when some asset's total leaves `u128`, and
   otherwise yields the one tree over its leaves.
   */
  method Build(H: HashFn, leaves: seq<Node>) returns (r: Result<SumTree, TreeError>)
    ensures r.Ok? <==> leaves != [] && Fits(Total(leaves))
    ensures r.Ok? ==> IsTree(H, r.value.levels) && r.value.levels[0] == leaves
    ensures r == Err(NoLeaves) <==> leaves == []
    ensures r.Err? && leaves != [] ==>
      r.error.SumOverflow? && At(Total(leaves), r.error.asset) > U128_MAX
  {
    hide Combined, Total, Plus, Climbing, At, Fits;
    if leaves == [] {
      return Err(NoLeaves);
    }
    var levels := [leaves];
    ClimbFrom(H, leaves);
    while |levels[|levels| - 1]| > 1
      invariant |levels| > 0 && |levels[|levels| - 1]| > 0
      invariant Climbing(H, levels) && levels[0] == leaves
      decreases |levels[|levels| - 1]|
    {
      var prev := levels[|levels| - 1];
      var next: seq<Node> := [];
      while 2 * |next| < |prev|
        invariant |next| <= (|prev| + 1) / 2
        invariant forall j :: 0 <= j < |next| ==> Parent(H, prev, j) == Ok(next[j])
      {
        var j := |next|;
        if 2 * j + 1 < |prev| {
          var combined := Combine(H, prev[2 * j], prev[2 * j + 1]);
          CombinedSums(H, prev[2 * j], prev[2 * j + 1]);
          if combined.Err? {
            PairWithinTotal(H, levels, |levels| - 1, j, combined.error.asset);
            NotFitting(Total(leaves), combined.error.asset);
            return Err(combined.error);
          }
          next := next + [combined.value];
        } else {
          next := next + [prev[2 * j]];
        }
      }
      ClimbOn(H, levels, next);
      levels := levels + [next];
    }
    Climbed(H, levels);
    RootSums(H, levels);
    return Ok(SumTree(levels));
  }

  /** The root publishes the totals of every leaf. */
  lemma RootSums(H: HashFn, levels: seq<seq<Node>>)
    requires Climbing(H, levels) && |levels[|levels| - 1]| == 1
    ensures levels[|levels| - 1][0].sums == Total(levels[0]) && Fits(Total(levels[0]))
  {
    var top, n := |levels| - 1, |levels[0]|;
    RangeSums(H, levels, top, 0);
    LevelSizeCovers(n, top);
    assert 0 * Pow2(top) == 0 && (0 + 1) * Pow2(top) == Pow2(top);
    assert levels[0][..n] == levels[0];
  }

  lemma TreeClimbs(H: HashFn, levels: seq<seq<Node>>)
    requires IsTree(H, levels)
    ensures Climbing(H, levels)
  {
    if |levels| > 1 {
      assert LevelSize(|levels[0]|, 0) > 1;
    }
  }

  /** The leaves determine the tree. */
  lemma TreeUnique(H: HashFn, s: seq<seq<Node>>, t: seq<seq<Node>>)
    requires IsTree(H, s) && IsTree(H, t) && s[0] == t[0]
    ensures s == t
  {
    var n := |s[0]|;
    HeightUnique(n, |s| - 1, |t| - 1);
    LevelsAgree(H, s, t, |s| - 1);
  }

  lemma {:induction false} LevelsAgree(H: HashFn, s: seq<seq<Node>>, t: seq<seq<Node>>, k: nat)
    requires IsTree(H, s) && IsTree(H, t) && s[0] == t[0] && |s| == |t| && k < |s|
    ensures forall l :: 0 <= l <= k ==> s[l] == t[l]
  {
    hide Combined;
    if k > 0 {
      LevelsAgree(H, s, t, k - 1);
      assert Paired(H, s[k - 1], s[k]) && Paired(H, t[k - 1], t[k]);
      forall j | 0 <= j < |s[k]| ensures s[k][j] == t[k][j] {
        assert Parent(H, s[k - 1], j) == Ok(s[k][j]) && Parent(H, t[k - 1], j) == Ok(t[k][j]);
      }
    }
  }

  // ----- proofs

  function Root(levels: seq<seq<Node>>): Node
    requires |levels| > 0 && |levels[|levels| - 1]| > 0
  {
    levels[|levels| - 1][0]
  }

  lemma RootTotals(H: HashFn, levels: seq<seq<Node>>)
    requires IsTree(H, levels)
    ensures |levels| > 0 && |levels[0]| > 0 && |levels[|levels| - 1]| == 1
    ensures Root(levels).sums == Total(levels[0]) && Fits(Total(levels[0]))
  {
    TreeClimbs(H, levels);
    RootSums(H, levels);
  }

  /** The step a level contributes: none where the node was promoted. */
  function StepAt(level: seq<Node>, idx: nat): seq<ProofStep> {
    if Partner(idx) < |level| then [ProofStep(level[Partner(idx)], Partner(idx) < idx)] else []
  }

  /** The sibling path of leaf `i` up to level `k`. */
  function PathTo(levels: seq<seq<Node>>, i: nat, k: nat): seq<ProofStep>
    requires k <= |levels|
  {
    if k == 0 then [] else PathTo(levels, i, k - 1) + StepAt(levels[k - 1], Above(i, k - 1))
  }

  /** `SumTree::prove` */
  method Prove(tree: SumTree, leafIndex: nat) returns (r: Result<seq<ProofStep>, TreeError>)
    requires |tree.levels| > 0
    ensures r == if leafIndex < |tree.levels[0]| then Ok(PathTo(tree.levels, leafIndex, |tree.levels| - 1))
                 else Err(IndexOutOfRange)
  {
    if leafIndex >= |tree.levels[0]| {
      return Err(IndexOutOfRange);
    }
    var steps: seq<ProofStep> := [];
    var idx := leafIndex;
    for k := 0 to |tree.levels| - 1
      invariant steps == PathTo(tree.levels, leafIndex, k) && idx == Above(leafIndex, k)
    {
      var level := tree.levels[k];
      var siblingIdx := Partner(idx);
      if siblingIdx < |level| {
        steps := steps + [ProofStep(level[siblingIdx], siblingIdx < idx)];
      }
      idx := idx / 2;
    }
    return Ok(steps);
  }

  function Apply(H: HashFn, current: Node, step: ProofStep): Result<Node, TreeError> {
    if step.siblingOnLeft then Combined(H, step.sibling, current) else Combined(H, current, step.sibling)
  }

  /** Folding a path into a node. */
  function Fold(H: HashFn, leaf: Node, steps: seq<ProofStep>): Result<Node, TreeError> {
    if steps == [] then
      Ok(leaf)
    else
      match Fold(H, leaf, steps[..|steps| - 1])
      case Err(e) => Err(e)
      case Ok(current) => Apply(H, current, steps[|steps| - 1])
  }

  lemma {:induction false} FoldFailsOn(H: HashFn, leaf: Node, steps: seq<ProofStep>, i: nat)
    requires i <= |steps| && Fold(H, leaf, steps[..i]).Err?
    ensures Fold(H, leaf, steps).Err?
    decreases |steps| - i
  {
    hide Apply;
    if i == |steps| {
      assert steps[..i] == steps;
    } else {
      assert steps[..i + 1][..i] == steps[..i];
      FoldFailsOn(H, leaf, steps, i + 1);
    }
  }

  /** `verify_proof`: hash and sums of the folded path against the root. */
  method VerifyProof(H: HashFn, leaf: Node, proof: seq<ProofStep>, root: Node) returns (accepted: bool)
    ensures accepted <==> Fold(H, leaf, proof) == Ok(root)
  {
    hide Combined;
    var current := leaf;
    for i := 0 to |proof|
      invariant Fold(H, leaf, proof[..i]) == Ok(current)
    {
      var step := proof[i];
      assert proof[..i + 1][..i] == proof[..i];
      var combined;
      if step.siblingOnLeft {
        combined := Combine(H, step.sibling, current);
      } else {
        combined := Combine(H, current, step.sibling);
      }
      match combined {
        case Ok(node) =>
          current := node;
        case Err(_) =>
          FoldFailsOn(H, leaf, proof, i + 1);
          return false;
      }
    }
    assert proof[..|proof|] == proof;
    return current == root;
  }

  // ----- completeness

  /** Folding a leaf's own path reaches its ancestor at every level. */
  lemma {:induction false} PathReachesAncestor(H: HashFn, levels: seq<seq<Node>>, i: nat, k: nat)
    requires IsTree(H, levels) && i < |levels[0]| && k < |levels|
    ensures Above(i, k) < |levels[k]|
    ensures Fold(H, levels[0][i], PathTo(levels, i, k)) == Ok(levels[k][Above(i, k)])
  {
    hide Combined;
    AboveInRange(|levels[0]|, i, k);
    if k > 0 {
      PathReachesAncestor(H, levels, i, k - 1);
      var below, a := levels[k - 1], Above(i, k - 1);
      assert Paired(H, below, levels[k]);
      StepReachesParent(H, levels[0][i], PathTo(levels, i, k - 1), below, levels[k], a);
    }
  }

  lemma StepReachesParent(
    H: HashFn, leaf: Node, path: seq<ProofStep>, level: seq<Node>, next: seq<Node>, a: nat)
    requires Paired(H, level, next) && a < |level| && Fold(H, leaf, path) == Ok(level[a])
    ensures a / 2 < |next|
    ensures Fold(H, leaf, path + StepAt(level, a)) == Ok(next[a / 2])
  {
    hide Combined, Fold, Paired;
    StepApplies(H, level, next, a);
    var step := StepAt(level, a);
    if step == [] {
      assert path + step == path;
    } else {
      FoldSnoc(H, leaf, path, step[0]);
      assert step == [step[0]];
    }
  }

  lemma StepApplies(H: HashFn, level: seq<Node>, next: seq<Node>, a: nat)
    requires Paired(H, level, next) && a < |level|
    ensures a / 2 < |next|
    ensures StepAt(level, a) == [] ==> level[a] == next[a / 2]
    ensures StepAt(level, a) != [] ==> Apply(H, level[a], StepAt(level, a)[0]) == Ok(next[a / 2])
  {
    hide Combined;
    assert Parent(H, level, a / 2) == Ok(next[a / 2]);
  }

  lemma FoldSnoc(H: HashFn, leaf: Node, path: seq<ProofStep>, step: ProofStep)
    requires Fold(H, leaf, path).Ok?
    ensures Fold(H, leaf, path + [step]) == Apply(H, Fold(H, leaf, path).value, step)
  {
    hide Apply;
    assert (path + [step])[..|path|] == path;
  }

  /** How many of the levels below `k` promote leaf `i`'s ancestor unpaired. */
  function Promotions(levels: seq<seq<Node>>, i: nat, k: nat): nat
    requires k <= |levels|
  {
    if k == 0 then 0
    else Promotions(levels, i, k - 1) + if Partner(Above(i, k - 1)) < |levels[k - 1]| then 0 else 1
  }

  lemma {:induction false} PathLength(levels: seq<seq<Node>>, i: nat, k: nat)
    requires k <= |levels|
    ensures |PathTo(levels, i, k)| + Promotions(levels, i, k) == k
  {
    if k > 0 {
      PathLength(levels, i, k - 1);
    }
  }

  /**
   Every leaf of a built tree has a proof that verifies; it has one step per level except where
   the node was promoted, so at most `ceil(log2 n)` of them.
   */
  lemma Completeness(H: HashFn, levels: seq<seq<Node>>, i: nat)
    requires IsTree(H, levels) && i < |levels[0]|
    ensures Fold(H, levels[0][i], PathTo(levels, i, |levels| - 1)) == Ok(Root(levels))
    ensures |PathTo(levels, i, |levels| - 1)| == |levels| - 1 - Promotions(levels, i, |levels| - 1)
    ensures |levels[0]| <= Pow2(|levels| - 1)
    ensures |levels| > 1 ==> Pow2(|levels| - 2) < |levels[0]|
  {
    hide Fold, Paired, PathTo;
    PathReachesAncestor(H, levels, i, |levels| - 1);
    assert Above(i, |levels| - 1) == 0;
    PathLength(levels, i, |levels| - 1);
    HeightIsLog(|levels[0]|, |levels| - 1);
  }

  // ----- the identity any accepted proof satisfies

  function SiblingTotal(steps: seq<ProofStep>): Totals {
    if steps == [] then map[] else Plus(SiblingTotal(steps[..|steps| - 1]), steps[|steps| - 1].sibling.sums)
  }

  /** Against any root whatever: the leaf's sums and its siblings' sums add up to the root's. */
  lemma {:induction false} AcceptedSumsAddUp(H: HashFn, leaf: Node, steps: seq<ProofStep>, root: Node)
    requires Fold(H, leaf, steps) == Ok(root)
    ensures root.sums == Plus(leaf.sums, SiblingTotal(steps))
  {
    hide Combined;
    if steps == [] {
      assert Plus(leaf.sums, map[]) == leaf.sums;
    } else {
      var before, last := steps[..|steps| - 1], steps[|steps| - 1];
      var current := Fold(H, leaf, before).value;
      AcceptedSumsAddUp(H, leaf, before, current);
      CombinedSums(H, current, last.sibling);
      CombinedSums(H, last.sibling, current);
      PlusCommutes(last.sibling.sums, current.sums);
      PlusAssociative(leaf.sums, SiblingTotal(before), last.sibling.sums);
    }
  }
}
