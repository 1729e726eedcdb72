/**
 What a root of a built tree binds: an accepted proof is the honest proof of a committed leaf,
 and a root hash fixes the whole sequence of leaves. Each result holds unless two distinct
 strings among those the tree and the verifier actually hashed collide; the collision is claimed
 among exactly those strings, since among all strings one always exists.
 (solvency-merkle/src/lib.rs, solvency-cli/src/recompute.rs)
 */
module TreeBinding {
  import opened Wrappers
  import opened ByteStrings
  import opened Balances
  import opened Domains
  import opened Leaves
  import opened Shapes
  import opened SumTrees

  /** Where a node's hash came from. */
  datatype Origin =
    | OfLeaf(input: LeafInput)
    | OfPair(left: Digest, right: Digest, sums: Sums)

  predicate Sound(o: Origin) {
    o.OfLeaf? ==> Admissible(o.input)
  }

  function Preimage(H: HashFn, o: Origin): Bytes
    requires Sound(o)
  {
    match o
    case OfLeaf(input) => LeafPreimage(H, input)
    case OfPair(l, r, sums) => PairPreimage(l, r, sums)
  }

  function NodeOf(H: HashFn, o: Origin): Node
    requires Sound(o)
  {
    match o
    case OfLeaf(input) => LeafNode(H, input)
    case OfPair(l, r, sums) => Node(H(PairPreimage(l, r, sums)), sums)
  }

  /** A pair preimage fixes both child hashes, and the sums as far as their joined text shows them. */
  lemma PairPreimageReads(l: Digest, r: Digest, s: Sums, l': Digest, r': Digest, s': Sums)
    requires PairPreimage(l, r, s) == PairPreimage(l', r', s')
    ensures l == l' && r == r' && Canonical(s) == Canonical(s')
  {
    hide Canonical, DomainBytes;
    DomainsSeparate(Pair, l + (r + Canonical(s)), Pair, l' + (r' + Canonical(s')));
    SplitAt(l, r + Canonical(s), l', r' + Canonical(s'));
    SplitAt(r, Canonical(s), r', Canonical(s'));
  }

  lemma LeafIsNotPair(H: HashFn, input: LeafInput, l: Digest, r: Digest, sums: Sums)
    requires Admissible(input)
    ensures LeafPreimage(H, input) != PairPreimage(l, r, sums)
  {
    hide Canonical, DomainBytes, LeafTail;
    if LeafPreimage(H, input) == PairPreimage(l, r, sums) {
      DomainsSeparate(LeafDomain(input), LeafTail(H, input), Pair, l + (r + Canonical(sums)));
    }
  }

  /** What two nodes of one hash share: the kind, and what the hashed bytes say. */
  ghost predicate SameOrigin(H: HashFn, o: Origin, p: Origin) {
    match (o, p)
    case (OfLeaf(a), OfLeaf(b)) => ReadsAlike(a, b) && SameHashedSubject(H, a, b)
    case (OfPair(l, r, s), OfPair(l', r', s')) => l == l' && r == r' && Canonical(s) == Canonical(s')
    case _ => false
  }

  lemma PreimageInjective(H: HashFn, o: Origin, p: Origin)
    requires Sound(o) && Sound(p) && Preimage(H, o) == Preimage(H, p)
    ensures SameOrigin(H, o, p)
  {
    hide LeafPreimage, PairPreimage, Canonical, ReadsAlike, SameHashedSubject;
    match (o, p)
    case (OfLeaf(a), OfLeaf(b)) => LeafPreimageReads(H, a, b);
    case (OfPair(l, r, s), OfPair(l', r', s')) => PairPreimageReads(l, r, s, l', r', s');
    case (OfLeaf(a), OfPair(l, r, s)) => LeafIsNotPair(H, a, l, r, s);
    case (OfPair(l, r, s), OfLeaf(b)) => LeafIsNotPair(H, b, l, r, s);
  }

  lemma HashBindsOrigin(H: HashFn, o: Origin, p: Origin, S: set<Bytes>)
    requires Sound(o) && Sound(p) && Preimage(H, o) in S && Preimage(H, p) in S
    requires NodeOf(H, o).hash == NodeOf(H, p).hash
    ensures Collision(H, S) || SameOrigin(H, o, p)
  {
    hide LeafPreimage, PairPreimage, SameOrigin;
    if Preimage(H, o) == Preimage(H, p) {
      PreimageInjective(H, o, p);
    }
  }

  /** One text of sums, and over `|`-free names one map. */
  lemma SameOriginText(H: HashFn, o: Origin, p: Origin)
    requires Sound(o) && Sound(p) && SameOrigin(H, o, p)
    ensures Canonical(NodeOf(H, o).sums) == Canonical(NodeOf(H, p).sums)
    ensures PipeFree(NodeOf(H, o).sums) && PipeFree(NodeOf(H, p).sums) ==> NodeOf(H, o).sums == NodeOf(H, p).sums
  {
    hide Canonical, LeafSums, PipeFree, ReadsAlike, LeafPreimage;
    if o.OfLeaf? {
      ReadAlikeText(o.input, p.input);
    }
    if PipeFree(NodeOf(H, o).sums) && PipeFree(NodeOf(H, p).sums) {
      CanonicalInjective(NodeOf(H, o).sums, NodeOf(H, p).sums);
    }
  }

  // ----- a committed tree

  /** A tree built from leaves whose inputs are known. */
  ghost predicate TreeOver(H: HashFn, inputs: seq<LeafInput>, levels: seq<seq<Node>>) {
    && IsTree(H, levels)
    && |inputs| == |levels[0]|
    && forall i :: 0 <= i < |inputs| ==> Admissible(inputs[i]) && levels[0][i] == LeafNode(H, inputs[i])
  }

  /** And whose names cannot be confused. */
  ghost predicate Commits(H: HashFn, inputs: seq<LeafInput>, levels: seq<seq<Node>>) {
    TreeOver(H, inputs, levels) && forall i :: 0 <= i < |inputs| ==> Unambiguous(inputs[i])
  }

  ghost predicate Shaped(inputs: seq<LeafInput>, levels: seq<seq<Node>>) {
    && |levels| > 0 && |inputs| == |levels[0]| > 0
    && forall l :: 0 <= l < |levels| ==> |levels[l]| == LevelSize(|inputs|, l)
  }

  lemma TreeShaped(H: HashFn, inputs: seq<LeafInput>, levels: seq<seq<Node>>)
    requires TreeOver(H, inputs, levels)
    ensures Shaped(inputs, levels)
  {
    TreeClimbs(H, levels);
  }

  ghost function OriginAt(inputs: seq<LeafInput>, levels: seq<seq<Node>>, k: nat, j: nat): Origin
    requires Shaped(inputs, levels)
    requires k < |levels| && j < |levels[k]|
  {
    if k == 0 then OfLeaf(inputs[j])
    else if 2 * j + 1 < |levels[k - 1]| then
      OfPair(levels[k - 1][2 * j].hash, levels[k - 1][2 * j + 1].hash, levels[k][j].sums)
    else OriginAt(inputs, levels, k - 1, 2 * j)
  }

  lemma {:induction false} OriginDescribesNode(
    H: HashFn, inputs: seq<LeafInput>, levels: seq<seq<Node>>, k: nat, j: nat)
    requires TreeOver(H, inputs, levels) && k < |levels| && j < |levels[k]|
    ensures Shaped(inputs, levels)
    ensures Sound(OriginAt(inputs, levels, k, j))
    ensures NodeOf(H, OriginAt(inputs, levels, k, j)) == levels[k][j]
  {
    hide Combined, LeafPreimage, PairPreimage, LeafSums, Plus;
    TreeShaped(H, inputs, levels);
    if k > 0 {
      assert Paired(H, levels[k - 1], levels[k]);
      assert Parent(H, levels[k - 1], j) == Ok(levels[k][j]);
      OriginDescribesNode(H, inputs, levels, k - 1, 2 * j);
      if 2 * j + 1 < |levels[k - 1]| {
        CombinedSums(H, levels[k - 1][2 * j], levels[k - 1][2 * j + 1]);
      }
    }
  }

  lemma PipeFreePlus(l: Totals, r: Totals)
    ensures PipeFree(Plus(l, r)) <==> PipeFree(l) && PipeFree(r)
  {
    assert forall a :: a in l || a in r ==> a in Plus(l, r);
  }

  lemma {:induction false} NodesPipeFree(
    H: HashFn, inputs: seq<LeafInput>, levels: seq<seq<Node>>, k: nat, j: nat)
    requires Commits(H, inputs, levels) && k < |levels| && j < |levels[k]|
    ensures PipeFree(levels[k][j].sums)
  {
    hide Combined, LeafPreimage, LeafSums, Plus, PipeFree;
    TreeShaped(H, inputs, levels);
    if k > 0 {
      assert Paired(H, levels[k - 1], levels[k]);
      assert Parent(H, levels[k - 1], j) == Ok(levels[k][j]);
      NodesPipeFree(H, inputs, levels, k - 1, 2 * j);
      if 2 * j + 1 < |levels[k - 1]| {
        NodesPipeFree(H, inputs, levels, k - 1, 2 * j + 1);
        CombinedSums(H, levels[k - 1][2 * j], levels[k - 1][2 * j + 1]);
        PipeFreePlus(levels[k - 1][2 * j].sums, levels[k - 1][2 * j + 1].sums);
      }
    }
  }

  /** Everything hashed to build the tree: node preimages and subjects. */
  ghost function TreeHashed(H: HashFn, inputs: seq<LeafInput>, levels: seq<seq<Node>>): set<Bytes>
    requires TreeOver(H, inputs, levels)
  {
    (set k, j | 0 <= k < |levels| && 0 <= j < |levels[k]| :: HashedAt(H, inputs, levels, k, j))
    + (set i | 0 <= i < |inputs| && !inputs[i].Subsidiary? :: inputs[i].subject)
  }

  ghost function HashedAt(H: HashFn, inputs: seq<LeafInput>, levels: seq<seq<Node>>, k: nat, j: nat): Bytes
    requires TreeOver(H, inputs, levels) && k < |levels| && j < |levels[k]|
  {
    OriginDescribesNode(H, inputs, levels, k, j);
    Preimage(H, OriginAt(inputs, levels, k, j))
  }

  /** The same subject, salt and text of amounts. */
  predicate SameReading(a: LeafInput, b: LeafInput) {
    ReadsAlike(a, b) && (!a.Subsidiary? && !b.Subsidiary? ==> a.subject == b.subject)
  }

  /** The same subject, salt and amounts: one customer's entry, or one entity's. */
  predicate SameEntry(a: LeafInput, b: LeafInput) {
    Admissible(a) && Admissible(b) && SameReading(a, b) && LeafSums(a) == LeafSums(b)
  }

  lemma UnambiguousReading(a: LeafInput, b: LeafInput)
    requires Unambiguous(a) && Unambiguous(b) && SameReading(a, b)
    ensures SameEntry(a, b)
  {
    hide LeafSums, ReadsAlike, PipeFree;
    ReadAlikeText(a, b);
  }

  // ----- root binding

  /** Runs of leaves that read the same, one for one. */
  ghost predicate SameReadings(a: seq<LeafInput>, b: seq<LeafInput>) {
    |a| == |b| && forall i :: 0 <= i < |a| ==> SameReading(a[i], b[i])
  }

  /** Runs of leaves with equal entries, one for one. */
  ghost predicate SameEntries(a: seq<LeafInput>, b: seq<LeafInput>) {
    |a| == |b| && forall i :: 0 <= i < |a| ==> SameEntry(a[i], b[i])
  }

  lemma SameReadingsConcat(a: seq<LeafInput>, b: seq<LeafInput>, c: seq<LeafInput>, d: seq<LeafInput>)
    requires SameReadings(a, c) && SameReadings(b, d)
    ensures SameReadings(a + b, c + d)
  {
    hide SameReading;
  }

  /** The leaves a node stands over. */
  ghost function Under(inputs: seq<LeafInput>, levels: seq<seq<Node>>, k: nat, j: nat): seq<LeafInput>
    requires Shaped(inputs, levels)
    requires k < |levels| && j < |levels[k]|
  {
    if k == 0 then [inputs[j]]
    else if 2 * j + 1 < |levels[k - 1]| then
      Under(inputs, levels, k - 1, 2 * j) + Under(inputs, levels, k - 1, 2 * j + 1)
    else Under(inputs, levels, k - 1, 2 * j)
  }

  lemma Adjoin(s: seq<LeafInput>, lo: nat, mid: nat, hi: nat)
    requires lo <= mid <= hi <= |s|
    ensures s[lo..hi] == s[lo..mid] + s[mid..hi]
  {
  }

  lemma {:induction false} UnderIsRange(inputs: seq<LeafInput>, levels: seq<seq<Node>>, k: nat, j: nat)
    requires Shaped(inputs, levels)
    requires k < |levels| && j < |levels[k]|
    ensures First(k, j) < Past(k, j, |inputs|) <= |inputs|
    ensures Under(inputs, levels, k, j) == inputs[First(k, j)..Past(k, j, |inputs|)]
  {
    hide First, Past;
    var n := |inputs|;
    RangeNonEmpty(n, k, j);
    if k == 0 {
      LeafRange(n, j);
      assert inputs[j..j + 1] == [inputs[j]];
    } else {
      RangeSplits(n, k - 1, j);
      UnderIsRange(inputs, levels, k - 1, 2 * j);
      if 2 * j + 1 < |levels[k - 1]| {
        UnderIsRange(inputs, levels, k - 1, 2 * j + 1);
        Adjoin(inputs, First(k, j), First(k - 1, 2 * j + 1), Past(k, j, n));
      }
    }
  }

  ghost predicate Promoted(levels: seq<seq<Node>>, k: nat, j: nat)
    requires k < |levels|
  {
    k > 0 && 2 * j + 1 >= |levels[k - 1]|
  }

  lemma PromotedIsChild(H: HashFn, inputs: seq<LeafInput>, levels: seq<seq<Node>>, k: nat, j: nat)
    requires TreeOver(H, inputs, levels) && k < |levels| && j < |levels[k]| && Promoted(levels, k, j)
    ensures Shaped(inputs, levels)
    ensures 2 * j < |levels[k - 1]| && levels[k][j] == levels[k - 1][2 * j]
    ensures Under(inputs, levels, k, j) == Under(inputs, levels, k - 1, 2 * j)
  {
    TreeShaped(H, inputs, levels);
    assert Paired(H, levels[k - 1], levels[k]);
    assert Parent(H, levels[k - 1], j) == Ok(levels[k][j]);
  }

  lemma HashedInTree(H: HashFn, inputs: seq<LeafInput>, levels: seq<seq<Node>>, k: nat, j: nat)
    requires TreeOver(H, inputs, levels) && k < |levels| && j < |levels[k]|
    ensures HashedAt(H, inputs, levels, k, j) in TreeHashed(H, inputs, levels)
    ensures k == 0 ==> inputs[j].Subsidiary? || inputs[j].subject in TreeHashed(H, inputs, levels)
  {
    hide HashedAt;
  }

  /** Equal hashes of two unpromoted nodes: equal leaves, or pairs of equal hashes. */
  lemma EqualHashesOneStep(
    H: HashFn, S: set<Bytes>,
    in1: seq<LeafInput>, lv1: seq<seq<Node>>, k1: nat, j1: nat,
    in2: seq<LeafInput>, lv2: seq<seq<Node>>, k2: nat, j2: nat)
    requires TreeOver(H, in1, lv1) && k1 < |lv1| && j1 < |lv1[k1]| && !Promoted(lv1, k1, j1)
    requires TreeOver(H, in2, lv2) && k2 < |lv2| && j2 < |lv2[k2]| && !Promoted(lv2, k2, j2)
    requires TreeHashed(H, in1, lv1) + TreeHashed(H, in2, lv2) <= S
    requires lv1[k1][j1].hash == lv2[k2][j2].hash
    requires !Collision(H, S)
    ensures k1 == 0 <==> k2 == 0
    ensures k1 == 0 ==> SameReading(in1[j1], in2[j2])
    ensures k1 > 0 ==>
      && lv1[k1 - 1][2 * j1].hash == lv2[k2 - 1][2 * j2].hash
      && lv1[k1 - 1][2 * j1 + 1].hash == lv2[k2 - 1][2 * j2 + 1].hash
  {
    hide Combined, LeafPreimage, PairPreimage, LeafSums, PipeFree, TreeHashed;
    OriginDescribesNode(H, in1, lv1, k1, j1);
    OriginDescribesNode(H, in2, lv2, k2, j2);
    HashedInTree(H, in1, lv1, k1, j1);
    HashedInTree(H, in2, lv2, k2, j2);
    HashBindsOrigin(H, OriginAt(in1, lv1, k1, j1), OriginAt(in2, lv2, k2, j2), S);
  }

  lemma SidesJoin(
    H: HashFn, in1: seq<LeafInput>, lv1: seq<seq<Node>>, k1: nat, j1: nat,
    in2: seq<LeafInput>, lv2: seq<seq<Node>>, k2: nat, j2: nat)
    requires Shaped(in1, lv1) && 0 < k1 < |lv1| && j1 < |lv1[k1]| && 2 * j1 + 1 < |lv1[k1 - 1]|
    requires Shaped(in2, lv2) && 0 < k2 < |lv2| && j2 < |lv2[k2]| && 2 * j2 + 1 < |lv2[k2 - 1]|
    requires SameReadings(Under(in1, lv1, k1 - 1, 2 * j1), Under(in2, lv2, k2 - 1, 2 * j2))
    requires SameReadings(Under(in1, lv1, k1 - 1, 2 * j1 + 1), Under(in2, lv2, k2 - 1, 2 * j2 + 1))
    ensures SameReadings(Under(in1, lv1, k1, j1), Under(in2, lv2, k2, j2))
  {
    hide Shaped, SameReadings;
    SameReadingsConcat(Under(in1, lv1, k1 - 1, 2 * j1), Under(in1, lv1, k1 - 1, 2 * j1 + 1),
                      Under(in2, lv2, k2 - 1, 2 * j2), Under(in2, lv2, k2 - 1, 2 * j2 + 1));
  }

  lemma SameLeafEntries(
    H: HashFn, in1: seq<LeafInput>, lv1: seq<seq<Node>>, j1: nat, in2: seq<LeafInput>, lv2: seq<seq<Node>>, j2: nat)
    requires Shaped(in1, lv1) && j1 < |lv1[0]|
    requires Shaped(in2, lv2) && j2 < |lv2[0]|
    requires SameReading(in1[j1], in2[j2])
    ensures SameReadings(Under(in1, lv1, 0, j1), Under(in2, lv2, 0, j2))
  {
  }

  lemma {:induction false} EqualHashesBindLeaves(
    H: HashFn, S: set<Bytes>,
    in1: seq<LeafInput>, lv1: seq<seq<Node>>, k1: nat, j1: nat,
    in2: seq<LeafInput>, lv2: seq<seq<Node>>, k2: nat, j2: nat)
    requires TreeOver(H, in1, lv1) && k1 < |lv1| && j1 < |lv1[k1]|
    requires TreeOver(H, in2, lv2) && k2 < |lv2| && j2 < |lv2[k2]|
    requires TreeHashed(H, in1, lv1) + TreeHashed(H, in2, lv2) <= S
    requires lv1[k1][j1].hash == lv2[k2][j2].hash
    requires !Collision(H, S)
    ensures Shaped(in1, lv1) && Shaped(in2, lv2)
    ensures SameReadings(Under(in1, lv1, k1, j1), Under(in2, lv2, k2, j2))
    decreases k1 + k2
  {
    hide TreeOver, TreeHashed, SameReadings, Shaped, Under, Collision;
    TreeShaped(H, in1, lv1);
    TreeShaped(H, in2, lv2);
    if Promoted(lv1, k1, j1) {
      PromotedIsChild(H, in1, lv1, k1, j1);
      EqualHashesBindLeaves(H, S, in1, lv1, k1 - 1, 2 * j1, in2, lv2, k2, j2);
    } else if Promoted(lv2, k2, j2) {
      PromotedIsChild(H, in2, lv2, k2, j2);
      EqualHashesBindLeaves(H, S, in1, lv1, k1, j1, in2, lv2, k2 - 1, 2 * j2);
    } else {
      EqualHashesOneStep(H, S, in1, lv1, k1, j1, in2, lv2, k2, j2);
      if k1 == 0 {
        SameLeafEntries(H, in1, lv1, j1, in2, lv2, j2);
      } else {
        EqualHashesBindLeaves(H, S, in1, lv1, k1 - 1, 2 * j1, in2, lv2, k2 - 1, 2 * j2);
        EqualHashesBindLeaves(H, S, in1, lv1, k1 - 1, 2 * j1 + 1, in2, lv2, k2 - 1, 2 * j2 + 1);
        SidesJoin(H, in1, lv1, k1, j1, in2, lv2, k2, j2);
      }
    }
  }

  /**
   A root hash fixes how many leaves there are, their order, and each one's subject, salt and
   amounts as its preimage spells them.
   */
  lemma RootBindsReadings(
    H: HashFn, in1: seq<LeafInput>, lv1: seq<seq<Node>>, in2: seq<LeafInput>, lv2: seq<seq<Node>>)
    requires TreeOver(H, in1, lv1) && TreeOver(H, in2, lv2)
    requires Root(lv1).hash == Root(lv2).hash
    ensures SameReadings(in1, in2) || Collision(H, TreeHashed(H, in1, lv1) + TreeHashed(H, in2, lv2))
  {
    hide TreeHashed, SameReading;
    var S := TreeHashed(H, in1, lv1) + TreeHashed(H, in2, lv2);
    if !Collision(H, S) {
      EqualHashesBindLeaves(H, S, in1, lv1, |lv1| - 1, 0, in2, lv2, |lv2| - 1, 0);
      UnderRoot(H, in1, lv1);
      UnderRoot(H, in2, lv2);
    }
  }

  /** Over `|`-free names it fixes the whole book, amounts included. */
  lemma RootBindsLeaves(
    H: HashFn, in1: seq<LeafInput>, lv1: seq<seq<Node>>, in2: seq<LeafInput>, lv2: seq<seq<Node>>)
    requires Commits(H, in1, lv1) && Commits(H, in2, lv2)
    requires Root(lv1).hash == Root(lv2).hash
    ensures SameEntries(in1, in2) || Collision(H, TreeHashed(H, in1, lv1) + TreeHashed(H, in2, lv2))
  {
    hide TreeHashed, SameReading, TreeOver, Unambiguous, SameEntry;
    RootBindsReadings(H, in1, lv1, in2, lv2);
    if SameReadings(in1, in2) {
      forall i | 0 <= i < |in1| ensures SameEntry(in1[i], in2[i]) {
        UnambiguousReading(in1[i], in2[i]);
      }
    }
  }

  lemma UnderRoot(H: HashFn, inputs: seq<LeafInput>, levels: seq<seq<Node>>)
    requires TreeOver(H, inputs, levels)
    ensures Shaped(inputs, levels)
    ensures Under(inputs, levels, |levels| - 1, 0) == inputs
  {
    TreeShaped(H, inputs, levels);
    var n, top := |inputs|, |levels| - 1;
    UnderIsRange(inputs, levels, top, 0);
    HeightIsLog(n, top);
    assert 0 * Pow2(top) == 0 && (0 + 1) * Pow2(top) == Pow2(top);
    assert inputs[0..n] == inputs;
  }
}
