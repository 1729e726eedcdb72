/**
 Soundness of inclusion proofs against a built tree's root: whatever path a claimant supplies,
 too long, too short or crossing promoted nodes, acceptance means the honest path of a committed
 leaf (solvency-merkle/src/lib.rs).
 */
module TreeSoundness {
  import opened Wrappers
  import opened ByteStrings
  import opened Balances
  import opened Leaves
  import opened Shapes
  import opened SumTrees
  import opened TreeBinding

  /** Where the hash a path folds to came from. */
  ghost function PathOrigin(H: HashFn, leaf: LeafInput, steps: seq<ProofStep>): Origin
    requires Admissible(leaf) && Fold(H, LeafNode(H, leaf), steps).Ok?
  {
    if steps == [] then
      OfLeaf(leaf)
    else
      var current := Fold(H, LeafNode(H, leaf), steps[..|steps| - 1]).value;
      var last, sums := steps[|steps| - 1], Fold(H, LeafNode(H, leaf), steps).value.sums;
      if last.siblingOnLeft then OfPair(last.sibling.hash, current.hash, sums)
      else OfPair(current.hash, last.sibling.hash, sums)
  }

  lemma PathOriginDescribes(H: HashFn, leaf: LeafInput, steps: seq<ProofStep>)
    requires Admissible(leaf) && Fold(H, LeafNode(H, leaf), steps).Ok?
    ensures Sound(PathOrigin(H, leaf, steps))
    ensures NodeOf(H, PathOrigin(H, leaf, steps)) == Fold(H, LeafNode(H, leaf), steps).value
  {
    hide Combined, PairPreimage, Plus, LeafPreimage;
    if steps != [] {
      var current := Fold(H, LeafNode(H, leaf), steps[..|steps| - 1]).value;
      CombinedSums(H, current, steps[|steps| - 1].sibling);
      CombinedSums(H, steps[|steps| - 1].sibling, current);
    }
  }

  /** Everything a verifier hashes while folding a path. */
  ghost function PathHashed(H: HashFn, leaf: LeafInput, steps: seq<ProofStep>): set<Bytes>
    requires Admissible(leaf) && Fold(H, LeafNode(H, leaf), steps).Ok?
  {
    if steps == [] then
      {LeafPreimage(H, leaf)} + if leaf.Subsidiary? then {} else {leaf.subject}
    else
      var origin := PathOrigin(H, leaf, steps);
      PathHashed(H, leaf, steps[..|steps| - 1]) + {PairPreimage(origin.left, origin.right, origin.sums)}
  }

  /** The same sibling hashes on the same sides. */
  ghost predicate SameRoute(a: seq<ProofStep>, b: seq<ProofStep>) {
    |a| == |b| && forall t :: 0 <= t < |a| ==> SameTurn(a[t], b[t])
  }

  predicate SameTurn(a: ProofStep, b: ProofStep) {
    a.sibling.hash == b.sibling.hash && a.siblingOnLeft == b.siblingOnLeft
  }

  /** The same siblings on the same sides, with sums equal up to explicit zeros. */
  ghost predicate SameSteps(a: seq<ProofStep>, b: seq<ProofStep>) {
    |a| == |b| && forall t :: 0 <= t < |a| ==> SameStep(a[t], b[t])
  }

  predicate SameStep(a: ProofStep, b: ProofStep) {
    && a.sibling.hash == b.sibling.hash
    && a.siblingOnLeft == b.siblingOnLeft
    && SameAmounts(a.sibling.sums, b.sibling.sums)
  }

  /** The same route with the same amounts; and with the very same sums it is the same path. */
  lemma SameStepsExactly(a: seq<ProofStep>, b: seq<ProofStep>)
    ensures SameSteps(a, b) <==>
      && SameRoute(a, b)
      && forall t, asset :: 0 <= t < |a| ==> At(a[t].sibling.sums, asset) == At(b[t].sibling.sums, asset)
    ensures a == b <==> SameRoute(a, b) && forall t :: 0 <= t < |a| ==> a[t].sibling.sums == b[t].sibling.sums
  {
    if SameSteps(a, b) {
      forall t, asset | 0 <= t < |a| ensures At(a[t].sibling.sums, asset) == At(b[t].sibling.sums, asset) {
        assert SameStep(a[t], b[t]);
        SameAmountsAt(a[t].sibling.sums, b[t].sibling.sums, asset);
      }
    }
    if SameRoute(a, b) && forall t :: 0 <= t < |a| ==> a[t].sibling.sums == b[t].sibling.sums {
      forall t | 0 <= t < |a| ensures a[t] == b[t] {
        assert SameTurn(a[t], b[t]);
      }
    }
  }

  lemma SameAddend(x: Totals, a: Totals, b: Totals)
    requires Plus(x, a) == Plus(x, b)
    ensures SameAmounts(a, b)
  {
    hide Plus;
    forall k | k in a.Keys + b.Keys ensures At(a, k) == At(b, k) {
      PlusAt(x, a, k);
      PlusAt(x, b, k);
    }
  }

  lemma ApplySums(H: HashFn, current: Node, step: ProofStep)
    requires Apply(H, current, step).Ok?
    ensures Apply(H, current, step).value.sums == Plus(current.sums, step.sibling.sums)
  {
    hide Combined, Plus;
    CombinedSums(H, current, step.sibling);
    CombinedSums(H, step.sibling, current);
    PlusCommutes(current.sums, step.sibling.sums);
  }

  // ----- `|`-free paths

  ghost predicate PipeFreeSteps(steps: seq<ProofStep>) {
    forall t :: 0 <= t < |steps| ==> PipeFree(steps[t].sibling.sums)
  }

  /** A fold keeps every name, so it is `|`-free exactly when all that went into it is. */
  lemma {:induction false} FoldPipeFree(H: HashFn, leaf: Node, steps: seq<ProofStep>)
    requires Fold(H, leaf, steps).Ok?
    ensures PipeFree(Fold(H, leaf, steps).value.sums) <==> PipeFree(leaf.sums) && PipeFreeSteps(steps)
  {
    hide Apply, PipeFree, Plus;
    if steps != [] {
      var before, last := steps[..|steps| - 1], steps[|steps| - 1];
      FoldPipeFree(H, leaf, before);
      ApplySums(H, Fold(H, leaf, before).value, last);
      PipeFreePlus(Fold(H, leaf, before).value.sums, last.sibling.sums);
      assert forall t :: 0 <= t < |before| ==> before[t] == steps[t];
    }
  }

  // ----- a path that reaches a node's hash

  /** A path whose fold has the hash of a tree node, with nothing hashed on the way colliding. */
  ghost predicate Reaches(
    H: HashFn, S: set<Bytes>, inputs: seq<LeafInput>, levels: seq<seq<Node>>,
    leaf: LeafInput, steps: seq<ProofStep>, k: nat, j: nat)
  {
    && TreeOver(H, inputs, levels) && k < |levels| && j < |levels[k]|
    && Admissible(leaf)
    && Fold(H, LeafNode(H, leaf), steps).Ok?
    && Fold(H, LeafNode(H, leaf), steps).value.hash == levels[k][j].hash
    && TreeHashed(H, inputs, levels) + PathHashed(H, leaf, steps) <= S
    && !Collision(H, S)
  }

  /** Such a path and the node have one origin. */
  lemma PathHitsNode(
    H: HashFn, S: set<Bytes>, inputs: seq<LeafInput>, levels: seq<seq<Node>>,
    leaf: LeafInput, steps: seq<ProofStep>, k: nat, j: nat)
    requires Reaches(H, S, inputs, levels, leaf, steps, k, j)
    ensures Shaped(inputs, levels)
    ensures Sound(PathOrigin(H, leaf, steps)) && Sound(OriginAt(inputs, levels, k, j))
    ensures SameOrigin(H, PathOrigin(H, leaf, steps), OriginAt(inputs, levels, k, j))
  {
    hide Combined, LeafPreimage, PairPreimage, LeafSums, TreeHashed, Plus;
    OriginDescribesNode(H, inputs, levels, k, j);
    PathOriginDescribes(H, leaf, steps);
    HashedInTree(H, inputs, levels, k, j);
    HashBindsOrigin(H, PathOrigin(H, leaf, steps), OriginAt(inputs, levels, k, j), S);
  }

  /** It shows the node's text of sums, and over `|`-free names it folds to the node itself. */
  lemma PathHitsSums(
    H: HashFn, S: set<Bytes>, inputs: seq<LeafInput>, levels: seq<seq<Node>>,
    leaf: LeafInput, steps: seq<ProofStep>, k: nat, j: nat)
    requires Reaches(H, S, inputs, levels, leaf, steps, k, j)
    ensures Canonical(Fold(H, LeafNode(H, leaf), steps).value.sums) == Canonical(levels[k][j].sums)
    ensures Commits(H, inputs, levels) && PipeFree(Fold(H, LeafNode(H, leaf), steps).value.sums) ==>
      Fold(H, LeafNode(H, leaf), steps).value == levels[k][j]
  {
    hide Canonical, PipeFree, TreeHashed, PathHashed, SameOrigin, Fold, Commits, NodeOf, PathOrigin, OriginAt;
    PathHitsNode(H, S, inputs, levels, leaf, steps, k, j);
    OriginDescribesNode(H, inputs, levels, k, j);
    PathOriginDescribes(H, leaf, steps);
    SameOriginText(H, PathOrigin(H, leaf, steps), OriginAt(inputs, levels, k, j));
    if Commits(H, inputs, levels) {
      NodesPipeFree(H, inputs, levels, k, j);
    }
  }

  /** A path that reaches a leaf is empty, and the leaf reads as the claimant's. */
  lemma PathAtLeaf(
    H: HashFn, S: set<Bytes>, inputs: seq<LeafInput>, levels: seq<seq<Node>>,
    leaf: LeafInput, steps: seq<ProofStep>, j: nat)
    requires Reaches(H, S, inputs, levels, leaf, steps, 0, j)
    ensures steps == []
    ensures j < |inputs| && SameReading(leaf, inputs[j])
  {
    hide Combined, LeafPreimage, PairPreimage, LeafSums, TreeHashed, Plus, Fold, NodeOf, ReadsAlike;
    PathHitsNode(H, S, inputs, levels, leaf, steps, 0, j);
    HashedInTree(H, inputs, levels, 0, j);
  }

  ghost function Child(step: ProofStep, j: nat): nat {
    if step.siblingOnLeft then 2 * j + 1 else 2 * j
  }

  lemma FoldLast(H: HashFn, leaf: LeafInput, steps: seq<ProofStep>)
    requires Admissible(leaf) && Fold(H, LeafNode(H, leaf), steps).Ok? && steps != []
    ensures Fold(H, LeafNode(H, leaf), steps[..|steps| - 1]).Ok?
    ensures Fold(H, LeafNode(H, leaf), steps)
         == Apply(H, Fold(H, LeafNode(H, leaf), steps[..|steps| - 1]).value, steps[|steps| - 1])
    ensures PathHashed(H, leaf, steps[..|steps| - 1]) <= PathHashed(H, leaf, steps)
  {
    hide Apply, LeafNode, PairPreimage, LeafPreimage;
  }

  /** A path that reaches a combined pair came through one of its children. */
  lemma PathEntersChild(
    H: HashFn, S: set<Bytes>, inputs: seq<LeafInput>, levels: seq<seq<Node>>,
    leaf: LeafInput, steps: seq<ProofStep>, k: nat, j: nat)
    requires Reaches(H, S, inputs, levels, leaf, steps, k, j)
    requires k > 0 && !Promoted(levels, k, j)
    ensures steps != []
    ensures
      var before, last := steps[..|steps| - 1], steps[|steps| - 1];
      var child := Child(last, j);
      && Reaches(H, S, inputs, levels, leaf, before, k - 1, child)
      && Partner(child) < |levels[k - 1]|
      && last.sibling.hash == levels[k - 1][Partner(child)].hash
  {
    hide Combined, LeafPreimage, PairPreimage, LeafSums, TreeHashed, PathHashed, NodeOf, Apply, Fold, Canonical,
      Collision, Paired, Admissible;
    TreeShaped(H, inputs, levels);
    PathHitsNode(H, S, inputs, levels, leaf, steps, k, j);
    FoldLast(H, leaf, steps);
  }

  /** And the sibling supplied holds what the real one does. */
  lemma SiblingHoldsItsSums(
    H: HashFn, levels: seq<seq<Node>>, current: Node, step: ProofStep, k: nat, j: nat)
    requires IsTree(H, levels) && 0 < k < |levels| && j < |levels[k]| && !Promoted(levels, k, j)
    requires Apply(H, current, step) == Ok(levels[k][j])
    requires Child(step, j) < |levels[k - 1]| && current == levels[k - 1][Child(step, j)]
    ensures Partner(Child(step, j)) < |levels[k - 1]|
    ensures SameAmounts(step.sibling.sums, levels[k - 1][Partner(Child(step, j))].sums)
  {
    hide Combined, Plus, SameAmounts, IsTree, Apply;
    var l, r := levels[k - 1][2 * j], levels[k - 1][2 * j + 1];
    PairAddsUp(H, levels, k, j);
    PlusCommutes(l.sums, r.sums);
    ApplySums(H, current, step);
    SameAddend(current.sums, step.sibling.sums, levels[k - 1][Partner(Child(step, j))].sums);
  }

  /** A combined node carries what its two children do. */
  lemma PairAddsUp(H: HashFn, levels: seq<seq<Node>>, k: nat, j: nat)
    requires IsTree(H, levels) && 0 < k < |levels| && j < |levels[k]| && 2 * j + 1 < |levels[k - 1]|
    ensures levels[k][j].sums == Plus(levels[k - 1][2 * j].sums, levels[k - 1][2 * j + 1].sums)
  {
    hide Combined, Plus;
    assert Paired(H, levels[k - 1], levels[k]);
    assert Parent(H, levels[k - 1], j) == Ok(levels[k][j]);
    CombinedSums(H, levels[k - 1][2 * j], levels[k - 1][2 * j + 1]);
  }

  /** The last step taken over `|`-free names: both children and the pair are the tree's own. */
  lemma LastStepExact(
    H: HashFn, S: set<Bytes>, inputs: seq<LeafInput>, levels: seq<seq<Node>>,
    leaf: LeafInput, steps: seq<ProofStep>, k: nat, j: nat)
    requires Reaches(H, S, inputs, levels, leaf, steps, k, j)
    requires k > 0 && !Promoted(levels, k, j) && steps != []
    requires Reaches(H, S, inputs, levels, leaf, steps[..|steps| - 1], k - 1, Child(steps[|steps| - 1], j))
    requires Commits(H, inputs, levels) && PipeFree(Fold(H, LeafNode(H, leaf), steps).value.sums)
    ensures PipeFree(Fold(H, LeafNode(H, leaf), steps[..|steps| - 1]).value.sums)
    ensures Partner(Child(steps[|steps| - 1], j)) < |levels[k - 1]|
    ensures SameAmounts(steps[|steps| - 1].sibling.sums, levels[k - 1][Partner(Child(steps[|steps| - 1], j))].sums)
  {
    hide Commits, TreeHashed, PathHashed, Fold, Apply, PipeFree, Canonical, SameAmounts, Plus;
    var before, last := steps[..|steps| - 1], steps[|steps| - 1];
    FoldLast(H, leaf, steps);
    ApplySums(H, Fold(H, LeafNode(H, leaf), before).value, last);
    PipeFreePlus(Fold(H, LeafNode(H, leaf), before).value.sums, last.sibling.sums);
    PathHitsSums(H, S, inputs, levels, leaf, steps, k, j);
    PathHitsSums(H, S, inputs, levels, leaf, before, k - 1, Child(last, j));
    SiblingHoldsItsSums(H, levels, levels[k - 1][Child(last, j)], last, k, j);
  }

  /** A path up to level `k` is leaf `i`'s own: by its hashes, and over `|`-free names in full. */
  ghost predicate LeadsTo(
    H: HashFn, inputs: seq<LeafInput>, levels: seq<seq<Node>>,
    leaf: LeafInput, steps: seq<ProofStep>, k: nat, i: nat)
  {
    && i < |inputs| && SameReading(leaf, inputs[i])
    && k <= |levels| && SameRoute(steps, PathTo(levels, i, k))
    && Admissible(leaf) && Fold(H, LeafNode(H, leaf), steps).Ok?
    && (Commits(H, inputs, levels) && PipeFree(Fold(H, LeafNode(H, leaf), steps).value.sums) ==>
          SameSteps(steps, PathTo(levels, i, k)))
  }

  lemma LeadsFromChild(
    H: HashFn, S: set<Bytes>, inputs: seq<LeafInput>, levels: seq<seq<Node>>,
    leaf: LeafInput, steps: seq<ProofStep>, k: nat, j: nat, i: nat)
    requires Reaches(H, S, inputs, levels, leaf, steps, k, j)
    requires k > 0 && !Promoted(levels, k, j)
    requires steps != [] && Above(i, k - 1) == Child(steps[|steps| - 1], j)
    requires LeadsTo(H, inputs, levels, leaf, steps[..|steps| - 1], k - 1, i)
    ensures LeadsTo(H, inputs, levels, leaf, steps, k, i) && Above(i, k) == j
  {
    hide SameReading, TreeHashed, PathHashed, SameAmounts, Combined, Paired, Collision, LeafNode, PipeFree,
      SameSteps, SameRoute, Partner, PathTo, Fold, Commits, TreeOver, Admissible;
    var before, last := steps[..|steps| - 1], steps[|steps| - 1];
    var child := Child(last, j);
    PathEntersChild(H, S, inputs, levels, leaf, steps, k, j);
    PathStep(levels, i, k, child);
    ChildSide(last, j);
    var own := ProofStep(levels[k - 1][Partner(child)], Partner(child) < child);
    SameRouteExtend(steps, PathTo(levels, i, k - 1), own);
    if Commits(H, inputs, levels) && PipeFree(Fold(H, LeafNode(H, leaf), steps).value.sums) {
      LastStepExact(H, S, inputs, levels, leaf, steps, k, j);
      SameStepsExtend(steps, PathTo(levels, i, k - 1), own);
    }
  }

  lemma LeadsFromPromoted(
    H: HashFn, inputs: seq<LeafInput>, levels: seq<seq<Node>>,
    leaf: LeafInput, steps: seq<ProofStep>, k: nat, j: nat, i: nat)
    requires 0 < k < |levels| && Promoted(levels, k, j) && Above(i, k - 1) == 2 * j
    requires LeadsTo(H, inputs, levels, leaf, steps, k - 1, i)
    ensures LeadsTo(H, inputs, levels, leaf, steps, k, i) && Above(i, k) == j
  {
    hide SameReading, LeafNode, PipeFree, SameSteps, SameRoute, PathTo, Fold, Commits, Admissible;
    PathStep(levels, i, k, 2 * j);
  }

  /**
   Whatever path reaches a node's hash ends at one leaf under it, by the sibling hashes of that
   leaf's own path; and over `|`-free names by the siblings themselves.
   */
  lemma {:induction false} PathDescends(
    H: HashFn, S: set<Bytes>, inputs: seq<LeafInput>, levels: seq<seq<Node>>,
    leaf: LeafInput, steps: seq<ProofStep>, k: nat, j: nat) returns (i: nat)
    requires Reaches(H, S, inputs, levels, leaf, steps, k, j)
    ensures Above(i, k) == j && LeadsTo(H, inputs, levels, leaf, steps, k, i)
  {
    hide LeadsTo, TreeHashed, PathHashed, Collision, Fold, TreeOver, Admissible, LeafNode, Partner;
    if k == 0 {
      i := j;
      LeadsFromLeaf(H, S, inputs, levels, leaf, steps, j);
    } else if Promoted(levels, k, j) {
      PromotedIsChild(H, inputs, levels, k, j);
      i := PathDescends(H, S, inputs, levels, leaf, steps, k - 1, 2 * j);
      LeadsFromPromoted(H, inputs, levels, leaf, steps, k, j, i);
    } else {
      PathEntersChild(H, S, inputs, levels, leaf, steps, k, j);
      i := PathDescends(H, S, inputs, levels, leaf, steps[..|steps| - 1], k - 1, Child(steps[|steps| - 1], j));
      LeadsFromChild(H, S, inputs, levels, leaf, steps, k, j, i);
    }
  }

  lemma LeadsFromLeaf(
    H: HashFn, S: set<Bytes>, inputs: seq<LeafInput>, levels: seq<seq<Node>>,
    leaf: LeafInput, steps: seq<ProofStep>, j: nat)
    requires Reaches(H, S, inputs, levels, leaf, steps, 0, j)
    ensures LeadsTo(H, inputs, levels, leaf, steps, 0, j)
  {
    hide SameReading, TreeHashed, PathHashed, Collision, LeafNode, PipeFree, SameSteps, SameRoute, PathTo, Fold,
      Commits, TreeOver, Admissible;
    PathAtLeaf(H, S, inputs, levels, leaf, steps, j);
    NoSteps(levels, j);
  }

  lemma ChildSide(step: ProofStep, j: nat)
    ensures Partner(Child(step, j)) < Child(step, j) <==> step.siblingOnLeft
    ensures Child(step, j) / 2 == j
  {
  }

  lemma NoSteps(levels: seq<seq<Node>>, i: nat)
    ensures SameSteps([], PathTo(levels, i, 0)) && SameRoute([], PathTo(levels, i, 0))
  {
  }

  lemma SameStepsExtend(steps: seq<ProofStep>, path: seq<ProofStep>, step: ProofStep)
    requires steps != [] && SameSteps(steps[..|steps| - 1], path) && SameStep(steps[|steps| - 1], step)
    ensures SameSteps(steps, path + [step])
  {
    hide SameStep;
    var before := steps[..|steps| - 1];
    assert forall t :: 0 <= t < |before| ==> SameStep(before[t], path[t]);
  }

  lemma SameRouteExtend(steps: seq<ProofStep>, path: seq<ProofStep>, step: ProofStep)
    requires steps != [] && SameRoute(steps[..|steps| - 1], path) && SameTurn(steps[|steps| - 1], step)
    ensures SameRoute(steps, path + [step])
  {
    hide SameTurn;
    var before := steps[..|steps| - 1];
    assert forall t :: 0 <= t < |before| ==> SameTurn(before[t], path[t]);
  }

  lemma PathStep(levels: seq<seq<Node>>, i: nat, k: nat, child: nat)
    requires 0 < k < |levels| && Above(i, k - 1) == child
    ensures Above(i, k) == child / 2
    ensures PathTo(levels, i, k) ==
      if Partner(child) < |levels[k - 1]| then
        PathTo(levels, i, k - 1) + [ProofStep(levels[k - 1][Partner(child)], Partner(child) < child)]
      else PathTo(levels, i, k - 1)
  {
  }

  /**
   A path that folds to the root hash of a built tree is for a committed leaf: some entry `i` has the
   claimant's kind, subject, salt and text of amounts, and the sibling hashes are those of
   `prove(i)`. Nothing is asked of the names in the leaf, the path or the tree.
   */
  lemma RootHashSound(
    H: HashFn, inputs: seq<LeafInput>, levels: seq<seq<Node>>, leaf: LeafInput, steps: seq<ProofStep>)
    requires TreeOver(H, inputs, levels) && Admissible(leaf)
    requires Fold(H, LeafNode(H, leaf), steps).Ok?
    requires Fold(H, LeafNode(H, leaf), steps).value.hash == Root(levels).hash
    ensures
      || Collision(H, TreeHashed(H, inputs, levels) + PathHashed(H, leaf, steps))
      || exists i :: 0 <= i < |inputs| && SameReading(leaf, inputs[i])
                     && SameRoute(steps, PathTo(levels, i, |levels| - 1))
  {
    hide SameReading, TreeHashed, PathHashed, Fold, Paired, SameRoute, SameSteps, PathTo, Collision, Commits;
    var S := TreeHashed(H, inputs, levels) + PathHashed(H, leaf, steps);
    if !Collision(H, S) {
      var i := PathDescends(H, S, inputs, levels, leaf, steps, |levels| - 1, 0);
    }
  }

  /**
   A path with the root's hash need not have the root's sums. It has both exactly when every name in
   the leaf and in the siblings is `|`-free.
   */
  lemma RootReachedExactly(
    H: HashFn, inputs: seq<LeafInput>, levels: seq<seq<Node>>, leaf: LeafInput, steps: seq<ProofStep>)
    requires Commits(H, inputs, levels) && Admissible(leaf)
    requires Fold(H, LeafNode(H, leaf), steps).Ok?
    requires Fold(H, LeafNode(H, leaf), steps).value.hash == Root(levels).hash
    ensures
      || Collision(H, TreeHashed(H, inputs, levels) + PathHashed(H, leaf, steps))
      || (Fold(H, LeafNode(H, leaf), steps) == Ok(Root(levels)) <==> Unambiguous(leaf) && PipeFreeSteps(steps))
  {
    hide TreeHashed, PathHashed, Fold, Paired, Collision, PipeFree, Canonical, LeafSums;
    var S := TreeHashed(H, inputs, levels) + PathHashed(H, leaf, steps);
    FoldPipeFree(H, LeafNode(H, leaf), steps);
    NodesPipeFree(H, inputs, levels, |levels| - 1, 0);
    if !Collision(H, S) {
      PathHitsSums(H, S, inputs, levels, leaf, steps, |levels| - 1, 0);
    }
  }

  /**
   A proof accepted against the root of a built tree shows a committed leaf: some entry `i` is the
   claimant's own, subject, salt and amounts, and the path is the one `prove(i)` gives, step for
   step, with sums equal up to explicit zeros.
   */
  lemma InclusionSound(
    H: HashFn, inputs: seq<LeafInput>, levels: seq<seq<Node>>, leaf: LeafInput, steps: seq<ProofStep>)
    requires Commits(H, inputs, levels) && Admissible(leaf)
    requires Fold(H, LeafNode(H, leaf), steps) == Ok(Root(levels))
    ensures
      || Collision(H, TreeHashed(H, inputs, levels) + PathHashed(H, leaf, steps))
      || exists i :: 0 <= i < |inputs| && SameEntry(leaf, inputs[i])
                     && SameSteps(steps, PathTo(levels, i, |levels| - 1))
  {
    hide SameReading, SameEntry, TreeHashed, PathHashed, Fold, IsTree, SameRoute, SameSteps, PathTo, Collision,
      PipeFree, LeafSums, Admissible, LeafPreimage, LeadsTo, LeafNode, Reaches, Unambiguous;
    var S := TreeHashed(H, inputs, levels) + PathHashed(H, leaf, steps);
    RootPipeFree(H, inputs, levels);
    LeafOfPipeFree(H, leaf, steps);
    if !Collision(H, S) {
      ReachesTop(H, S, inputs, levels, leaf, steps);
      var i := PathDescends(H, S, inputs, levels, leaf, steps, |levels| - 1, 0);
      EntryOfRoute(H, inputs, levels, leaf, steps, i);
    }
  }

  lemma ReachesTop(
    H: HashFn, S: set<Bytes>, inputs: seq<LeafInput>, levels: seq<seq<Node>>, leaf: LeafInput, steps: seq<ProofStep>)
    requires TreeOver(H, inputs, levels) && Admissible(leaf) && |levels| > 0 && |levels[|levels| - 1]| == 1
    requires Fold(H, LeafNode(H, leaf), steps) == Ok(Root(levels))
    requires S == TreeHashed(H, inputs, levels) + PathHashed(H, leaf, steps) && !Collision(H, S)
    ensures Reaches(H, S, inputs, levels, leaf, steps, |levels| - 1, 0)
  {
    hide TreeHashed, PathHashed, Fold, TreeOver, Collision, LeafNode, Admissible;
  }

  /** What folds to `|`-free sums is an unambiguous leaf. */
  lemma LeafOfPipeFree(H: HashFn, leaf: LeafInput, steps: seq<ProofStep>)
    requires Admissible(leaf) && Fold(H, LeafNode(H, leaf), steps).Ok?
    requires PipeFree(Fold(H, LeafNode(H, leaf), steps).value.sums)
    ensures Unambiguous(leaf)
  {
    hide Fold, PipeFree, LeafSums, Admissible, LeafPreimage;
    FoldPipeFree(H, LeafNode(H, leaf), steps);
  }

  lemma EntryOfRoute(
    H: HashFn, inputs: seq<LeafInput>, levels: seq<seq<Node>>, leaf: LeafInput, steps: seq<ProofStep>, i: nat)
    requires Commits(H, inputs, levels) && Unambiguous(leaf) && |levels| > 0
    requires LeadsTo(H, inputs, levels, leaf, steps, |levels| - 1, i)
    requires PipeFree(Fold(H, LeafNode(H, leaf), steps).value.sums)
    ensures i < |inputs| && SameEntry(leaf, inputs[i]) && SameSteps(steps, PathTo(levels, i, |levels| - 1))
  {
    hide SameReading, SameEntry, TreeOver, SameSteps, PathTo, SameRoute, PipeFree, LeafSums, Fold, LeafNode, Admissible;
    UnambiguousReading(leaf, inputs[i]);
  }

  lemma RootPipeFree(H: HashFn, inputs: seq<LeafInput>, levels: seq<seq<Node>>)
    requires Commits(H, inputs, levels)
    ensures |levels| > 0 && |levels[|levels| - 1]| == 1 && PipeFree(Root(levels).sums)
  {
    NodesPipeFree(H, inputs, levels, |levels| - 1, 0);
  }
}
