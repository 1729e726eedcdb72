/** The auditor's check: rebuild the tree from a full leaf dump and compare (solvency-cli/src/recompute.rs). */
module Recompute {
  import opened Wrappers
  import opened ByteStrings
  import opened Amounts
  import opened Balances
  import opened BalanceLists
  import opened Leaves
  import opened SumTrees
  import opened TreeBinding
  import opened Readings

  datatype RecomputeOutcome = RecomputeOutcome(
    leaves: nat, publishedRoot: Bytes, recomputedRoot: Bytes, disagreeingAssets: seq<Bytes>)

  datatype RecomputeError = EmptyDump | BadLeaf(index: nat) | Overflow

  /** `RecomputeOutcome::matches` */
  predicate Matches(o: RecomputeOutcome) {
    o.publishedRoot == o.recomputedRoot && o.disagreeingAssets == []
  }

  /** Assets on which two totals really differ, each once, in order. */
  function Disagreeing(l: Totals, r: Totals): (names: seq<Bytes>)
    ensures names == [] <==> SameAmounts(l, r)
    ensures forall k :: k in names <==> k in l.Keys + r.Keys && At(l, k) != At(r, k)
    ensures StrictlySorted(names)
  {
    var differing := set k | k in l.Keys + r.Keys && At(l, k) != At(r, k);
    assert forall k :: k in l.Keys + r.Keys && At(l, k) != At(r, k) ==> k in differing;
    assert SameAmounts(l, r) <==> differing == {} by {
      if differing != {} {
        var k :| k in differing;
      }
    }
    assert |differing| == 0 <==> differing == {};
    SortedKeys(differing)
  }

  predicate AllAdmissible(dump: seq<LeafInput>) {
    forall i :: 0 <= i < |dump| ==> Admissible(dump[i])
  }

  ghost function NodesOf(H: HashFn, dump: seq<LeafInput>): (r: seq<Node>)
    requires AllAdmissible(dump)
    ensures |r| == |dump|
  {
    seq(|dump|, i requires 0 <= i < |dump| => LeafNode(H, dump[i]))
  }

  /** `run_recompute`, from decoded leaves. */
  method RunRecompute(H: HashFn, dump: seq<LeafInput>, publishedRoot: Bytes, publishedSums: Sums)
    returns (r: Result<RecomputeOutcome, RecomputeError>, ghost levels: seq<seq<Node>>)
    ensures r == Err(EmptyDump) <==> dump == []
    ensures r.Err? && r.error.BadLeaf? ==>
      r.error.index < |dump| && !Admissible(dump[r.error.index]) && AllAdmissible(dump[..r.error.index])
    ensures r == Err(Overflow) <==> dump != [] && AllAdmissible(dump) && !Fits(Total(NodesOf(H, dump)))
    ensures r.Ok? <==> dump != [] && AllAdmissible(dump) && Fits(Total(NodesOf(H, dump)))
    ensures r.Ok? ==> TreeOver(H, dump, levels)
    ensures r.Ok? && (forall i :: 0 <= i < |dump| ==> Unambiguous(dump[i])) ==> Commits(H, dump, levels)
    ensures r.Ok? ==>
      && r.value.leaves == |dump|
      && r.value.publishedRoot == publishedRoot
      && r.value.recomputedRoot == Hex(Root(levels).hash)
      && r.value.disagreeingAssets == Disagreeing(Root(levels).sums, publishedSums)
  {
    hide LeafNode, IsTree, Total, Fits, Admissible;
    levels := [];
    if dump == [] {
      return Err(EmptyDump), levels;
    }
    var nodes: seq<Node> := [];
    while |nodes| < |dump|
      invariant |nodes| <= |dump|
      invariant forall i :: 0 <= i < |nodes| ==> Admissible(dump[i]) && nodes[i] == LeafNode(H, dump[i])
    {
      if !Admissible(dump[|nodes|]) {
        return Err(BadLeaf(|nodes|)), levels;
      }
      nodes := nodes + [LeafNode(H, dump[|nodes|])];
    }
    assert nodes == NodesOf(H, dump);
    var built := Build(H, nodes);
    if built.Err? {
      return Err(Overflow), levels;
    }
    var tree := built.value;
    levels := tree.levels;
    RootTotals(H, levels);
    UnambiguousCommits(H, dump, levels);
    var root := Root(tree.levels);
    r := Ok(RecomputeOutcome(|dump|, publishedRoot, Hex(root.hash), Disagreeing(root.sums, publishedSums)));
  }

  lemma UnambiguousCommits(H: HashFn, dump: seq<LeafInput>, levels: seq<seq<Node>>)
    requires dump != [] && TreeOver(H, dump, levels)
    ensures (forall i :: 0 <= i < |dump| ==> Unambiguous(dump[i])) ==> Commits(H, dump, levels)
  {
  }

  // ----- what a match means

  ghost function Outcome(dump: seq<LeafInput>, rebuilt: Node, published: Node): RecomputeOutcome {
    RecomputeOutcome(|dump|, Hex(published.hash), Hex(rebuilt.hash), Disagreeing(rebuilt.sums, published.sums))
  }

  /**
   Rebuilding from the committed leaves matches the published root and totals. A dump that matches,
   whatever its names, is the committed book leaf for leaf in order, up to how explicit zeros are
   spelt, and is that book entry for entry exactly when its own names are `|`-free; or hashed strings
   collide.
   */
  lemma MatchIsTheCommittedBook(
    H: HashFn, committed: seq<LeafInput>, levels: seq<seq<Node>>, dump: seq<LeafInput>, rebuilt: seq<seq<Node>>)
    requires Commits(H, committed, levels) && TreeOver(H, dump, rebuilt)
    ensures
      var o := Outcome(dump, Root(rebuilt), Root(levels));
      var S := TreeHashed(H, dump, rebuilt) + TreeHashed(H, committed, levels);
      && (SameEntries(dump, committed) ==> Matches(o))
      && (Matches(o) && !Collision(H, S) ==> |dump| == |committed|)
      && (Matches(o) && !Collision(H, S) ==>
            forall i :: 0 <= i < |dump| && i < |committed| ==>
              && SameReading(dump[i], committed[i])
              && forall asset :: At(LeafSums(dump[i]), asset) == At(LeafSums(committed[i]), asset))
      && (Matches(o) ==> (SameEntries(dump, committed) <==> Commits(H, dump, rebuilt)) || Collision(H, S))
  {
    hide Collision, TreeHashed, IsTree, LeafNode, Disagreeing, SameAmounts, Hex, Unambiguous, SameReading, LeafSums,
      SameEntry, At;
    RootTotals(H, levels);
    RootTotals(H, rebuilt);
    if SameEntries(dump, committed) {
      SameEntriesSameNodes(H, dump, rebuilt, committed, levels);
      TreeUnique(H, rebuilt, levels);
      NothingDisagrees(Root(levels).sums);
    }
    if Matches(Outcome(dump, Root(rebuilt), Root(levels))) {
      HexInjective(Root(levels).hash, Root(rebuilt).hash);
      RootBindsReadings(H, dump, rebuilt, committed, levels);
      if SameReadings(dump, committed) {
        MatchUpToZeros(H, committed, levels, dump, rebuilt);
        if Commits(H, dump, rebuilt) {
          ReadingsAreEntries(dump, committed);
        }
      }
    }
    if SameEntries(dump, committed) {
      forall i | 0 <= i < |dump| ensures Unambiguous(dump[i]) {
        EntryOfPlain(dump[i], committed[i]);
      }
    }
  }

  lemma EntryOfPlain(a: LeafInput, b: LeafInput)
    requires SameEntry(a, b) && Unambiguous(b)
    ensures Unambiguous(a)
  {
  }

  lemma ReadingsAreEntries(a: seq<LeafInput>, b: seq<LeafInput>)
    requires SameReadings(a, b)
    requires forall i :: 0 <= i < |a| ==> Unambiguous(a[i])
    requires forall i :: 0 <= i < |b| ==> Unambiguous(b[i])
    ensures SameEntries(a, b)
  {
    hide SameReading, Unambiguous, SameEntry;
    forall i | 0 <= i < |a| ensures SameEntry(a[i], b[i]) {
      UnambiguousReading(a[i], b[i]);
    }
  }

  /** Leaf by leaf a `|`-free name shows no more than is there, so equal totals leave no room. */
  lemma MatchUpToZeros(
    H: HashFn, committed: seq<LeafInput>, levels: seq<seq<Node>>, dump: seq<LeafInput>, rebuilt: seq<seq<Node>>)
    requires Commits(H, committed, levels) && TreeOver(H, dump, rebuilt)
    requires SameReadings(dump, committed) && SameAmounts(Root(rebuilt).sums, Root(levels).sums)
    ensures |dump| == |committed|
    ensures forall i :: 0 <= i < |dump| ==>
      forall asset :: At(LeafSums(dump[i]), asset) == At(LeafSums(committed[i]), asset)
  {
    hide SameReading, SameAmounts, Total, LeafSums, LeafPreimage, IsTree, PipeFree;
    RootTotals(H, levels);
    RootTotals(H, rebuilt);
    var s, t := rebuilt[0], levels[0];
    forall i, x | 0 <= i < |dump| ensures At(LeafSums(dump[i]), x) == At(LeafSums(committed[i]), x) {
      SameAmountsAt(Root(rebuilt).sums, Root(levels).sums, x);
      AssetForced(s, t, dump, committed, x);
      assert At(s[i].sums, x) == At(t[i].sums, x);
    }
  }

  lemma AssetForced(s: seq<Node>, t: seq<Node>, dump: seq<LeafInput>, committed: seq<LeafInput>, x: Bytes)
    requires |s| == |dump| == |committed| == |t| && At(Total(s), x) == At(Total(t), x)
    requires SameReadings(dump, committed)
    requires forall i :: 0 <= i < |s| ==> Admissible(dump[i]) && s[i].sums == LeafSums(dump[i])
    requires forall i :: 0 <= i < |t| ==> Unambiguous(committed[i]) && t[i].sums == LeafSums(committed[i])
    ensures forall i :: 0 <= i < |s| ==> At(s[i].sums, x) == At(t[i].sums, x)
  {
    hide SameReading, Total, LeafSums;
    if PIPE in x {
      forall i | 0 <= i < |t| ensures At(t[i].sums, x) <= At(s[i].sums, x) {
        assert PipeFree(LeafSums(committed[i]));
      }
      TotalsForceEach(t, s, x);
    } else {
      forall i | 0 <= i < |s| ensures At(s[i].sums, x) <= At(t[i].sums, x) {
        ShowsNoMore(dump[i], committed[i], x);
      }
      TotalsForceEach(s, t, x);
    }
  }

  /** Of a `|`-free asset, a leaf that reads alike shows either all there is or nothing. */
  lemma ShowsNoMore(a: LeafInput, b: LeafInput, x: Bytes)
    requires Admissible(a) && Unambiguous(b) && SameReading(a, b) && PIPE !in x
    ensures At(LeafSums(a), x) <= At(LeafSums(b), x)
  {
    hide Canonical, LeafSums, ReadsAlike, PipeFree;
    ReadAlikeText(a, b);
    if x in LeafSums(a) {
      PlainEntryShown(LeafSums(a), LeafSums(b), x);
    }
  }

  lemma {:induction false} TotalsForceEach(s: seq<Node>, t: seq<Node>, x: Bytes)
    requires |s| == |t| && forall i :: 0 <= i < |s| ==> At(s[i].sums, x) <= At(t[i].sums, x)
    ensures At(Total(s), x) <= At(Total(t), x)
    ensures At(Total(s), x) == At(Total(t), x) ==> forall i :: 0 <= i < |s| ==> At(s[i].sums, x) == At(t[i].sums, x)
  {
    hide Plus;
    if s != [] {
      TotalsForceEach(s[1..], t[1..], x);
      PlusAt(s[0].sums, Total(s[1..]), x);
      PlusAt(t[0].sums, Total(t[1..]), x);
      if At(Total(s), x) == At(Total(t), x) {
        forall i | 0 <= i < |s| ensures At(s[i].sums, x) == At(t[i].sums, x) {
          if i > 0 {
            assert s[i] == s[1..][i - 1] && t[i] == t[1..][i - 1];
          }
        }
      }
    }
  }

  lemma NothingDisagrees(m: Totals)
    ensures Disagreeing(m, m) == []
  {
  }

  lemma SameEntriesSameNodes(
    H: HashFn, a: seq<LeafInput>, s: seq<seq<Node>>, b: seq<LeafInput>, t: seq<seq<Node>>)
    requires TreeOver(H, a, s) && TreeOver(H, b, t) && SameEntries(a, b)
    ensures s[0] == t[0]
  {
    hide Paired, SameEntry, LeafNode;
    forall i | 0 <= i < |a| ensures s[0][i] == t[0][i] {
      SameEntrySameNode(H, a[i], b[i]);
    }
  }

  lemma SameEntrySameNode(H: HashFn, a: LeafInput, b: LeafInput)
    requires SameEntry(a, b)
    ensures LeafNode(H, a) == LeafNode(H, b)
  {
    hide Canonical;
  }

  // ----- zeros respelt

  function Spelt(names: seq<Text>): LeafInput {
    V1(Zeros(), [1], seq(|names|, i requires 0 <= i < |names| => Balance(names[i], 0)))
  }

  lemma SpeltSums(a: Text, b: Text, name: Text)
    requires a != b && PIPE !in a && PIPE !in b
    ensures Admissible(Spelt([name])) && LeafSums(Spelt([name])) == map[name := 0]
    ensures Unambiguous(Spelt([a, b])) && LeafSums(Spelt([a, b])) == map[a := 0, b := 0]
  {
    var one, two := Spelt([name]).balances, Spelt([a, b]).balances;
    assert one == [Balance(name, 0)] && two == [Balance(a, 0), Balance(b, 0)];
    assert one[..0] == [] && two[..1] == [Balance(a, 0)] && two[..1][..0] == [];
    assert MapOf(one) == map[][name := 0];
    assert MapOf(two[..1]) == map[a := 0];
  }

  lemma OneLeafTree(H: HashFn, leaf: LeafInput)
    requires Admissible(leaf)
    ensures TreeOver(H, [leaf], [[LeafNode(H, leaf)]])
  {
    hide LeafNode, Admissible, IsTree, Climbing;
    ClimbFrom(H, [LeafNode(H, leaf)]);
    Climbed(H, [[LeafNode(H, leaf)]]);
  }

  /** A dump can match and not be the book entry for entry: two zeros spelt as one name. */
  lemma ZerosRespelt(H: HashFn)
    returns (book: LeafInput, dump: LeafInput, levels: seq<seq<Node>>, rebuilt: seq<seq<Node>>)
    ensures Commits(H, [book], levels) && TreeOver(H, [dump], rebuilt)
    ensures |levels| == |rebuilt| == 1 && |levels[0]| == |rebuilt[0]| == 1
    ensures Matches(Outcome([dump], Root(rebuilt), Root(levels)))
    ensures !SameEntries([dump], [book])
  {
    hide FormatAmount, Canonical, Climbing, IsTree, MapOf;
    var a, b: Text := [65], [66];
    FormatLength(0);
    var name: Text := Entry(a, 0) + [PIPE] + b;
    CanonicalForgery(a, 0, b, 0);
    book, dump := Spelt([a, b]), Spelt([name]);
    SpeltSums(a, b, name);
    levels, rebuilt := [[LeafNode(H, book)]], [[LeafNode(H, dump)]];
    OneLeafTree(H, book);
    OneLeafTree(H, dump);
    assert SameAmounts(Root(rebuilt).sums, Root(levels).sums);
  }
}
