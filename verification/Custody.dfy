/**
 Custody positions and the tree committed over them: reproducible from any order the rows arrive in,
 and publishing exactly their totals (reserve-attest/src/lib.rs, reserve-attest/src/build.rs).
 */
module Custody {
  import opened Wrappers
  import opened ByteStrings
  import opened Sorting
  import opened Amounts
  import opened Balances
  import opened Leaves
  import opened SumTrees

  datatype Position = Position(contractId: Text, asset: Text, amount: Amount)

  /** A row of the participant's answer, decoded: the amount is still text. */
  datatype HoldingItem = HoldingItem(contractId: Text, asset: Text, amountText: Text)

  datatype CustodyError =
    | DuplicateContract(contractId: Text)
    | BadAmount(contractId: Text, cause: AmountError)
    | NoPositions
    | OffsetMismatch
    | WrongProfile
    | RefusedName(name: Text)
    | TotalOverflow(asset: Bytes)

  predicate DistinctIds(ps: seq<Position>) {
    forall i, j :: 0 <= i < j < |ps| ==> ps[i].contractId != ps[j].contractId
  }

  // ----- reading rows

  predicate SeenBefore(items: seq<HoldingItem>, i: nat)
    requires i < |items|
  {
    exists k :: 0 <= k < i && items[k].contractId == items[i].contractId
  }

  /** What is wrong with one row: a contract already counted, before an unreadable amount. */
  function RowFault(items: seq<HoldingItem>, i: nat): Option<CustodyError>
    requires i < |items|
  {
    var item := items[i];
    if SeenBefore(items, i) then Some(DuplicateContract(item.contractId))
    else
      match ParseAmount(item.amountText)
      case Err(e) => Some(BadAmount(item.contractId, e))
      case Ok(_) => None
  }

  ghost predicate FaultlessTo(items: seq<HoldingItem>, n: nat)
    requires n <= |items|
  {
    forall k :: 0 <= k < n ==> RowFault(items, k) == None
  }

  /** `parse_holdings`, from decoded rows: refused at the first faulty row, otherwise read in order. */
  method ParseHoldings(items: seq<HoldingItem>) returns (r: Result<seq<Position>, CustodyError>)
    ensures r.Ok? <==> FaultlessTo(items, |items|)
    ensures r.Ok? ==> |r.value| == |items| && DistinctIds(r.value)
    ensures r.Ok? ==> forall i :: 0 <= i < |items| ==>
      && r.value[i].contractId == items[i].contractId && r.value[i].asset == items[i].asset
      && ParseAmount(items[i].amountText) == Ok(r.value[i].amount)
    ensures r.Err? ==>
      exists i :: 0 <= i < |items| && FaultlessTo(items, i) && RowFault(items, i) == Some(r.error)
  {
    hide ParseAmount;
    var seen: set<Text> := {};
    var positions: seq<Position> := [];
    for i := 0 to |items|
      invariant |positions| == i && DistinctIds(positions) && FaultlessTo(items, i)
      invariant forall k :: 0 <= k < i ==>
        && positions[k].contractId == items[k].contractId && positions[k].asset == items[k].asset
        && ParseAmount(items[k].amountText) == Ok(positions[k].amount)
      invariant forall id :: id in seen <==> exists k :: 0 <= k < i && items[k].contractId == id
    {
      var item := items[i];
      assert item.contractId in seen <==> SeenBefore(items, i);
      if item.contractId in seen {
        assert RowFault(items, i) == Some(DuplicateContract(item.contractId));
        return Err(DuplicateContract(item.contractId));
      }
      seen := seen + {item.contractId};
      var amount := ParseAmount(item.amountText);
      if amount.Err? {
        assert RowFault(items, i) == Some(BadAmount(item.contractId, amount.error));
        return Err(BadAmount(item.contractId, amount.error));
      }
      positions := positions + [Position(item.contractId, item.asset, amount.value)];
    }
    return Ok(positions);
  }

  // ----- totals

  function Single(p: Position): Sums {
    map[p.asset := p.amount]
  }

  /** What is held of each asset. */
  function Held(ps: seq<Position>): Totals {
    if ps == [] then map[] else Plus(Held(ps[..|ps| - 1]), Single(ps[|ps| - 1]))
  }

  lemma {:induction false} HeldGrows(ps: seq<Position>, i: nat, asset: Bytes)
    requires i <= |ps|
    ensures At(Held(ps[..i]), asset) <= At(Held(ps), asset)
  {
    hide Plus;
    if i < |ps| {
      var n := |ps| - 1;
      assert ps[..n][..i] == ps[..i];
      HeldGrows(ps[..n], i, asset);
      PlusAt(Held(ps[..n]), Single(ps[n]), asset);
    } else {
      assert ps[..i] == ps;
    }
  }

  lemma AddOne(out: Totals, p: Position)
    ensures Plus(out, Single(p)) == out[p.asset := At(out, p.asset) + p.amount]
  {
  }

  /** `totals` */
  method TotalsOf(ps: seq<Position>) returns (r: Result<Sums, CustodyError>)
    ensures r.Ok? <==> Fits(Held(ps))
    ensures r.Ok? ==> r.value == Held(ps)
    ensures r.Err? ==> r.error.TotalOverflow? && At(Held(ps), r.error.asset) > U128_MAX
  {
    hide Plus, Single;
    var out: Sums := map[];
    for i := 0 to |ps|
      invariant out == Held(ps[..i])
    {
      assert ps[..i + 1][..i] == ps[..i];
      AddOne(out, ps[i]);
      var slot := At(out, ps[i].asset) + ps[i].amount;
      if slot > U128_MAX {
        HeldGrows(ps, i + 1, ps[i].asset);
        assert At(Held(ps[..i + 1]), ps[i].asset) == slot;
        NotFitting(Held(ps), ps[i].asset);
        return Err(TotalOverflow(ps[i].asset));
      }
      out := out[ps[i].asset := slot];
    }
    assert ps[..|ps|] == ps;
    return Ok(out);
  }

  // ----- contract-id order

  function IdOf(p: Position): Bytes {
    p.contractId
  }

  /** `sort_by` on the contract id. */
  function SortById(s: seq<Position>): (r: seq<Position>)
    ensures |r| == |s| && multiset(r) == multiset(s)
    ensures forall p :: p in r <==> p in s
  {
    SortMembers(IdOf, s);
    SortBy(IdOf, s)
  }

  /** Contract ids ascend, strictly when none repeats. */
  lemma SortedByContract(s: seq<Position>)
    ensures forall i, j :: 0 <= i < j < |s| ==> AtMost(SortById(s)[i].contractId, SortById(s)[j].contractId)
    ensures DistinctIds(s) ==>
      forall i, j :: 0 <= i < j < |s| ==> Before(SortById(s)[i].contractId, SortById(s)[j].contractId)
  {
    hide Before;
    var names := Keys(IdOf, SortById(s));
    SortOrders(IdOf, s);
    SortKeysDistinct(IdOf, s);
    forall i, j | 0 <= i < j < |s|
      ensures AtMost(SortById(s)[i].contractId, SortById(s)[j].contractId)
      ensures DistinctIds(s) ==> Before(SortById(s)[i].contractId, SortById(s)[j].contractId)
    {
      assert names[i] == SortById(s)[i].contractId && names[j] == SortById(s)[j].contractId;
      assert DistinctIds(s) ==> Distinct(Keys(IdOf, s));
    }
  }

  /** Two honest reads of one snapshot sort to one list, whatever order their rows came in. */
  lemma PositionsForgetOrder(s: seq<Position>, t: seq<Position>)
    requires multiset(s) == multiset(t) && DistinctIds(s)
    ensures SortById(s) == SortById(t)
  {
    assert Distinct(Keys(IdOf, s));
    SortForgetsOrder(IdOf, s, t);
  }

  lemma {:induction false} InsertHeld(x: Position, s: seq<Position>)
    ensures HeldFront(Insert(IdOf, x, s)) == Plus(Single(x), HeldFront(s))
  {
    hide Plus, Single;
    if s == [] || !Before(s[0].contractId, x.contractId) {
      assert ([x] + s)[1..] == s;
    } else {
      var rest := Insert(IdOf, x, s[1..]);
      assert ([s[0]] + rest)[1..] == rest;
      InsertHeld(x, s[1..]);
      PlusAssociative(Single(s[0]), Single(x), HeldFront(s[1..]));
      PlusAssociative(Single(x), Single(s[0]), HeldFront(s[1..]));
      PlusCommutes(Single(s[0]), Single(x));
    }
  }

  /** The same totals, summed from the front. */
  function HeldFront(ps: seq<Position>): Totals {
    if ps == [] then map[] else Plus(Single(ps[0]), HeldFront(ps[1..]))
  }

  lemma {:induction false} HeldFrontSnoc(ps: seq<Position>, p: Position)
    ensures HeldFront(ps + [p]) == Plus(HeldFront(ps), Single(p))
  {
    hide Plus, Single;
    if ps == [] {
      assert ([] + [p])[1..] == [];
      PlusEmpty(Single(p));
      assert [] + [p] == [p];
    } else {
      assert (ps + [p])[1..] == ps[1..] + [p];
      HeldFrontSnoc(ps[1..], p);
      PlusAssociative(Single(ps[0]), HeldFront(ps[1..]), Single(p));
    }
  }

  lemma {:induction false} HeldEitherWay(ps: seq<Position>)
    ensures Held(ps) == HeldFront(ps)
  {
    hide Plus, Single;
    if ps != [] {
      var n := |ps| - 1;
      HeldEitherWay(ps[..n]);
      assert ps == ps[..n] + [ps[n]];
      HeldFrontSnoc(ps[..n], ps[n]);
    }
  }

  lemma {:induction false} SortKeepsHeld(ps: seq<Position>)
    ensures HeldFront(SortById(ps)) == HeldFront(ps)
  {
    hide Plus, Single;
    if ps != [] {
      SortKeepsHeld(ps[1..]);
      InsertHeld(ps[0], SortBy(IdOf, ps[1..]));
    }
  }

  // ----- leaves

  /** The salt of a contract's leaf: HMAC under the snapshot secret, uninterpreted. */
  type SaltFn = Bytes -> Digest

  const CUSTODY_PROFILE: Text := Ascii("coverage.custody")

  const HELD: Text := Ascii("held")

  function PositionLeaf(saltOf: SaltFn, p: Position): LeafInput {
    OneMapLeaf(saltOf(p.contractId), p.contractId, HELD, p.asset, p.amount)
  }

  lemma HeldIsSafe()
    ensures IsSafeName(HELD)
  {
    hide Ascii, IsSafeName;
    LowercaseSafe("held");
  }

  lemma PositionLeafAdmissible(saltOf: SaltFn, p: Position)
    ensures Admissible(PositionLeaf(saltOf, p)) <==> IsSafeName(p.asset)
  {
    hide IsSafeName;
    HeldIsSafe();
    OneMapAdmissible(saltOf(p.contractId), p.contractId, HELD, p.asset, p.amount);
  }

  /** A position's leaf carries its amount under `held/<asset>` and nothing else. */
  lemma PositionLeafSums(saltOf: SaltFn, p: Position)
    requires IsSafeName(p.asset)
    ensures Admissible(PositionLeaf(saltOf, p))
    ensures LeafSums(PositionLeaf(saltOf, p)) == map[Qualified(HELD, p.asset) := p.amount]
  {
    hide IsSafeName, LeafSums, Admissible;
    HeldIsSafe();
    OneMapLeafSums(saltOf(p.contractId), p.contractId, HELD, p.asset, p.amount);
  }

  // ----- the custody tree

  function CustodyLeaves(saltOf: SaltFn, ps: seq<Position>): (r: seq<LeafInput>)
    ensures |r| == |ps|
  {
    var sorted := SortById(ps);
    seq(|sorted|, i requires 0 <= i < |sorted| => PositionLeaf(saltOf, sorted[i]))
  }

  ghost predicate CustodyNodes(H: HashFn, saltOf: SaltFn, ps: seq<Position>, nodes: seq<Node>) {
    var leaves := CustodyLeaves(saltOf, ps);
    && |nodes| == |leaves|
    && forall i :: 0 <= i < |leaves| ==> Admissible(leaves[i]) && nodes[i] == LeafNode(H, leaves[i])
  }

  /**
   `build_custody_report`, up to the tree it publishes: refused on an empty book, against another
   offset or under another profile, and otherwise over the positions in contract-id order.
   */
  method BuildCustody(
    H: HashFn, saltOf: SaltFn, ps: seq<Position>,
    ledgerOffset: Text, snapshotOffset: Text, profile: Text)
    returns (r: Result<SumTree, CustodyError>, ghost nodes: seq<Node>)
    ensures r == Err(NoPositions) <==> ps == []
    ensures r == Err(OffsetMismatch) <==> ps != [] && ledgerOffset != snapshotOffset
    ensures r == Err(WrongProfile) <==>
      ps != [] && ledgerOffset == snapshotOffset && profile != CUSTODY_PROFILE
    ensures r.Ok? <==>
      && ps != [] && ledgerOffset == snapshotOffset && profile == CUSTODY_PROFILE
      && (forall p :: p in ps ==> IsSafeName(p.asset))
      && Fits(Held(ps))
    ensures r.Ok? ==>
      && CustodyNodes(H, saltOf, ps, nodes)
      && IsTree(H, r.value.levels) && r.value.levels[0] == nodes
    ensures r.Err? && r.error.RefusedName? ==> exists p :: p in ps && p.asset == r.error.name && !IsSafeName(p.asset)
  {
    hide IsSafeName, LeafNode, IsTree, Total, Admissible, PositionLeaf, Fits, Ascii, Held;
    nodes := [];
    if ps == [] {
      return Err(NoPositions), nodes;
    }
    if ledgerOffset != snapshotOffset {
      return Err(OffsetMismatch), nodes;
    }
    if profile != CUSTODY_PROFILE {
      return Err(WrongProfile), nodes;
    }
    var sorted, leaves := SortById(ps), CustodyLeaves(saltOf, ps);
    var built: seq<Node> := [];
    while |built| < |leaves|
      invariant |built| <= |leaves|
      invariant forall i :: 0 <= i < |built| ==> Admissible(leaves[i]) && built[i] == LeafNode(H, leaves[i])
      invariant forall i :: 0 <= i < |built| ==> IsSafeName(sorted[i].asset)
    {
      var i := |built|;
      PositionLeafAdmissible(saltOf, sorted[i]);
      if !Admissible(leaves[i]) {
        assert sorted[i] in sorted;
        return Err(RefusedName(sorted[i].asset)), nodes;
      }
      built := built + [LeafNode(H, leaves[i])];
    }
    nodes := built;
    assert forall p :: p in ps ==> p in sorted;
    CustodyFits(H, saltOf, ps, nodes);
    var tree := Build(H, built);
    match tree
    case Ok(t) => return Ok(t), nodes;
    case Err(e) => return Err(TotalOverflow(e.asset)), nodes;
  }

  lemma {:induction false} TotalIsHeld(H: HashFn, saltOf: SaltFn, sorted: seq<Position>, nodes: seq<Node>, asset: Bytes)
    requires |nodes| == |sorted|
    requires forall i :: 0 <= i < |sorted| ==>
      Admissible(PositionLeaf(saltOf, sorted[i])) && nodes[i] == LeafNode(H, PositionLeaf(saltOf, sorted[i]))
    ensures At(Total(nodes), Qualified(HELD, asset)) == At(HeldFront(sorted), asset)
  {
    hide Plus, LeafPreimage, LeafSums, PositionLeaf, IsSafeName, Qualified;
    if sorted != [] {
      TotalIsHeld(H, saltOf, sorted[1..], nodes[1..], asset);
      PositionLeafAdmissible(saltOf, sorted[0]);
      PositionLeafSums(saltOf, sorted[0]);
      PlusAt(nodes[0].sums, Total(nodes[1..]), Qualified(HELD, asset));
      PlusAt(Single(sorted[0]), HeldFront(sorted[1..]), asset);
      HeldKeyInjective(sorted[0].asset, asset);
    }
  }

  lemma HeldKeyInjective(a: Bytes, b: Bytes)
    ensures Qualified(HELD, a) == Qualified(HELD, b) <==> a == b
  {
    if Qualified(HELD, a) == Qualified(HELD, b) {
      SplitAt(HELD + [SLASH], a, HELD + [SLASH], b);
    }
  }

  /** The published `held/` sums are the totals of the positions. */
  lemma CustodyRootIsHeld(H: HashFn, saltOf: SaltFn, ps: seq<Position>, nodes: seq<Node>, asset: Bytes)
    requires CustodyNodes(H, saltOf, ps, nodes)
    ensures At(Total(nodes), Qualified(HELD, asset)) == At(Held(ps), asset)
  {
    hide Total, Qualified, Plus;
    var leaves := CustodyLeaves(saltOf, ps);
    forall i | 0 <= i < |ps|
      ensures Admissible(PositionLeaf(saltOf, SortById(ps)[i]))
      ensures nodes[i] == LeafNode(H, PositionLeaf(saltOf, SortById(ps)[i]))
    {
      assert leaves[i] == PositionLeaf(saltOf, SortById(ps)[i]);
    }
    TotalIsHeld(H, saltOf, SortById(ps), nodes, asset);
    SortKeepsHeld(ps);
    HeldEitherWay(ps);
  }

  lemma {:induction false} TotalKeysHeld(H: HashFn, saltOf: SaltFn, sorted: seq<Position>, nodes: seq<Node>)
    requires |nodes| == |sorted|
    requires forall i :: 0 <= i < |sorted| ==>
      Admissible(PositionLeaf(saltOf, sorted[i])) && nodes[i] == LeafNode(H, PositionLeaf(saltOf, sorted[i]))
    ensures forall k :: k in Total(nodes) ==> exists asset :: k == Qualified(HELD, asset)
  {
    hide LeafPreimage, LeafSums, PositionLeaf, IsSafeName, Qualified;
    if sorted != [] {
      TotalKeysHeld(H, saltOf, sorted[1..], nodes[1..]);
      PositionLeafAdmissible(saltOf, sorted[0]);
      PositionLeafSums(saltOf, sorted[0]);
    }
  }

  /** The tree can be built exactly when the totals fit. */
  lemma CustodyFits(H: HashFn, saltOf: SaltFn, ps: seq<Position>, nodes: seq<Node>)
    requires CustodyNodes(H, saltOf, ps, nodes)
    ensures Fits(Total(nodes)) <==> Fits(Held(ps))
  {
    hide Total, Qualified, Held, LeafNode, PositionLeaf, Admissible;
    var leaves := CustodyLeaves(saltOf, ps);
    forall i | 0 <= i < |ps|
      ensures Admissible(PositionLeaf(saltOf, SortById(ps)[i]))
      ensures nodes[i] == LeafNode(H, PositionLeaf(saltOf, SortById(ps)[i]))
    {
      assert leaves[i] == PositionLeaf(saltOf, SortById(ps)[i]);
    }
    TotalKeysHeld(H, saltOf, SortById(ps), nodes);
    forall asset ensures At(Total(nodes), Qualified(HELD, asset)) == At(Held(ps), asset) {
      CustodyRootIsHeld(H, saltOf, ps, nodes, asset);
    }
    FitsByHeld(Total(nodes), Held(ps));
  }

  lemma FitsByHeld(total: Totals, held: Totals)
    requires forall k :: k in total ==> exists asset :: k == Qualified(HELD, asset)
    requires forall asset :: At(total, Qualified(HELD, asset)) == At(held, asset)
    ensures Fits(total) <==> Fits(held)
  {
    hide Qualified;
    if Fits(total) {
      forall a | a in held ensures held[a] <= U128_MAX {
        assert At(total, Qualified(HELD, a)) == At(held, a);
      }
    }
    if Fits(held) {
      forall k | k in total ensures total[k] <= U128_MAX {
        var a :| k == Qualified(HELD, a);
        assert At(total, Qualified(HELD, a)) == At(held, a);
      }
    }
  }

  /** The whole custody tree, root hash included, is unmoved by permuting distinct positions. */
  lemma CustodyForgetsOrder(
    H: HashFn, saltOf: SaltFn, ps: seq<Position>, qs: seq<Position>,
    levels: seq<seq<Node>>, other: seq<seq<Node>>)
    requires multiset(ps) == multiset(qs) && DistinctIds(ps)
    requires IsTree(H, levels) && CustodyNodes(H, saltOf, ps, levels[0])
    requires IsTree(H, other) && CustodyNodes(H, saltOf, qs, other[0])
    ensures levels == other
  {
    hide LeafNode, PositionLeaf, Paired, Admissible;
    PositionsForgetOrder(ps, qs);
    assert levels[0] == other[0];
    TreeUnique(H, levels, other);
  }
}
