/**
 A customer verified all the way to a group's consolidated total: two folds and the check that they
 describe one book (solvency-report/src/group.rs, spec-audit/verify_from_spec.py).
 */
module Group {
  import opened Wrappers
  import opened ByteStrings
  import opened Balances
  import opened LengthPrefix
  import Fields
  import opened Domains
  import opened Documents
  import opened Digests
  import opened Leaves
  import opened SumTrees
  import opened TreeBinding
  import opened TreeSoundness
  import opened Verify
  import opened Profiles
  import opened Inclusion

  datatype Membership = Membership(
    formatVersion: Text, groupReportDigest: Text, entityId: Text, rootHash: Text, rootSums: AmountMap,
    steps: seq<StepDocument>)

  const GROUP_MEMBERSHIP_FORMAT_VERSION: Text := Ascii("canton-solvency-group-membership-v1")

  /** `entity_leaf_node`, fed field by field: the leaf that binds identity, root and totals together. */
  method MakeEntityLeaf(H: HashFn, e: Entity) returns (node: Node)
    ensures node == LeafNode(H, Subsidiary(e))
  {
    hide Ascii, Lp, LpMap;
    var h := new Hasher();
    h.Update(Ascii("rocky-solvency-entity-v1"));
    h.Update(Lp(e.entityId));
    h.Update(e.rootHash);
    var amounts := EncodeAmounts(e.rootSums);
    h.Update(amounts);
    var hash := h.Finalize(H);
    EntityFed(e);
    node := Node(hash, e.rootSums);
  }

  lemma EntityFed(e: Entity)
    ensures [] + DomainBytes(EntityV1) + Lp(e.entityId) + e.rootHash + LpMap(e.rootSums) == EntityPreimage(e)
  {
    hide DomainBytes, Lp, LpMap;
    EntityRecordEncodes(e);
  }

  lemma EntityRecordEncodes(e: Entity)
    ensures Fields.EncAll(EntityRecord(e)) == Lp(e.entityId) + (e.rootHash + LpMap(e.rootSums))
  {
    hide Lp, LpMap;
    var r := EntityRecord(e);
    var totals := Fields.Amounts(e.rootSums);
    assert r[1..] == [Fields.Raw(e.rootHash), totals] && r[1..][1..] == [totals];
    assert r[1..][1..][1..] == [];
    assert Fields.EncAll(r[1..][1..]) == LpMap(e.rootSums) + [];
  }

  /** The entity a membership speaks of, once its root hash is read. */
  function MemberEntity(m: Membership): Option<Entity> {
    match Hash32(m.rootHash)
    case None => None
    case Some(rootHash) => Some(Entity(m.entityId, rootHash, m.rootSums))
  }

  /** `verify_membership` */
  function VerifyMembership(H: HashFn, verifies: SignatureFn, signed: SignedReport, m: Membership, key: Text)
    : Result<(), Failure>
  {
    var profile := ProfileOf(signed.report);
    if m.formatVersion != GROUP_MEMBERSHIP_FORMAT_VERSION then Err(Failure.UnsupportedVersion)
    else if profile.None? || profile.value.leaf != EntityLeaf then Err(ProfileRefused)
    else if MemberEntity(m).None? then Err(Malformed)
    else
      var e := MemberEntity(m).value;
      VerifyAgainstReport(H, verifies, signed, LeafNode(H, Subsidiary(e)), m.steps, m.groupReportDigest, key)
  }

  /** `group::verify_chain` */
  function VerifyChainToGroup(
    H: HashFn, verifies: SignatureFn, group: SignedReport, m: Membership, entity: SignedReport, proof: ProofDocument,
    groupKey: Text, entityKey: Text): Result<(), Failure>
  {
    match VerifyV1(H, verifies, entity, proof, entityKey)
    case Err(e) => Err(e)
    case Ok(_) =>
      match VerifyMembership(H, verifies, group, m, groupKey)
      case Err(e) => Err(e)
      case Ok(_) =>
        if m.rootHash != entity.report.rootHash then Err(EntityRootMismatch)
        else
          match SumDisagreement(m.rootSums, entity.report.rootSums)
          case Some(asset) => Err(EntitySumsMismatch(asset))
          case None => Ok(())
  }

  /** A membership, exactly. */
  lemma MembershipExactly(H: HashFn, verifies: SignatureFn, signed: SignedReport, m: Membership, key: Text)
    ensures VerifyMembership(H, verifies, signed, m, key).Ok? <==>
      && m.formatVersion == Ascii("canton-solvency-group-membership-v1")
      && ProfileOf(signed.report).Some? && ProfileOf(signed.report).value.leaf == EntityLeaf
      && Hash32(m.rootHash).Some?
      && var entity := Entity(m.entityId, Hash32(m.rootHash).value, m.rootSums);
      && VerifyAgainstReport(
           H, verifies, signed, LeafNode(H, Subsidiary(entity)), m.steps, m.groupReportDigest, key).Ok?
    ensures
      var r, version := VerifyMembership(H, verifies, signed, m, key), Ascii("canton-solvency-group-membership-v1");
      var forEntities := ProfileOf(signed.report).Some? && ProfileOf(signed.report).value.leaf == EntityLeaf;
      && (m.formatVersion != version ==> r == Err(Failure.UnsupportedVersion))
      && (m.formatVersion == version && !forEntities ==> r == Err(ProfileRefused))
      && (m.formatVersion == version && forEntities && Hash32(m.rootHash).None? ==> r == Err(Malformed))
  {
    hide ProfileOf, LeafNode, VerifyAgainstReport, Ascii, Hash32;
  }

  /** A chain, exactly: two accepted halves that name one root and agree on every asset. */
  lemma ChainExactly(
    H: HashFn, verifies: SignatureFn, group: SignedReport, m: Membership, entity: SignedReport, proof: ProofDocument,
    groupKey: Text, entityKey: Text)
    ensures VerifyChainToGroup(H, verifies, group, m, entity, proof, groupKey, entityKey).Ok? <==>
      && VerifyV1(H, verifies, entity, proof, entityKey).Ok?
      && VerifyMembership(H, verifies, group, m, groupKey).Ok?
      && m.rootHash == entity.report.rootHash
      && forall asset :: At(m.rootSums, asset) == At(entity.report.rootSums, asset)
    ensures
      var r := VerifyChainToGroup(H, verifies, group, m, entity, proof, groupKey, entityKey);
      var customer := VerifyV1(H, verifies, entity, proof, entityKey);
      var member := VerifyMembership(H, verifies, group, m, groupKey);
      && (customer.Err? ==> r == customer)
      && (customer.Ok? && member.Err? ==> r == member)
      && (customer.Ok? && member.Ok? && m.rootHash != entity.report.rootHash ==> r == Err(EntityRootMismatch))
      && (customer.Ok? && member.Ok? && m.rootHash == entity.report.rootHash && r.Err? ==>
            && r.error.EntitySumsMismatch?
            && At(m.rootSums, r.error.asset) != At(entity.report.rootSums, r.error.asset))
  {
    hide VerifyV1, VerifyMembership, SumDisagreement;
    assert SameAmounts(m.rootSums, entity.report.rootSums) <==>
      forall asset :: At(m.rootSums, asset) == At(entity.report.rootSums, asset);
  }

  /** An accepted chain: of every asset, customer at most entity at most group. */
  lemma ChainDominates(
    H: HashFn, verifies: SignatureFn, group: SignedReport, m: Membership, entity: SignedReport, proof: ProofDocument,
    groupKey: Text, entityKey: Text, asset: Bytes)
    requires VerifyChainToGroup(H, verifies, group, m, entity, proof, groupKey, entityKey).Ok?
    ensures Admissible(proof.leaf)
    ensures At(LeafSums(proof.leaf), asset) <= At(entity.report.rootSums, asset) <= At(group.report.rootSums, asset)
  {
    hide VerifyAgainstReport, EntityPreimage, LeafPreimage, SumDisagreement, SameAmounts, Hash32;
    LeafWithinPublished(
      H, verifies, entity, LeafNode(H, proof.leaf), proof.steps, proof.reportDigest, entityKey, asset);
    var node := LeafNode(H, Subsidiary(MemberEntity(m).value));
    LeafWithinPublished(H, verifies, group, node, m.steps, m.groupReportDigest, groupKey, asset);
    SameAmountsAt(m.rootSums, entity.report.rootSums, asset);
  }

  /** Both links of an accepted chain speak of one root: the entity leaf commits to the entity's own. */
  lemma ChainSharesRoot(
    H: HashFn, verifies: SignatureFn, group: SignedReport, m: Membership, entity: SignedReport, proof: ProofDocument,
    groupKey: Text, entityKey: Text)
    requires VerifyChainToGroup(H, verifies, group, m, entity, proof, groupKey, entityKey).Ok?
    ensures
      && Admissible(proof.leaf)
      && DecodeSteps(proof.steps).Some? && DecodeSteps(m.steps).Some?
      && MemberEntity(m).Some?
      && var e := MemberEntity(m).value;
         var customer := Fold(H, LeafNode(H, proof.leaf), DecodeSteps(proof.steps).value);
         var member := Fold(H, LeafNode(H, Subsidiary(e)), DecodeSteps(m.steps).value);
         && customer.Ok? && member.Ok?
         && customer.value.hash == e.rootHash
         && SameAmounts(customer.value.sums, entity.report.rootSums)
         && SameAmounts(e.rootSums, entity.report.rootSums)
         && SameAmounts(member.value.sums, group.report.rootSums)
  {
    hide VerifyV1, VerifyMembership, VerifyChainToGroup, MemberEntity, LeafNode, SameAmounts, Hash32, Fold, DecodeSteps,
      Admissible;
    ChainLinks(H, verifies, group, m, entity, proof, groupKey, entityKey);
    CustomerFolds(H, verifies, entity, proof, entityKey);
    MemberFolds(H, verifies, group, m, groupKey);
  }

  lemma CustomerFolds(H: HashFn, verifies: SignatureFn, entity: SignedReport, proof: ProofDocument, key: Text)
    requires VerifyV1(H, verifies, entity, proof, key).Ok?
    ensures Admissible(proof.leaf) && DecodeSteps(proof.steps).Some?
    ensures
      var customer := Fold(H, LeafNode(H, proof.leaf), DecodeSteps(proof.steps).value);
      && customer.Ok?
      && Hash32(entity.report.rootHash) == Some(customer.value.hash)
      && SameAmounts(customer.value.sums, entity.report.rootSums)
  {
    hide VerifyAgainstReport, LeafNode, SameAmounts, Hash32, Fold, DecodeSteps, Admissible, ReportFault, ProfileOf;
    AcceptedMeansFolded(H, verifies, entity, LeafNode(H, proof.leaf), proof.steps, proof.reportDigest, key);
  }

  lemma MemberFolds(H: HashFn, verifies: SignatureFn, group: SignedReport, m: Membership, key: Text)
    requires VerifyMembership(H, verifies, group, m, key).Ok?
    ensures MemberEntity(m).Some? && DecodeSteps(m.steps).Some?
    ensures
      var member := Fold(H, LeafNode(H, Subsidiary(MemberEntity(m).value)), DecodeSteps(m.steps).value);
      && member.Ok?
      && SameAmounts(member.value.sums, group.report.rootSums)
  {
    hide VerifyAgainstReport, LeafNode, SameAmounts, Hash32, Fold, DecodeSteps, ProfileOf, MemberEntity;
    AcceptedMeansFolded(
      H, verifies, group, LeafNode(H, Subsidiary(MemberEntity(m).value)), m.steps, m.groupReportDigest, key);
  }

  // ----- the trees behind both reports

  function EntityLeaves(entities: seq<Entity>): (r: seq<LeafInput>)
    ensures |r| == |entities|
    ensures forall i :: 0 <= i < |r| ==> r[i] == Subsidiary(entities[i]) && Admissible(r[i])
  {
    seq(|entities|, i requires 0 <= i < |entities| => Subsidiary(entities[i]))
  }

  /** `publish_group`, up to the tree: refused exactly on no entities or a total over `u128`. */
  method PublishGroup(H: HashFn, entities: seq<Entity>) returns (r: Result<SumTree, TreeError>)
    ensures r.Ok? ==> TreeOver(H, EntityLeaves(entities), r.value.levels)
    ensures r == Err(NoLeaves) <==> entities == []
    ensures r.Ok? <==> entities != [] && Fits(Total(EntityNodes(H, entities)))
  {
    hide LeafNode, Total, IsTree, Fits;
    var leaves: seq<Node> := [];
    for i := 0 to |entities|
      invariant leaves == EntityNodes(H, entities)[..i]
    {
      var leaf := MakeEntityLeaf(H, entities[i]);
      leaves := leaves + [leaf];
    }
    assert EntityNodes(H, entities)[..|entities|] == EntityNodes(H, entities);
    r := Build(H, leaves);
  }

  function EntityNodes(H: HashFn, entities: seq<Entity>): (r: seq<Node>)
    ensures |r| == |entities|
    ensures forall i :: 0 <= i < |r| ==> r[i] == LeafNode(H, EntityLeaves(entities)[i])
  {
    seq(|entities|, i requires 0 <= i < |entities| => LeafNode(H, EntityLeaves(entities)[i]))
  }

  /** Everything hashed to build a tree and to fold an accepted path. */
  ghost function AllHashed(
    H: HashFn, inputs: seq<LeafInput>, levels: seq<seq<Node>>, leaf: LeafInput, steps: seq<StepDocument>): set<Bytes>
    requires TreeOver(H, inputs, levels) && Admissible(leaf)
    requires DecodeSteps(steps).Some? && Fold(H, LeafNode(H, leaf), DecodeSteps(steps).value).Ok?
  {
    TreeHashed(H, inputs, levels) + PathHashed(H, leaf, DecodeSteps(steps).value)
  }

  /** An accepted membership against the root of a built group tree names a committed entity. */
  lemma MemberIsCommitted(
    H: HashFn, verifies: SignatureFn, entities: seq<Entity>, levels: seq<seq<Node>>, group: SignedReport,
    m: Membership, key: Text)
    requires TreeOver(H, EntityLeaves(entities), levels)
    requires VerifyMembership(H, verifies, group, m, key).Ok?
    requires Hash32(group.report.rootHash) == Some(Root(levels).hash)
    ensures MemberEntity(m).Some? && DecodeSteps(m.steps).Some?
    ensures Fold(H, LeafNode(H, Subsidiary(MemberEntity(m).value)), DecodeSteps(m.steps).value).Ok?
    ensures
      || Collision(H, AllHashed(H, EntityLeaves(entities), levels, Subsidiary(MemberEntity(m).value), m.steps))
      || MemberEntity(m).value in entities
  {
    hide VerifyAgainstReport, TreeHashed, PathHashed, Collision, Hash32, Fold, DecodeSteps, LeafNode, TreeOver,
      SameRoute;
    var leaf := Subsidiary(MemberEntity(m).value);
    AcceptedIsInTheBook(
      H, verifies, EntityLeaves(entities), levels, group, leaf, m.steps, m.groupReportDigest, key);
  }

  /**
   The whole chain, against built trees: the customer's leaf is in the book of an entity that the
   group committed under that very root, identity and totals.
   */
  lemma ChainReachesTheBook(
    H: HashFn, verifies: SignatureFn, entities: seq<Entity>, groupLevels: seq<seq<Node>>, group: SignedReport,
    m: Membership, customers: seq<LeafInput>, book: seq<seq<Node>>, entity: SignedReport, proof: ProofDocument,
    groupKey: Text, entityKey: Text)
    requires TreeOver(H, EntityLeaves(entities), groupLevels) && TreeOver(H, customers, book)
    requires Hash32(group.report.rootHash) == Some(Root(groupLevels).hash)
    requires Hash32(entity.report.rootHash) == Some(Root(book).hash)
    requires VerifyChainToGroup(H, verifies, group, m, entity, proof, groupKey, entityKey).Ok?
    ensures Admissible(proof.leaf) && DecodeSteps(proof.steps).Some?
    ensures Fold(H, LeafNode(H, proof.leaf), DecodeSteps(proof.steps).value).Ok?
    ensures MemberEntity(m).Some? && DecodeSteps(m.steps).Some?
    ensures Fold(H, LeafNode(H, Subsidiary(MemberEntity(m).value)), DecodeSteps(m.steps).value).Ok?
    ensures
      || Collision(H, AllHashed(H, customers, book, proof.leaf, proof.steps))
      || Collision(H, AllHashed(H, EntityLeaves(entities), groupLevels, Subsidiary(MemberEntity(m).value), m.steps))
      || (&& (exists i :: 0 <= i < |customers| && SameReading(proof.leaf, customers[i]))
          && MemberEntity(m).value in entities
          && MemberEntity(m).value.entityId == m.entityId
          && MemberEntity(m).value.rootHash == Root(book).hash
          && SameAmounts(MemberEntity(m).value.rootSums, entity.report.rootSums))
  {
    hide VerifyAgainstReport, AllHashed, Collision, Hash32, Fold, DecodeSteps, LeafNode, TreeOver, SameReading,
      SameAmounts, Admissible, VerifyV1, VerifyMembership, Root, EntityLeaves;
    ChainLinks(H, verifies, group, m, entity, proof, groupKey, entityKey);
    MemberIsCommitted(H, verifies, entities, groupLevels, group, m, groupKey);
    CustomerIsCommitted(H, verifies, customers, book, entity, proof, entityKey);
  }

  /** What the chain checks beside its two halves. */
  lemma ChainLinks(
    H: HashFn, verifies: SignatureFn, group: SignedReport, m: Membership, entity: SignedReport, proof: ProofDocument,
    groupKey: Text, entityKey: Text)
    requires VerifyChainToGroup(H, verifies, group, m, entity, proof, groupKey, entityKey).Ok?
    ensures VerifyV1(H, verifies, entity, proof, entityKey).Ok?
    ensures VerifyMembership(H, verifies, group, m, groupKey).Ok?
    ensures MemberEntity(m).Some? && Hash32(entity.report.rootHash) == Some(MemberEntity(m).value.rootHash)
    ensures MemberEntity(m).value.entityId == m.entityId
    ensures SameAmounts(MemberEntity(m).value.rootSums, entity.report.rootSums)
  {
    hide VerifyAgainstReport, Hash32, SameAmounts, LeafNode, Admissible;
  }

  lemma CustomerIsCommitted(
    H: HashFn, verifies: SignatureFn, customers: seq<LeafInput>, book: seq<seq<Node>>, entity: SignedReport,
    proof: ProofDocument, key: Text)
    requires TreeOver(H, customers, book)
    requires Hash32(entity.report.rootHash) == Some(Root(book).hash)
    requires VerifyV1(H, verifies, entity, proof, key).Ok?
    ensures Admissible(proof.leaf) && DecodeSteps(proof.steps).Some?
    ensures Fold(H, LeafNode(H, proof.leaf), DecodeSteps(proof.steps).value).Ok?
    ensures
      || Collision(H, AllHashed(H, customers, book, proof.leaf, proof.steps))
      || exists i :: 0 <= i < |customers| && SameReading(proof.leaf, customers[i])
  {
    hide VerifyV1, TreeHashed, PathHashed, Collision, Hash32, Fold, DecodeSteps, LeafNode, TreeOver, SameReading,
      Admissible;
    VerifiedV1IsCommitted(H, verifies, customers, book, entity, proof, key);
  }
}
