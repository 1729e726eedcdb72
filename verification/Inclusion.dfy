/**
 Verifying a customer's proof document, guards and all: the report's version and manifest, its profile,
 the document's versions, then the leaf and its path (solvency-report/src/verify.rs).
 */
module Inclusion {
  import opened Wrappers
  import opened ByteStrings
  import opened Documents
  import opened Digests
  import opened Leaves
  import opened SumTrees
  import opened TreeBinding
  import opened TreeSoundness
  import opened Manifests
  import opened Profiles
  import opened Verify

  type V1Leaf = l: LeafInput | l.V1? witness V1(seq(32, _ => 0), [], [])

  type V2Leaf = l: LeafInput | l.V2? witness V2(seq(32, _ => 0), [], map[])

  datatype ProofDocument = ProofDocument(
    formatVersion: Text, reportDigest: Text, leaf: V1Leaf, steps: seq<StepDocument>)

  datatype ProofDocumentV2 = ProofDocumentV2(
    formatVersion: Text, reportDigest: Text, leaf: V2Leaf, steps: seq<StepDocument>)

  const PROOF_FORMAT_VERSION: Text := Ascii("canton-solvency-proof-v1")
  const PROOF_FORMAT_VERSION_V2: Text := Ascii("canton-solvency-proof-v2")

  /** `check_report_version_and_manifest` */
  function ReportFault(r: Report): Option<Failure> {
    if r.formatVersion == REPORT_FORMAT_VERSION then
      if r.manifest.Some? then Some(ManifestPresence) else None
    else if r.formatVersion == REPORT_FORMAT_VERSION_V2 then
      match r.manifest
      case None => Some(ManifestPresence)
      case Some(m) => if FirstFault(r, KeysOf(m.fields), m.fields).Some? then Some(ManifestInconsistent) else None
    else
      Some(UnsupportedVersion)
  }

  /** `LeafKind::uses_leaf_v2` */
  predicate UsesLeafV2(k: LeafKind) {
    k != CustomerLeaf && k != EntityLeaf
  }

  /** `verify`, up to the tail it shares. */
  function GuardsV1(signed: SignedReport, proof: ProofDocument): Option<Failure> {
    var profile := ProfileOf(signed.report);
    if ReportFault(signed.report).Some? then ReportFault(signed.report)
    else if profile.None? || profile.value.leaf != CustomerLeaf then Some(ProfileRefused)
    else if proof.formatVersion != PROOF_FORMAT_VERSION then Some(UnsupportedVersion)
    else if signed.signature.algorithm != SIGNATURE_ALGORITHM then Some(UnsupportedVersion)
    else if !Admissible(proof.leaf) then Some(Malformed)
    else None
  }

  /** `verify` */
  function VerifyV1(H: HashFn, verifies: SignatureFn, signed: SignedReport, proof: ProofDocument, key: Text)
    : Result<(), Failure>
  {
    match GuardsV1(signed, proof)
    case Some(e) => Err(e)
    case None =>
      VerifyAgainstReport(H, verifies, signed, LeafNode(H, proof.leaf), proof.steps, proof.reportDigest, key)
  }

  /** Every map the profile wants in a leaf is there and not empty. */
  predicate CarriesMaps(leaf: V2Leaf, required: seq<Text>) {
    forall i :: 0 <= i < |required| ==> required[i] in leaf.maps && leaf.maps[required[i]] != map[]
  }

  /** `verify_v2`, up to the tail it shares. */
  function GuardsV2(signed: SignedReport, proof: ProofDocumentV2): Option<Failure> {
    var profile := ProfileOf(signed.report);
    if ReportFault(signed.report).Some? then ReportFault(signed.report)
    else if profile.None? || !UsesLeafV2(profile.value.leaf) then Some(ProfileRefused)
    else if proof.formatVersion != PROOF_FORMAT_VERSION_V2 then Some(UnsupportedVersion)
    else if signed.signature.algorithm != SIGNATURE_ALGORITHM then Some(UnsupportedVersion)
    else if !CarriesMaps(proof.leaf, profile.value.leafMaps) then Some(ProfileRefused)
    else if !Admissible(proof.leaf) then Some(Malformed)
    else None
  }

  /** `verify_v2` */
  function VerifyV2(H: HashFn, verifies: SignatureFn, signed: SignedReport, proof: ProofDocumentV2, key: Text)
    : Result<(), Failure>
  {
    match GuardsV2(signed, proof)
    case Some(e) => Err(e)
    case None =>
      VerifyAgainstReport(H, verifies, signed, LeafNode(H, proof.leaf), proof.steps, proof.reportDigest, key)
  }

  // ----- what is accepted, exactly

  /** Which reports pass: v1 without a manifest, or v2 with one that is true of everything it names. */
  lemma ReportPassesExactly(r: Report)
    ensures ReportFault(r) == None <==>
      || (r.formatVersion == Ascii("canton-solvency-report-v1") && r.manifest.None?)
      || (&& r.formatVersion == Ascii("canton-solvency-report-v2") && r.manifest.Some?
          && var fields := r.manifest.value.fields;
          && forall path :: path in fields ==>
             || path == Ascii("customer_balances") || path == Ascii("customer_identities")
             || exists f :: path == FieldPath(f) && (fields[path] == Published <==> CarriesData(r, f)))
  {
    hide FieldPath, CarriesData, FirstFault, KeysOf;
    assert REPORT_FORMAT_VERSION != REPORT_FORMAT_VERSION_V2 by {
      assert REPORT_FORMAT_VERSION[24] != REPORT_FORMAT_VERSION_V2[24];
    }
    if r.manifest.Some? {
      ManifestPasses(r, r.manifest.value.fields);
    }
  }

  lemma ManifestPasses(r: Report, fields: DisclosureMap)
    ensures FirstFault(r, KeysOf(fields), fields) == None <==>
      forall path :: path in fields ==>
        || path == Ascii("customer_balances") || path == Ascii("customer_identities")
        || exists f :: path == FieldPath(f) && (fields[path] == Published <==> CarriesData(r, f))
  {
    hide FieldPath, CarriesData, KeysOf, PathFault, Ascii;
    var paths := KeysOf(fields);
    assert (forall i :: 0 <= i < |paths| ==> PathFault(r, paths[i], fields[paths[i]]) == None)
      <==> forall path :: path in fields ==> PathFault(r, path, fields[path]) == None;
    forall path | path in fields
      ensures PathFault(r, path, fields[path]) == None <==>
        || path == Ascii("customer_balances") || path == Ascii("customer_identities")
        || exists f :: path == FieldPath(f) && (fields[path] == Published <==> CarriesData(r, f))
    {
      PathPasses(r, path, fields[path]);
    }
  }

  lemma PathPasses(r: Report, path: Text, state: Disclosure)
    ensures PathFault(r, path, state) == None <==>
      || path == Ascii("customer_balances") || path == Ascii("customer_identities")
      || exists f :: path == FieldPath(f) && (state == Published <==> CarriesData(r, f))
  {
    hide FieldPath, CarriesData, Ascii;
    if f :| path == FieldPath(f) {
      OnlyField(f);
    }
  }

  /** What a passing manifest says of a field is what the body holds, field by field. */
  lemma ManifestTellsEachField(r: Report)
    requires ReportFault(r) == None && r.manifest.Some?
    ensures
      var m := r.manifest.value.fields;
      && (Ascii("root_sums") in m ==> (m[Ascii("root_sums")] == Published <==> |r.rootSums| > 0))
      && (Ascii("mark_prices") in m ==> (m[Ascii("mark_prices")] == Published <==> |r.markPrices| > 0))
      && (Ascii("disclosures.bad_debt") in m ==>
            (m[Ascii("disclosures.bad_debt")] == Published <==> |r.disclosures.badDebt| > 0))
      && (Ascii("disclosures.excluded_house_accounts") in m ==>
            (m[Ascii("disclosures.excluded_house_accounts")] == Published
             <==> r.disclosures.excludedHouseAccounts != 0))
      && (Ascii("disclosures.excluded_house_totals") in m ==>
            (m[Ascii("disclosures.excluded_house_totals")] == Published
             <==> |r.disclosures.excludedHouseTotals| > 0))
  {
    hide Ascii, ReportFault;
    forall f | FieldPath(f) in r.manifest.value.fields
      ensures r.manifest.value.fields[FieldPath(f)] == Published <==> CarriesData(r, f)
    {
      AcceptedManifestIsTrue(r, f);
    }
    assert FieldPath(RootSums) == Ascii("root_sums") && FieldPath(MarkPrices) == Ascii("mark_prices");
    assert FieldPath(BadDebt) == Ascii("disclosures.bad_debt");
    assert FieldPath(ExcludedHouseAccounts) == Ascii("disclosures.excluded_house_accounts");
    assert FieldPath(ExcludedHouseTotals) == Ascii("disclosures.excluded_house_totals");
  }

  /** A customer's proof, exactly. */
  lemma VerifyV1Exactly(H: HashFn, verifies: SignatureFn, signed: SignedReport, proof: ProofDocument, key: Text)
    ensures VerifyV1(H, verifies, signed, proof, key).Ok? <==>
      && ReportFault(signed.report) == None
      && ProfileOf(signed.report).Some? && ProfileOf(signed.report).value.leaf == CustomerLeaf
      && proof.formatVersion == Ascii("canton-solvency-proof-v1")
      && signed.signature.algorithm == Ascii("ed25519")
      && Admissible(proof.leaf)
      && VerifyAgainstReport(H, verifies, signed, LeafNode(H, proof.leaf), proof.steps, proof.reportDigest, key).Ok?
  {
    hide ReportFault, ProfileOf, Admissible, LeafNode, VerifyAgainstReport, Ascii;
  }

  /** A v2 proof, exactly: whatever v2 leaves the profile commits to, and the maps it wants in each. */
  lemma VerifyV2Exactly(H: HashFn, verifies: SignatureFn, signed: SignedReport, proof: ProofDocumentV2, key: Text)
    ensures VerifyV2(H, verifies, signed, proof, key).Ok? <==>
      && ReportFault(signed.report) == None
      && ProfileOf(signed.report).Some?
      && var rules := ProfileOf(signed.report).value;
      && rules.leaf != CustomerLeaf && rules.leaf != EntityLeaf
      && proof.formatVersion == Ascii("canton-solvency-proof-v2")
      && signed.signature.algorithm == Ascii("ed25519")
      && (forall name :: name in rules.leafMaps ==> name in proof.leaf.maps && |proof.leaf.maps[name]| > 0)
      && Admissible(proof.leaf)
      && VerifyAgainstReport(H, verifies, signed, LeafNode(H, proof.leaf), proof.steps, proof.reportDigest, key).Ok?
  {
    hide ReportFault, ProfileOf, Admissible, LeafNode, VerifyAgainstReport, Ascii;
    if ProfileOf(signed.report).Some? {
      CarriedByName(proof.leaf, ProfileOf(signed.report).value.leafMaps);
    }
  }

  lemma CarriedByName(leaf: V2Leaf, required: seq<Text>)
    ensures CarriesMaps(leaf, required) <==>
      forall name :: name in required ==> name in leaf.maps && |leaf.maps[name]| > 0
  {
    if CarriesMaps(leaf, required) {
      forall name | name in required ensures name in leaf.maps && |leaf.maps[name]| > 0 {
        var i :| 0 <= i < |required| && required[i] == name;
      }
    }
  }

  /** A customer in the book of an honest publisher is accepted. */
  lemma HonestCustomerAccepted(
    H: HashFn, verifies: SignatureFn, customers: seq<LeafInput>, levels: seq<seq<Node>>, i: nat, signed: SignedReport,
    key: Text)
    requires TreeOver(H, customers, levels) && i < |customers| && customers[i].V1?
    requires AllWritable(PathTo(levels, i, |levels| - 1))
    requires |levels[|levels| - 1]| > 0 && Publishes(H, verifies, signed, key, Root(levels).hash, Root(levels).sums)
    requires ReportFault(signed.report) == None && signed.signature.algorithm == SIGNATURE_ALGORITHM
    requires ProfileOf(signed.report).Some? && ProfileOf(signed.report).value.leaf == CustomerLeaf
    ensures
      VerifyV1(
        H, verifies, signed,
        ProofDocument(
          Ascii("canton-solvency-proof-v1"), ReportDigestHex(H, signed.report), customers[i],
          Written(PathTo(levels, i, |levels| - 1))),
        key).Ok?
  {
    hide ReportFault, ProfileOf, Admissible, LeafNode, VerifyAgainstReport, Ascii, Publishes, AllWritable, PathTo,
      ReportDigestHex;
    HonestProofAccepted(H, verifies, levels, i, signed, key);
  }

  /** What a refused report is told. */
  lemma ReportRefusedExactly(r: Report)
    ensures
      var v1, v2 := Ascii("canton-solvency-report-v1"), Ascii("canton-solvency-report-v2");
      && (ReportFault(r) == Some(UnsupportedVersion) <==> r.formatVersion != v1 && r.formatVersion != v2)
      && (ReportFault(r) == Some(ManifestPresence) <==>
            (r.formatVersion == v1 && r.manifest.Some?) || (r.formatVersion == v2 && r.manifest.None?))
      && (ReportFault(r).Some? ==> ReportFault(r).value in {UnsupportedVersion, ManifestPresence, ManifestInconsistent})
  {
    hide KeysOf, FirstFault;
    assert REPORT_FORMAT_VERSION != REPORT_FORMAT_VERSION_V2 by {
      assert REPORT_FORMAT_VERSION[24] != REPORT_FORMAT_VERSION_V2[24];
    }
  }

  /** A refused proof is told the first check it fails: report, profile, versions, maps, leaf, then the tail. */
  lemma RefusedInOrder(
    H: HashFn, verifies: SignatureFn, signed: SignedReport, one: ProofDocument, two: ProofDocumentV2, key: Text)
    ensures
      var fault, profile := ReportFault(signed.report), ProfileOf(signed.report);
      var r, q := VerifyV1(H, verifies, signed, one, key), VerifyV2(H, verifies, signed, two, key);
      && (fault.Some? ==> r == Err(fault.value) && q == Err(fault.value))
      && (fault.None? && profile.None? ==> r == Err(ProfileRefused) && q == Err(ProfileRefused))
      && (fault.None? && profile.Some? ==>
            && (profile.value.leaf != CustomerLeaf ==> r == Err(ProfileRefused))
            && (profile.value.leaf == CustomerLeaf || profile.value.leaf == EntityLeaf ==> q == Err(ProfileRefused))
            && (&& profile.value.leaf == CustomerLeaf
                && (one.formatVersion != PROOF_FORMAT_VERSION || signed.signature.algorithm != SIGNATURE_ALGORITHM)
                ==> r == Err(UnsupportedVersion))
            && (&& profile.value.leaf != CustomerLeaf && profile.value.leaf != EntityLeaf
                && (two.formatVersion != PROOF_FORMAT_VERSION_V2 || signed.signature.algorithm != SIGNATURE_ALGORITHM)
                ==> q == Err(UnsupportedVersion)))
  {
    hide ReportFault, ProfileOf, Admissible, LeafNode, VerifyAgainstReport, Ascii, CarriesMaps;
  }

  /** One customer's document is a proof under one report, or two report preimages collide. */
  lemma OneDocumentOneReport(
    H: HashFn, verifies: SignatureFn, x: SignedReport, y: SignedReport, proof: ProofDocument, keyX: Text, keyY: Text)
    requires VerifyV1(H, verifies, x, proof, keyX).Ok? && VerifyV1(H, verifies, y, proof, keyY).Ok?
    ensures Collision(H, {ReportPreimage(x.report), ReportPreimage(y.report)}) || SameCovered(x.report, y.report)
  {
    hide VerifyV1, VerifyAgainstReport, ReportPreimage, SameCovered, Collision, LeafNode, Admissible;
    VerifyV1Exactly(H, verifies, x, proof, keyX);
    VerifyV1Exactly(H, verifies, y, proof, keyY);
    var leaf := LeafNode(H, proof.leaf);
    OneProofOneReport(
      H, verifies, x, y, leaf, leaf, proof.steps, proof.steps, proof.reportDigest, keyX, keyY);
  }

  // ----- what acceptance says

  /** An accepted report's manifest tells the truth of every body field it names. */
  lemma AcceptedManifestIsTrue(r: Report, f: ReportField)
    requires ReportFault(r) == None && r.manifest.Some? && FieldPath(f) in r.manifest.value.fields
    ensures r.manifest.value.fields[FieldPath(f)] == Published <==> CarriesData(r, f)
  {
    hide FieldPath, CarriesData, FirstFault;
    DeclarationIsTruth(r, r.manifest.value, f);
  }

  /** The committed leaf an accepted v1 proof stands for. */
  lemma VerifiedV1IsCommitted(
    H: HashFn, verifies: SignatureFn, inputs: seq<LeafInput>, levels: seq<seq<Node>>, signed: SignedReport,
    proof: ProofDocument, key: Text)
    requires TreeOver(H, inputs, levels)
    requires VerifyV1(H, verifies, signed, proof, key).Ok?
    requires Hash32(signed.report.rootHash) == Some(Root(levels).hash)
    ensures Admissible(proof.leaf) && DecodeSteps(proof.steps).Some?
    ensures Fold(H, LeafNode(H, proof.leaf), DecodeSteps(proof.steps).value).Ok?
    ensures
      || Collision(H, TreeHashed(H, inputs, levels) + PathHashed(H, proof.leaf, DecodeSteps(proof.steps).value))
      || exists i :: 0 <= i < |inputs| && SameReading(proof.leaf, inputs[i])
  {
    hide VerifyAgainstReport, TreeHashed, PathHashed, Collision, Hash32, Fold, DecodeSteps, LeafNode, TreeOver,
      SameRoute, SameReading, Admissible, ProfileOf, ReportFault;
    AcceptedIsInTheBook(H, verifies, inputs, levels, signed, proof.leaf, proof.steps, proof.reportDigest, key);
  }

  /**
   Under a profile that wants certain maps in every leaf, an accepted v2 proof stands for a committed
   leaf that carries them: a settled trade with a leg missing cannot be shown.
   */
  lemma VerifiedLeafCarriesMaps(
    H: HashFn, verifies: SignatureFn, inputs: seq<LeafInput>, levels: seq<seq<Node>>, signed: SignedReport,
    proof: ProofDocumentV2, key: Text)
    requires TreeOver(H, inputs, levels)
    requires VerifyV2(H, verifies, signed, proof, key).Ok?
    requires Hash32(signed.report.rootHash) == Some(Root(levels).hash)
    ensures ProfileOf(signed.report).Some?
    ensures Admissible(proof.leaf) && DecodeSteps(proof.steps).Some?
    ensures Fold(H, LeafNode(H, proof.leaf), DecodeSteps(proof.steps).value).Ok?
    ensures
      || Collision(H, TreeHashed(H, inputs, levels) + PathHashed(H, proof.leaf, DecodeSteps(proof.steps).value))
      || exists i :: 0 <= i < |inputs| && SameReading(proof.leaf, inputs[i]) && inputs[i].V2?
                     && CarriesMaps(inputs[i], ProfileOf(signed.report).value.leafMaps)
  {
    hide VerifyAgainstReport, TreeHashed, PathHashed, Collision, Hash32, Fold, DecodeSteps, LeafNode, TreeOver,
      SameRoute, Admissible, ProfileOf, ReportFault, CarriesMaps;
    AcceptedIsInTheBook(H, verifies, inputs, levels, signed, proof.leaf, proof.steps, proof.reportDigest, key);
    forall i | 0 <= i < |inputs| && SameReading(proof.leaf, inputs[i])
      ensures inputs[i].V2? && CarriesMaps(inputs[i], ProfileOf(signed.report).value.leafMaps)
    {
      SameMapsCarried(proof.leaf, inputs[i], ProfileOf(signed.report).value.leafMaps);
    }
  }

  lemma SameMapsCarried(a: V2Leaf, b: LeafInput, required: seq<Text>)
    requires SameReading(a, b) && CarriesMaps(a, required)
    ensures b.V2? && CarriesMaps(b, required)
  {
  }
}
