/**
 Assurance levels: what kind of evidence stands behind each published figure, established
 independently of what the publisher declares (solvency-report/src/assurance.rs).
 */
module Assurance {
  import opened Wrappers
  import opened ByteStrings
  import opened Amounts
  import opened Balances
  import opened Documents
  import opened Digests
  import opened Leaves
  import opened TreeBinding
  import opened Manifests
  import opened Verify
  import opened Inclusion
  import opened HiddenAmounts
  import SumTrees

  datatype Level =
    | NotDisclosed | ClaimedOnly | IssuerAttested | ThirdPartyAttested | LedgerDerived | CryptographicallyVerified

  const ASSURANCE_FORMAT_VERSION: Text := Ascii("canton-solvency-assurance-v1")
  const ATTESTATION_FORMAT_VERSION: Text := Ascii("canton-solvency-attestation-v1")

  datatype SignedAttestation = SignedAttestation(attestation: Attestation, signature: SignatureBlock)

  datatype Statement = Statement(formatVersion: Text, reportDigest: Text, levels: map<Text, Level>)

  /** What the verifier was handed besides the report. */
  datatype Evidence = Evidence(
    proof: Option<ProofDocument>, anchor: Option<Anchor>, attestations: seq<SignedAttestation>,
    provenance: Option<Provenance>)

  datatype TrustedKeys = TrustedKeys(publisher: Text, attestors: map<Text, AttestorRole>)

  datatype AssuranceFailure =
    | UnsupportedVersion | DigestMismatch | UnknownSigner | BadSignature
    | UnknownField(path: Text) | OverClaimed(path: Text)

  // ----- the rules

  /** `withheld`: declared so, and nothing there. */
  predicate IsWithheld(r: Report, f: ReportField) {
    && r.manifest.Some?
    && FieldPath(f) in r.manifest.value.fields
    && r.manifest.value.fields[FieldPath(f)] == Withheld
    && !CarriesData(r, f)
  }

  /** `anchors` */
  predicate Pins(r: Report, a: Anchor, digest: Text) {
    && a.formatVersion == ANCHOR_FORMAT_VERSION
    && a.reportDigest == digest
    && a.rootHash == r.rootHash
    && a.snapshotTime == r.snapshotTime
    && a.ledgerOffset == r.ledgerOffset
    && a.publisher == r.publisher
  }

  function FindDerivation(ds: seq<Derivation>, path: Text): Option<Derivation> {
    if ds == [] then None
    else if ds[0].field == path then Some(ds[0])
    else FindDerivation(ds[1..], path)
  }

  /** `derives_from_ledger`: the first derivation of the field names an on-ledger source. */
  predicate DerivesFromLedger(p: Provenance, path: Text) {
    match FindDerivation(p.derivations, path)
    case None => false
    case Some(d) =>
      exists i, j ::
        && 0 <= i < |d.sources| && 0 <= j < |p.sources|
        && p.sources[j].id == d.sources[i] && p.sources[j].kind != OffLedger
  }

  function RoleLevel(role: AttestorRole): Level {
    match role
    case Issuer => IssuerAttested
    case ThirdParty => ThirdPartyAttested
  }

  /** An attestation that counts: about this field of this report, by a key trusted for its role. */
  predicate Attests(
    H: HashFn, verifies: SignatureFn, digest: Text, path: Text, s: SignedAttestation, trusted: TrustedKeys)
  {
    var a := s.attestation;
    && a.formatVersion == ATTESTATION_FORMAT_VERSION
    && a.field == path
    && a.reportDigest == digest
    && s.signature.publicKey in trusted.attestors
    && trusted.attestors[s.signature.publicKey] == a.role
    && s.signature.algorithm == SIGNATURE_ALGORITHM
    && verifies(s.signature.publicKey, H(AttestationPreimage(a)), s.signature.value) == Genuine
  }

  /** What the evidence supports for one field. */
  ghost predicate Supports(
    H: HashFn, verifies: SignatureFn, signed: SignedReport, e: Evidence, trusted: TrustedKeys, f: ReportField, l: Level)
  {
    var digest := ReportDigestHex(H, signed.report);
    if IsWithheld(signed.report, f) then
      l == NotDisclosed
    else
      match l
      case NotDisclosed => false
      case ClaimedOnly => true
      case CryptographicallyVerified =>
        f == RootSums && e.proof.Some? && VerifyV1(H, verifies, signed, e.proof.value, trusted.publisher).Ok?
      case LedgerDerived =>
        && e.anchor.Some? && Pins(signed.report, e.anchor.value, digest)
        && e.provenance.Some? && DerivesFromLedger(e.provenance.value, FieldPath(f))
      case IssuerAttested => AttestedBy(H, verifies, digest, FieldPath(f), e.attestations, trusted, Issuer)
      case ThirdPartyAttested => AttestedBy(H, verifies, digest, FieldPath(f), e.attestations, trusted, ThirdParty)
  }

  ghost predicate AttestedBy(
    H: HashFn, verifies: SignatureFn, digest: Text, path: Text, attestations: seq<SignedAttestation>,
    trusted: TrustedKeys, role: AttestorRole)
  {
    exists i ::
      && 0 <= i < |attestations|
      && attestations[i].attestation.role == role
      && Attests(H, verifies, digest, path, attestations[i], trusted)
  }

  // ----- the source's loops

  /** One field's turn in `establish`. */
  method EstablishField(
    H: HashFn, verifies: SignatureFn, signed: SignedReport, e: Evidence, trusted: TrustedKeys, f: ReportField)
    returns (levels: set<Level>)
    ensures forall l :: l in levels <==> Supports(H, verifies, signed, e, trusted, f, l)
  {
    hide IsWithheld, Pins, DerivesFromLedger, FieldPath, ReportDigestHex, VerifyV1, AttestationPreimage;
    var digest := ReportDigestHex(H, signed.report);
    levels := {};
    if IsWithheld(signed.report, f) {
      levels := levels + {NotDisclosed};
      return;
    }
    levels := levels + {ClaimedOnly};
    if f == RootSums && e.proof.Some? && VerifyV1(H, verifies, signed, e.proof.value, trusted.publisher).Ok? {
      levels := levels + {CryptographicallyVerified};
    }
    if e.anchor.Some? && Pins(signed.report, e.anchor.value, digest)
       && e.provenance.Some? && DerivesFromLedger(e.provenance.value, FieldPath(f)) {
      levels := levels + {LedgerDerived};
    }
    ghost var base := levels;
    for i := 0 to |e.attestations|
      invariant forall l :: l in levels <==>
        || l in base
        || (exists k :: 0 <= k < i && l == RoleLevel(e.attestations[k].attestation.role)
              && Attests(H, verifies, digest, FieldPath(f), e.attestations[k], trusted))
    {
      var a, signature := e.attestations[i].attestation, e.attestations[i].signature;
      if a.formatVersion != ATTESTATION_FORMAT_VERSION || a.field != FieldPath(f) || a.reportDigest != digest {
        continue;
      }
      if signature.publicKey !in trusted.attestors || trusted.attestors[signature.publicKey] != a.role {
        continue;
      }
      if signature.algorithm != SIGNATURE_ALGORITHM {
        continue;
      }
      if verifies(signature.publicKey, H(AttestationPreimage(a)), signature.value) == Genuine {
        levels := levels + {RoleLevel(a.role)};
      }
    }
  }

  /** `establish` */
  method Establish(H: HashFn, verifies: SignatureFn, signed: SignedReport, e: Evidence, trusted: TrustedKeys)
    returns (out: map<Text, set<Level>>)
    ensures forall f: ReportField :: FieldPath(f) in out
    ensures forall path :: path in out ==> exists f :: path == FieldPath(f)
    ensures forall f: ReportField, l :: l in out[FieldPath(f)] <==> Supports(H, verifies, signed, e, trusted, f, l)
  {
    hide Supports, FieldPath;
    out := map[];
    for i := 0 to |ALL_FIELDS|
      invariant forall k :: 0 <= k < i ==> FieldPath(ALL_FIELDS[k]) in out
      invariant forall path :: path in out ==> exists k :: 0 <= k < i && path == FieldPath(ALL_FIELDS[k])
      invariant forall k :: 0 <= k < i ==>
        forall l :: l in out[FieldPath(ALL_FIELDS[k])] <==> Supports(H, verifies, signed, e, trusted, ALL_FIELDS[k], l)
    {
      var f := ALL_FIELDS[i];
      var levels := EstablishField(H, verifies, signed, e, trusted, f);
      forall k | 0 <= k < i ensures FieldPath(ALL_FIELDS[k]) != FieldPath(f) {
        DistinctFields(k, i);
        if FieldPath(ALL_FIELDS[k]) == FieldPath(f) {
          FieldPathInjective(ALL_FIELDS[k], f);
        }
      }
      out := out[FieldPath(f) := levels];
    }
    forall f: ReportField
      ensures FieldPath(f) in out
      ensures forall l :: l in out[FieldPath(f)] <==> Supports(H, verifies, signed, e, trusted, f, l)
    {
      AllFieldsListed();
      assert f in ALL_FIELDS;
      var k :| 0 <= k < |ALL_FIELDS| && ALL_FIELDS[k] == f;
      assert FieldPath(ALL_FIELDS[k]) in out;
    }
  }

  /** The report is the one named and the trusted publisher's. */
  function Unauthenticated(H: HashFn, verifies: SignatureFn, signed: SignedReport, s: Statement, trusted: TrustedKeys)
    : (r: Option<AssuranceFailure>)
    ensures r.Some? ==> !r.value.UnknownField? && !r.value.OverClaimed?
  {
    if s.formatVersion != ASSURANCE_FORMAT_VERSION then Some(AssuranceFailure.UnsupportedVersion)
    else if s.reportDigest != ReportDigestHex(H, signed.report) then Some(AssuranceFailure.DigestMismatch)
    else if signed.signature.publicKey != trusted.publisher then Some(AssuranceFailure.UnknownSigner)
    else if verifies(trusted.publisher, H(ReportPreimage(signed.report)), signed.signature.value) != Genuine then
      Some(AssuranceFailure.BadSignature)
    else None
  }

  /** Which statements are looked at: of their own format, about this report, which the publisher signed. */
  lemma AuthenticExactly(
    H: HashFn, verifies: SignatureFn, signed: SignedReport, s: Statement, trusted: TrustedKeys)
    ensures Unauthenticated(H, verifies, signed, s, trusted) == None <==>
      && s.formatVersion == Ascii("canton-solvency-assurance-v1")
      && s.reportDigest == Hex(H(ReportPreimage(signed.report)))
      && signed.signature.publicKey == trusted.publisher
      && verifies(trusted.publisher, H(ReportPreimage(signed.report)), signed.signature.value) == Genuine
  {
    hide ReportPreimage, Hex, Ascii;
  }

  /** Every declared level is for a known field, and supported. */
  ghost predicate Substantiated(
    H: HashFn, verifies: SignatureFn, signed: SignedReport, levels: map<Text, Level>, e: Evidence, trusted: TrustedKeys)
  {
    forall path :: path in levels ==>
      exists f :: path == FieldPath(f) && Supports(H, verifies, signed, e, trusted, f, levels[path])
  }

  /** `verify_assurance` */
  method VerifyAssurance(
    H: HashFn, verifies: SignatureFn, signed: SignedReport, s: Statement, e: Evidence, trusted: TrustedKeys)
    returns (r: Result<map<Text, Level>, AssuranceFailure>)
    ensures r.Ok? <==>
      && Unauthenticated(H, verifies, signed, s, trusted) == None
      && Substantiated(H, verifies, signed, s.levels, e, trusted)
    ensures r.Ok? ==> r.value == s.levels
    ensures Unauthenticated(H, verifies, signed, s, trusted).Some? ==>
      r == Err(Unauthenticated(H, verifies, signed, s, trusted).value)
    ensures r.Err? && r.error.UnknownField? ==> r.error.path in s.levels && forall f :: FieldPath(f) != r.error.path
    ensures r.Err? && r.error.OverClaimed? ==>
      && r.error.path in s.levels
      && exists f ::
           FieldPath(f) == r.error.path && !Supports(H, verifies, signed, e, trusted, f, s.levels[r.error.path])
  {
    hide Supports, FieldPath, ReportDigestHex, ReportPreimage;
    if s.formatVersion != ASSURANCE_FORMAT_VERSION {
      return Err(AssuranceFailure.UnsupportedVersion);
    }
    if s.reportDigest != ReportDigestHex(H, signed.report) {
      return Err(AssuranceFailure.DigestMismatch);
    }
    if signed.signature.publicKey != trusted.publisher {
      return Err(AssuranceFailure.UnknownSigner);
    }
    if verifies(trusted.publisher, H(ReportPreimage(signed.report)), signed.signature.value) != Genuine {
      return Err(AssuranceFailure.BadSignature);
    }
    var unknown := FirstUnknown(s.levels);
    if unknown.Some? {
      return Err(UnknownField(unknown.value));
    }
    var established := Establish(H, verifies, signed, e, trusted);
    r := AcceptLevels(s.levels, established);
    forall path, f | path in s.levels && path == FieldPath(f)
      ensures s.levels[path] in established[path] <==> Supports(H, verifies, signed, e, trusted, f, s.levels[path])
    {
    }
    if r.Ok? {
      forall path | path in s.levels
        ensures exists f :: path == FieldPath(f) && Supports(H, verifies, signed, e, trusted, f, s.levels[path])
      {
        var f :| path == FieldPath(f);
      }
    } else {
      var f :| FieldPath(f) == r.error.path;
      OnlyField(f);
    }
  }

  /** The first pass: a declared field this verifier has no way to substantiate. */
  method FirstUnknown(levels: map<Text, Level>) returns (r: Option<Text>)
    ensures r.None? <==> forall path :: path in levels ==> IsResident(path)
    ensures r.Some? ==> r.value in levels && !IsResident(r.value)
  {
    hide IsResident;
    var names := KeysOf(levels);
    for i := 0 to |names|
      invariant forall k :: 0 <= k < i ==> IsResident(names[k])
    {
      if !IsResident(names[i]) {
        assert names[i] in names;
        return Some(names[i]);
      }
    }
    assert forall path :: path in levels ==> path in names;
    return None;
  }

  /** The second pass: every declared level among the established ones. */
  method AcceptLevels(levels: map<Text, Level>, established: map<Text, set<Level>>)
    returns (r: Result<map<Text, Level>, AssuranceFailure>)
    requires forall path :: path in levels ==> path in established
    ensures r.Ok? <==> forall path :: path in levels ==> levels[path] in established[path]
    ensures r.Ok? ==> r.value == levels
    ensures r.Err? ==>
      r.error.OverClaimed? && r.error.path in levels && levels[r.error.path] !in established[r.error.path]
  {
    var names := KeysOf(levels);
    assert forall i :: 0 <= i < |names| ==> names[i] in names;
    var accepted: map<Text, Level> := map[];
    for i := 0 to |names|
      invariant forall k :: 0 <= k < i ==> names[k] in accepted
      invariant forall path :: path in accepted ==>
        path in levels && accepted[path] == levels[path] && levels[path] in established[path]
    {
      if levels[names[i]] !in established[names[i]] {
        return Err(OverClaimed(names[i]));
      }
      accepted := accepted[names[i] := levels[names[i]]];
    }
    assert forall path :: path in levels ==> path in names && path in accepted;
    return Ok(accepted);
  }

  // ----- each level, by what the evidence says

  /**
   An attested level is established for a field exactly when the field is not withheld and some
   attestation in the evidence is of this field and this report, in its own format, by a key trusted
   for the role it states, under a genuine signature.
   */
  lemma AttestedExactly(
    H: HashFn, verifies: SignatureFn, signed: SignedReport, e: Evidence, trusted: TrustedKeys, f: ReportField,
    role: AttestorRole)
    ensures
      Supports(H, verifies, signed, e, trusted, f, if role == Issuer then IssuerAttested else ThirdPartyAttested) <==>
        && !IsWithheld(signed.report, f)
        && exists i ::
             && 0 <= i < |e.attestations|
             && var a, signature := e.attestations[i].attestation, e.attestations[i].signature;
             && a.role == role
             && a.formatVersion == Ascii("canton-solvency-attestation-v1")
             && a.field == FieldPath(f)
             && a.reportDigest == Hex(H(ReportPreimage(signed.report)))
             && signature.publicKey in trusted.attestors && trusted.attestors[signature.publicKey] == role
             && signature.algorithm == Ascii("ed25519")
             && verifies(signature.publicKey, H(AttestationPreimage(a)), signature.value) == Genuine
  {
    hide IsWithheld, FieldPath, ReportPreimage, AttestationPreimage, Hex, Ascii;
  }

  /** Attestations of other fields, or of other reports, establish no attested level. */
  lemma OthersAttestNothing(
    H: HashFn, verifies: SignatureFn, signed: SignedReport, e: Evidence, trusted: TrustedKeys, f: ReportField)
    requires forall i :: 0 <= i < |e.attestations| ==>
      || e.attestations[i].attestation.field != FieldPath(f)
      || e.attestations[i].attestation.reportDigest != Hex(H(ReportPreimage(signed.report)))
    ensures !Supports(H, verifies, signed, e, trusted, f, IssuerAttested)
    ensures !Supports(H, verifies, signed, e, trusted, f, ThirdPartyAttested)
  {
    hide IsWithheld, FieldPath, ReportPreimage, AttestationPreimage, Hex, Ascii, Supports;
    AttestedExactly(H, verifies, signed, e, trusted, f, Issuer);
    AttestedExactly(H, verifies, signed, e, trusted, f, ThirdParty);
  }

  /** The first derivation of a path names some source, and some source of that name is on the ledger. */
  ghost predicate DerivedFirst(p: Provenance, path: Text, k: nat) {
    && k < |p.derivations| && p.derivations[k].field == path
    && (forall j :: 0 <= j < k ==> p.derivations[j].field != path)
    && exists i, j ::
         && 0 <= i < |p.derivations[k].sources| && 0 <= j < |p.sources|
         && p.sources[j].id == p.derivations[k].sources[i] && p.sources[j].kind != OffLedger
  }

  lemma {:induction false} FindsTheFirst(ds: seq<Derivation>, path: Text)
    ensures FindDerivation(ds, path).None? <==> forall k :: 0 <= k < |ds| ==> ds[k].field != path
    ensures forall k ::
      0 <= k < |ds| && ds[k].field == path && (forall j :: 0 <= j < k ==> ds[j].field != path) ==>
        FindDerivation(ds, path) == Some(ds[k])
  {
    if ds != [] {
      FindsTheFirst(ds[1..], path);
      forall k | 0 <= k < |ds| && ds[k].field == path && (forall j :: 0 <= j < k ==> ds[j].field != path)
        ensures FindDerivation(ds, path) == Some(ds[k])
      {
        if k > 0 {
          assert ds[1..][k - 1] == ds[k];
          assert forall j :: 0 <= j < k - 1 ==> ds[1..][j] == ds[j + 1];
        }
      }
      if ds[0].field != path && forall k :: 0 <= k < |ds[1..]| ==> ds[1..][k].field != path {
        assert forall k :: 0 < k < |ds| ==> ds[k] == ds[1..][k - 1];
      }
    }
  }

  lemma DerivesByTheFirst(p: Provenance, path: Text)
    ensures DerivesFromLedger(p, path) <==> exists k :: DerivedFirst(p, path, k)
  {
    hide FindDerivation;
    FindsTheFirst(p.derivations, path);
    if DerivesFromLedger(p, path) {
      var k := FirstOf(p.derivations, path);
      assert DerivedFirst(p, path, k);
    }
  }

  lemma FirstOf(ds: seq<Derivation>, path: Text) returns (k: nat)
    requires exists i :: 0 <= i < |ds| && ds[i].field == path
    ensures k < |ds| && ds[k].field == path && forall j :: 0 <= j < k ==> ds[j].field != path
  {
    k := 0;
    while ds[k].field != path
      invariant k < |ds| && forall j :: 0 <= j < k ==> ds[j].field != path
      decreases |ds| - k
    {
      k := k + 1;
    }
  }

  /** A figure is ledger-derived exactly under an anchor of this very report and a graph that says so. */
  lemma LedgerDerivedExactly(
    H: HashFn, verifies: SignatureFn, signed: SignedReport, e: Evidence, trusted: TrustedKeys, f: ReportField)
    ensures Supports(H, verifies, signed, e, trusted, f, LedgerDerived) <==>
      && !IsWithheld(signed.report, f)
      && e.anchor.Some? && e.provenance.Some?
      && var a, r := e.anchor.value, signed.report;
      && a.formatVersion == Ascii("canton-solvency-anchor-v1")
      && a.reportDigest == Hex(H(ReportPreimage(r)))
      && a.rootHash == r.rootHash && a.snapshotTime == r.snapshotTime
      && a.ledgerOffset == r.ledgerOffset && a.publisher == r.publisher
      && exists k :: DerivedFirst(e.provenance.value, FieldPath(f), k)
  {
    hide IsWithheld, FieldPath, ReportPreimage, Hex, Ascii, DerivesFromLedger, DerivedFirst;
    if e.provenance.Some? {
      DerivesByTheFirst(e.provenance.value, FieldPath(f));
    }
  }

  /** Only the totals are bound into the tree, and only an accepted proof shows it. */
  lemma VerifiedExactly(
    H: HashFn, verifies: SignatureFn, signed: SignedReport, e: Evidence, trusted: TrustedKeys, f: ReportField)
    ensures Supports(H, verifies, signed, e, trusted, f, CryptographicallyVerified) <==>
      && !IsWithheld(signed.report, f)
      && f == RootSums
      && e.proof.Some? && VerifyV1(H, verifies, signed, e.proof.value, trusted.publisher).Ok?
  {
    hide IsWithheld, VerifyV1;
  }

  // ----- more evidence never removes a level

  /** Every piece of evidence in `e` is in `more`. */
  ghost predicate NoLess(e: Evidence, more: Evidence) {
    && (e.proof.Some? ==> more.proof == e.proof)
    && (e.anchor.Some? ==> more.anchor == e.anchor)
    && (e.provenance.Some? ==> more.provenance == e.provenance)
    && forall i :: 0 <= i < |e.attestations| ==> e.attestations[i] in more.attestations
  }

  /** The same publisher, and every key still trusted for what it was. */
  ghost predicate TrustsNoLess(t: TrustedKeys, more: TrustedKeys) {
    && t.publisher == more.publisher
    && forall k :: k in t.attestors ==> k in more.attestors && more.attestors[k] == t.attestors[k]
  }

  lemma AttestedStays(
    H: HashFn, verifies: SignatureFn, digest: Text, path: Text,
    few: seq<SignedAttestation>, many: seq<SignedAttestation>, t: TrustedKeys, more: TrustedKeys, role: AttestorRole)
    requires AttestedBy(H, verifies, digest, path, few, t, role)
    requires TrustsNoLess(t, more) && forall i :: 0 <= i < |few| ==> few[i] in many
    ensures AttestedBy(H, verifies, digest, path, many, more, role)
  {
    hide AttestationPreimage;
    var i :| 0 <= i < |few| && few[i].attestation.role == role && Attests(H, verifies, digest, path, few[i], t);
    assert few[i] in many;
    var j :| 0 <= j < |many| && many[j] == few[i];
    assert Attests(H, verifies, digest, path, many[j], more);
  }

  lemma LevelStays(
    H: HashFn, verifies: SignatureFn, signed: SignedReport, e: Evidence, more: Evidence,
    t: TrustedKeys, wider: TrustedKeys, f: ReportField, l: Level)
    requires Supports(H, verifies, signed, e, t, f, l)
    requires NoLess(e, more) && TrustsNoLess(t, wider)
    ensures Supports(H, verifies, signed, more, wider, f, l)
  {
    hide IsWithheld, Pins, DerivesFromLedger, FieldPath, ReportDigestHex, AttestedBy;
    if !IsWithheld(signed.report, f) && (l == IssuerAttested || l == ThirdPartyAttested) {
      AttestedStays(
        H, verifies, ReportDigestHex(H, signed.report), FieldPath(f), e.attestations, more.attestations,
        t, wider, if l == IssuerAttested then Issuer else ThirdParty);
    }
  }

  /** An accepted statement stays accepted under more evidence and wider trust. */
  lemma AcceptedStays(
    H: HashFn, verifies: SignatureFn, signed: SignedReport, s: Statement, e: Evidence, more: Evidence,
    t: TrustedKeys, wider: TrustedKeys)
    requires Unauthenticated(H, verifies, signed, s, t) == None && Substantiated(H, verifies, signed, s.levels, e, t)
    requires NoLess(e, more) && TrustsNoLess(t, wider)
    ensures Unauthenticated(H, verifies, signed, s, wider) == None
    ensures Substantiated(H, verifies, signed, s.levels, more, wider)
  {
    hide Supports, FieldPath, ReportDigestHex, ReportPreimage;
    forall path | path in s.levels
      ensures exists f :: path == FieldPath(f) && Supports(H, verifies, signed, more, wider, f, s.levels[path])
    {
      var f :| path == FieldPath(f) && Supports(H, verifies, signed, e, t, f, s.levels[path]);
      LevelStays(H, verifies, signed, e, more, t, wider, f, s.levels[path]);
    }
  }

  /** Nothing escapes: a withheld field supports not-disclosed alone, any other claimed-only and never that. */
  lemma WithheldExactly(
    H: HashFn, verifies: SignatureFn, signed: SignedReport, e: Evidence, t: TrustedKeys, f: ReportField)
    ensures Supports(H, verifies, signed, e, t, f, NotDisclosed) <==> IsWithheld(signed.report, f)
    ensures Supports(H, verifies, signed, e, t, f, ClaimedOnly) <==> !IsWithheld(signed.report, f)
    ensures IsWithheld(signed.report, f) ==> forall l :: Supports(H, verifies, signed, e, t, f, l) ==> l == NotDisclosed
    ensures CarriesData(signed.report, f) ==> !Supports(H, verifies, signed, e, t, f, NotDisclosed)
  {
  }

  /** In a report a verifier accepts, saying a body field is withheld is enough: it then is. */
  lemma DeclarationDecides(r: Report, f: ReportField)
    requires ReportFault(r) == None && r.manifest.Some? && FieldPath(f) in r.manifest.value.fields
    ensures IsWithheld(r, f) <==> r.manifest.value.fields[FieldPath(f)] == Withheld
  {
    hide FieldPath, CarriesData, ReportFault;
    AcceptedManifestIsTrue(r, f);
  }

  /** One signature attests one thing: an attestor who signed for a field has not signed for another. */
  lemma SignatureAttestsOneField(H: HashFn, a: Attestation, b: Attestation)
    requires H(AttestationPreimage(a)) == H(AttestationPreimage(b))
    ensures a == b || Collision(H, {AttestationPreimage(a), AttestationPreimage(b)})
  {
    hide AttestationPreimage;
    if AttestationPreimage(a) == AttestationPreimage(b) {
      AttestationBound(a, b);
    } else {
      var S := {AttestationPreimage(a), AttestationPreimage(b)};
      assert AttestationPreimage(a) in S && AttestationPreimage(b) in S;
    }
  }

  // ----- what the strongest level does not mean

  /**
   An accepted proof establishes the published totals as cryptographically verified. The totals of
   `ShortTotalsVerify` are, though an amount is owed that they leave out.
   */
  lemma ShortTotalsGraded(H: HashFn, verifies: SignatureFn, u: Amount, v: Amount)
    returns (levels: seq<seq<Node>>, name: Text, h: Holdings)
    ensures Commits(H, [FirstCustomer(h), SecondCustomer(h)], levels)
    ensures |levels| == 2 && |levels[1]| == 1 && At(SumTrees.Total(levels[0]), h.a) == v && At(Only(h.c, h.u), h.a) == 0
    ensures Admissible(FirstCustomer(h)) && Admissible(SecondCustomer(h))
    ensures forall s: SignatureBlock, attestors ::
      var report := ShortReport(SumTrees.Root(levels).hash, h);
      s.algorithm == SIGNATURE_ALGORITHM && verifies(s.publicKey, H(ReportPreimage(report)), s.value) == Genuine ==>
        Supports(
          H, verifies, SignedReport(report, s), Evidence(Some(ShortProof(H, report, h, name)), None, [], None),
          TrustedKeys(s.publicKey, attestors), RootSums, CryptographicallyVerified)
  {
    hide LeafNode, LeafSums, FirstCustomer, SecondCustomer, Commits, SumTrees.Total, Only, Admissible, ReportPreimage,
      VerifyV1, ReportDigestHex, ShortProof, FieldPath;
    levels, name, h := ShortTotalsVerify(H, verifies, u, v);
  }
}
