/**
 The disclosure manifest: which fields it may speak of, and that it agrees with what the report
 carries (solvency-report/src/manifest.rs, verify.rs).
 */
module Manifests {
  import opened Wrappers
  import opened ByteStrings
  import opened Documents

  /** The fields that live in the report body. */
  datatype ReportField = RootSums | MarkPrices | BadDebt | ExcludedHouseAccounts | ExcludedHouseTotals

  const ALL_FIELDS: seq<ReportField> := [RootSums, MarkPrices, BadDebt, ExcludedHouseAccounts, ExcludedHouseTotals]

  function FieldPath(f: ReportField): Text {
    match f
    case RootSums => Ascii("root_sums")
    case MarkPrices => Ascii("mark_prices")
    case BadDebt => Ascii("disclosures.bad_debt")
    case ExcludedHouseAccounts => Ascii("disclosures.excluded_house_accounts")
    case ExcludedHouseTotals => Ascii("disclosures.excluded_house_totals")
  }

  function PathLength(f: ReportField): nat {
    match f
    case RootSums => 9
    case MarkPrices => 11
    case BadDebt => 20
    case ExcludedHouseAccounts => 35
    case ExcludedHouseTotals => 33
  }

  lemma FieldPathInjective(f: ReportField, g: ReportField)
    requires FieldPath(f) == FieldPath(g)
    ensures f == g
  {
    assert |FieldPath(f)| == PathLength(f) && |FieldPath(g)| == PathLength(g);
  }

  lemma OnlyField(f: ReportField)
    ensures forall g :: FieldPath(g) == FieldPath(f) ==> g == f
  {
    forall g | FieldPath(g) == FieldPath(f) ensures g == f {
      FieldPathInjective(g, f);
    }
  }

  lemma DistinctFields(k: nat, i: nat)
    requires k < i < |ALL_FIELDS|
    ensures ALL_FIELDS[k] != ALL_FIELDS[i]
  {
  }

  lemma AllFieldsListed()
    ensures forall f: ReportField :: f in ALL_FIELDS
  {
    forall f: ReportField ensures f in ALL_FIELDS {
      match f
      case RootSums => assert ALL_FIELDS[0] == f;
      case MarkPrices => assert ALL_FIELDS[1] == f;
      case BadDebt => assert ALL_FIELDS[2] == f;
      case ExcludedHouseAccounts => assert ALL_FIELDS[3] == f;
      case ExcludedHouseTotals => assert ALL_FIELDS[4] == f;
    }
  }

  /** `carries_data` */
  predicate CarriesData(r: Report, f: ReportField) {
    match f
    case RootSums => r.rootSums != map[]
    case MarkPrices => r.markPrices != map[]
    case BadDebt => r.disclosures.badDebt != map[]
    case ExcludedHouseAccounts => r.disclosures.excludedHouseAccounts > 0
    case ExcludedHouseTotals => r.disclosures.excludedHouseTotals != map[]
  }

  const CUSTOMER_BALANCES: Text := Ascii("customer_balances")
  const CUSTOMER_IDENTITIES: Text := Ascii("customer_identities")

  /** A field attested through the commitment, of which the body says nothing. */
  predicate IsCommitmentField(path: Text) {
    path == CUSTOMER_BALANCES || path == CUSTOMER_IDENTITIES
  }

  predicate IsResident(path: Text) {
    exists f: ReportField :: path == FieldPath(f)
  }

  datatype ManifestError = UnknownPath(path: Text) | Contradicted(path: Text)

  /** What a declared state claims of the body. */
  predicate Agrees(state: Disclosure, carries: bool) {
    if state == Published then carries else !carries
  }

  /** What is wrong with one declared path. */
  function PathFault(r: Report, path: Text, state: Disclosure): Option<ManifestError> {
    if IsCommitmentField(path) then None
    else if !IsResident(path) then Some(UnknownPath(path))
    else if exists f: ReportField :: path == FieldPath(f) && !Agrees(state, CarriesData(r, f)) then
      Some(Contradicted(path))
    else None
  }

  function FirstFault(r: Report, paths: seq<Text>, m: DisclosureMap): (e: Option<ManifestError>)
    requires forall i :: 0 <= i < |paths| ==> paths[i] in m
    ensures e == None <==> forall i :: 0 <= i < |paths| ==> PathFault(r, paths[i], m[paths[i]]) == None
  {
    if paths == [] then None
    else
      match PathFault(r, paths[0], m[paths[0]])
      case Some(e) => Some(e)
      case None => FirstFault(r, paths[1..], m)
  }

  /** `check_manifest_consistency` */
  method CheckManifest(r: Report, m: Manifest) returns (e: Option<ManifestError>)
    ensures e == FirstFault(r, KeysOf(m.fields), m.fields)
  {
    hide FieldPath, CarriesData, KeysOf, IsCommitmentField;
    var paths := KeysOf(m.fields);
    for i := 0 to |paths|
      invariant FirstFault(r, paths[i..], m.fields) == FirstFault(r, paths, m.fields)
    {
      assert paths[i..][1..] == paths[i + 1..];
      var path, state := paths[i], m.fields[paths[i]];
      if !IsCommitmentField(path) && !IsResident(path) {
        return Some(UnknownPath(path));
      }
      if IsCommitmentField(path) {
        continue;
      }
      var f: ReportField :| path == FieldPath(f);
      OnlyField(f);
      if state == Published && !CarriesData(r, f) {
        return Some(Contradicted(path));
      }
      if state != Published && CarriesData(r, f) {
        return Some(Contradicted(path));
      }
    }
    return None;
  }

  /**
   In a report whose manifest passes, the declaration of a body field is the truth of it: published
   exactly when the body carries data.
   */
  lemma DeclarationIsTruth(r: Report, m: Manifest, f: ReportField)
    requires FirstFault(r, KeysOf(m.fields), m.fields) == None && FieldPath(f) in m.fields
    ensures m.fields[FieldPath(f)] == Published <==> CarriesData(r, f)
  {
    hide FieldPath, CarriesData;
    var path := FieldPath(f);
    assert path in KeysOf(m.fields);
    NotCommitment(f);
    assert IsResident(path);
  }

  lemma NotCommitment(f: ReportField)
    ensures !IsCommitmentField(FieldPath(f))
  {
    assert |CUSTOMER_BALANCES| == 17 && |CUSTOMER_IDENTITIES| == 19;
    assert |FieldPath(f)| == PathLength(f);
  }
}
