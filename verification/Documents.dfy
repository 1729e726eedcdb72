/** The signed documents, field for field (solvency-report/src/document.rs and siblings). */
module Documents {
  import opened Wrappers
  import opened ByteStrings
  import opened LengthPrefix
  import opened Fields

  datatype Disclosure = Published | Committed | Withheld

  datatype Manifest = Manifest(audience: Text, fields: DisclosureMap)

  type DisclosureMap = m: map<Text, Disclosure> | |m| < U64_SIZE

  datatype Disclosures =
    Disclosures(badDebt: AmountMap, excludedHouseAccounts: U64, excludedHouseTotals: AmountMap)

  datatype Report = Report(
    formatVersion: Text,
    profile: Text,
    publisher: Text,
    snapshotTime: Text,
    ledgerOffset: Text,
    rootHash: Text,
    leafCount: U64,
    rootSums: AmountMap,
    markPrices: AmountMap,
    disclosures: Disclosures,
    manifest: Option<Manifest>)

  datatype SignatureBlock = SignatureBlock(algorithm: Text, publicKey: Text, value: Text)

  datatype SignedReport = SignedReport(report: Report, signature: SignatureBlock)

  datatype Anchor = Anchor(
    formatVersion: Text,
    reportDigest: Text,
    rootHash: Text,
    snapshotTime: Text,
    ledgerOffset: Text,
    publisher: Text,
    publisherKey: Text,
    prevAnchor: Option<Text>)

  datatype AttestorRole = Issuer | ThirdParty

  datatype Attestation = Attestation(
    formatVersion: Text, reportDigest: Text, field: Text, role: AttestorRole, attestor: Text, basis: Text)

  datatype PackEntry = PackEntry(name: Text, sha256: Text)

  datatype Pack = Pack(
    formatVersion: Text, publisher: Text, snapshotTime: Text, reportDigest: Text, entries: Listed<PackEntry>)

  datatype SourceKind = Participant | Synchronizer | Party | Template | OffLedger

  datatype Source = Source(id: Text, kind: SourceKind, name: Text, basis: Option<Text>)

  datatype Derivation = Derivation(field: Text, sources: Listed<Text>, derivedBy: Text)

  datatype Provenance = Provenance(
    formatVersion: Text, reportDigest: Text, sources: Listed<Source>, derivations: Listed<Derivation>)

  datatype CaseSpec = CaseSpec(id: Text, expected: Text, requirements: Listed<Text>)

  datatype Entity = Entity(entityId: Text, rootHash: Digest, rootSums: AmountMap)

  const REPORT_FORMAT_VERSION: Text := Ascii("canton-solvency-report-v1")
  const SIGNATURE_ALGORITHM: Text := Ascii("ed25519")
  const REPORT_FORMAT_VERSION_V2: Text := Ascii("canton-solvency-report-v2")
  const ANCHOR_FORMAT_VERSION: Text := Ascii("canton-solvency-anchor-v1")

  function DisclosureText(d: Disclosure): Text {
    match d
    case Published => Ascii("published")
    case Committed => Ascii("committed")
    case Withheld => Ascii("withheld")
  }

  lemma DisclosureTextInjective(d: Disclosure, e: Disclosure)
    requires DisclosureText(d) == DisclosureText(e)
    ensures d == e
  {
    assert d == Published <==> DisclosureText(d)[0] == 112;
    assert e == Published <==> DisclosureText(e)[0] == 112;
    assert d == Withheld <==> DisclosureText(d)[0] == 119;
    assert e == Withheld <==> DisclosureText(e)[0] == 119;
  }

  function RoleText(r: AttestorRole): Text {
    match r
    case Issuer => Ascii("issuer")
    case ThirdParty => Ascii("third-party")
  }

  function KindText(k: SourceKind): Text {
    match k
    case Participant => Ascii("participant")
    case Synchronizer => Ascii("synchronizer")
    case Party => Ascii("party")
    case Template => Ascii("template")
    case OffLedger => Ascii("off-ledger")
  }

  lemma KindTextInjective(k: SourceKind, l: SourceKind)
    requires KindText(k) == KindText(l)
    ensures k == l
  {
    assert |KindText(k)| == KindLength(k) && |KindText(l)| == KindLength(l);
  }

  function KindLength(k: SourceKind): nat {
    match k
    case Participant => 11
    case Synchronizer => 12
    case Party => 5
    case Template => 8
    case OffLedger => 10
  }
}
