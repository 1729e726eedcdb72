/** Pairing custody against liabilities, asset by asset (solvency-report/src/coverage.rs). */
module Coverage {
  import opened Wrappers
  import opened ByteStrings
  import opened Amounts
  import opened Balances
  import opened LengthPrefix
  import opened Documents
  import opened Digests
  import opened Leaves
  import opened SumTrees
  import opened Instants
  import opened Custody
  import Verify

  datatype CoverageStatement = CoverageStatement(
    formatVersion: Text, custodyReportDigest: Text, liabilitiesReportDigest: Text, custodyBasis: Text)

  datatype AssetCoverage = AssetCoverage(asset: Text, held: Amount, owed: Amount)

  datatype CoverageFailure =
    | UnsupportedVersion
    | Profile
    | DigestMismatch
    | UnknownSigner
    | BadSignature
    | Malformed
    | TemporalMismatch

  const COVERAGE_FORMAT_VERSION: Text := Ascii("canton-solvency-coverage-v1")
  const LIABILITIES_PROFILE: Text := Ascii("solvency.liabilities")

  /** `AssetCoverage::covered` */
  predicate Covered(a: AssetCoverage) {
    a.held >= a.owed
  }

  /** `AssetCoverage::shortfall` */
  function Shortfall(a: AssetCoverage): nat {
    if a.owed >= a.held then a.owed - a.held else 0
  }

  /** `CoverageOutcome::fully_covered` */
  predicate FullyCovered(rows: seq<AssetCoverage>) {
    forall i :: 0 <= i < |rows| ==> Covered(rows[i])
  }

  /** `CoverageOutcome::shortfalls` */
  function Shortfalls(rows: seq<AssetCoverage>): seq<AssetCoverage> {
    if rows == [] then []
    else (if Covered(rows[0]) then [] else [rows[0]]) + Shortfalls(rows[1..])
  }

  function HeldAmount(custody: Sums, asset: Bytes): Amount {
    var key := Qualified(HELD, asset);
    if key in custody then custody[key] else 0
  }

  /** One row for every asset owed, in order: nothing owed is left out, nothing else is asked. */
  predicate RowsFor(rows: seq<AssetCoverage>, custody: Sums, owed: AmountMap) {
    && |rows| == |owed|
    && forall i :: 0 <= i < |rows| ==>
      && rows[i].asset == KeysOf(owed)[i] && rows[i].asset in owed
      && rows[i] == AssetCoverage(rows[i].asset, HeldAmount(custody, rows[i].asset), owed[rows[i].asset])
  }

  function CheckSignature(H: HashFn, verifies: Verify.SignatureFn, signed: SignedReport, key: Text)
    : Option<CoverageFailure>
  {
    if signed.signature.publicKey != key then Some(UnknownSigner)
    else
      match verifies(key, H(ReportPreimage(signed.report)), signed.signature.value)
      case Forged => Some(BadSignature)
      case Unreadable => Some(Malformed)
      case Genuine => None
  }

  /** The guards, in the order the source takes them. */
  function CoverageFault(
    H: HashFn, verifies: Verify.SignatureFn, custody: SignedReport, liabilities: SignedReport,
    statement: CoverageStatement, custodyKey: Text, liabilitiesKey: Text, maxSkew: nat): Option<CoverageFailure>
  {
    if statement.formatVersion != COVERAGE_FORMAT_VERSION then Some(CoverageFailure.UnsupportedVersion)
    else if custody.report.profile != CUSTODY_PROFILE then Some(Profile)
    else if liabilities.report.profile != LIABILITIES_PROFILE then Some(Profile)
    else if ReportDigestHex(H, custody.report) != statement.custodyReportDigest then Some(DigestMismatch)
    else if ReportDigestHex(H, liabilities.report) != statement.liabilitiesReportDigest then Some(DigestMismatch)
    else if CheckSignature(H, verifies, custody, custodyKey).Some? then CheckSignature(H, verifies, custody, custodyKey)
    else if CheckSignature(H, verifies, liabilities, liabilitiesKey).Some? then
      CheckSignature(H, verifies, liabilities, liabilitiesKey)
    else
      match Skew(custody.report.snapshotTime, liabilities.report.snapshotTime)
      case None => Some(Malformed)
      case Some(apart) => if apart > maxSkew then Some(TemporalMismatch) else None
  }

  /**
   What an accepted pairing is, exactly: a statement that names a custody and a liabilities report by
   digest, each signed by the key its reader trusts, as of moments no further apart than allowed.
   */
  lemma FaultlessExactly(
    H: HashFn, verifies: Verify.SignatureFn, custody: SignedReport, liabilities: SignedReport,
    statement: CoverageStatement, custodyKey: Text, liabilitiesKey: Text, maxSkew: nat)
    ensures
      CoverageFault(H, verifies, custody, liabilities, statement, custodyKey, liabilitiesKey, maxSkew) == None <==>
        && statement.formatVersion == Ascii("canton-solvency-coverage-v1")
        && custody.report.profile == Ascii("coverage.custody")
        && liabilities.report.profile == Ascii("solvency.liabilities")
        && statement.custodyReportDigest == Hex(H(ReportPreimage(custody.report)))
        && statement.liabilitiesReportDigest == Hex(H(ReportPreimage(liabilities.report)))
        && custody.signature.publicKey == custodyKey
        && verifies(custodyKey, H(ReportPreimage(custody.report)), custody.signature.value) == Verify.Genuine
        && liabilities.signature.publicKey == liabilitiesKey
        && verifies(liabilitiesKey, H(ReportPreimage(liabilities.report)), liabilities.signature.value)
             == Verify.Genuine
        && Skew(custody.report.snapshotTime, liabilities.report.snapshotTime).Some?
        && Skew(custody.report.snapshotTime, liabilities.report.snapshotTime).value <= maxSkew
  {
    hide ReportPreimage, Hex, Ascii, Skew;
  }

  /** One report's signature, under the key its reader trusts. */
  method VerifyReportSignature(H: HashFn, verifies: Verify.SignatureFn, signed: SignedReport, key: Text)
    returns (e: Option<CoverageFailure>)
    ensures e == CheckSignature(H, verifies, signed, key)
  {
    hide ReportPreimage;
    if signed.signature.publicKey != key {
      return Some(UnknownSigner);
    }
    var check := verifies(key, H(ReportPreimage(signed.report)), signed.signature.value);
    match check {
      case Forged => return Some(BadSignature);
      case Unreadable => return Some(Malformed);
      case Genuine => return None;
    }
  }

  /** `verify_coverage` */
  method VerifyCoverage(
    H: HashFn, verifies: Verify.SignatureFn, custody: SignedReport, liabilities: SignedReport,
    statement: CoverageStatement, custodyKey: Text, liabilitiesKey: Text, maxSkew: nat)
    returns (r: Result<seq<AssetCoverage>, CoverageFailure>)
    ensures
      var fault := CoverageFault(H, verifies, custody, liabilities, statement, custodyKey, liabilitiesKey, maxSkew);
      match r
      case Err(e) => fault == Some(e)
      case Ok(rows) => fault == None && RowsFor(rows, custody.report.rootSums, liabilities.report.rootSums)
  {
    hide KeysOf, ReportDigestHex, ReportPreimage, Skew, HeldAmount;
    if statement.formatVersion != COVERAGE_FORMAT_VERSION {
      return Err(CoverageFailure.UnsupportedVersion);
    }
    if custody.report.profile != CUSTODY_PROFILE || liabilities.report.profile != LIABILITIES_PROFILE {
      return Err(Profile);
    }
    if ReportDigestHex(H, custody.report) != statement.custodyReportDigest
       || ReportDigestHex(H, liabilities.report) != statement.liabilitiesReportDigest {
      return Err(DigestMismatch);
    }
    var unsigned := VerifyReportSignature(H, verifies, custody, custodyKey);
    if unsigned.Some? {
      return Err(unsigned.value);
    }
    unsigned := VerifyReportSignature(H, verifies, liabilities, liabilitiesKey);
    if unsigned.Some? {
      return Err(unsigned.value);
    }
    var apart := Skew(custody.report.snapshotTime, liabilities.report.snapshotTime);
    if apart.None? {
      return Err(Malformed);
    }
    if apart.value > maxSkew {
      return Err(TemporalMismatch);
    }
    var owed := liabilities.report.rootSums;
    var names := KeysOf(owed);
    var rows: seq<AssetCoverage> := [];
    for i := 0 to |names|
      invariant |rows| == i
      invariant forall k :: 0 <= k < i ==>
        && names[k] in owed
        && rows[k] == AssetCoverage(names[k], HeldAmount(custody.report.rootSums, names[k]), owed[names[k]])
    {
      assert names[i] in names;
      rows := rows + [AssetCoverage(names[i], HeldAmount(custody.report.rootSums, names[i]), owed[names[i]])];
    }
    return Ok(rows);
  }

  /** Fully covered is per-asset dominance over every asset there is, owed or not. */
  lemma FullyCoveredIsDominance(rows: seq<AssetCoverage>, custody: Sums, owed: AmountMap)
    requires RowsFor(rows, custody, owed)
    ensures FullyCovered(rows) <==> forall asset :: At(owed, asset) <= At(custody, Qualified(HELD, asset))
    ensures FullyCovered(rows) <==> Shortfalls(rows) == []
  {
    hide KeysOf, Qualified;
    forall asset: Text | asset in owed
      ensures exists i :: 0 <= i < |rows| && rows[i].asset == asset
    {
      assert asset in KeysOf(owed);
    }
    if FullyCovered(rows) {
      forall asset ensures At(owed, asset) <= At(custody, Qualified(HELD, asset)) {
        if asset in owed {
          var i :| 0 <= i < |rows| && rows[i].asset == asset;
          assert Covered(rows[i]);
        }
      }
    } else {
      var i :| 0 <= i < |rows| && !Covered(rows[i]);
      assert At(owed, rows[i].asset) > At(custody, Qualified(HELD, rows[i].asset));
    }
    ShortfallsAreUncovered(rows);
  }

  lemma {:induction false} ShortfallsAreUncovered(rows: seq<AssetCoverage>)
    ensures forall a :: a in Shortfalls(rows) <==> a in rows && !Covered(a)
    ensures Shortfalls(rows) == [] <==> FullyCovered(rows)
    ensures forall a :: a in Shortfalls(rows) ==> a.held + Shortfall(a) == a.owed
    ensures forall a :: a in rows && Covered(a) ==> Shortfall(a) == 0
  {
    if rows != [] {
      ShortfallsAreUncovered(rows[1..]);
      assert rows == [rows[0]] + rows[1..];
    }
  }

  /** And in the order of the rows. */
  lemma {:induction false} ShortfallsInOrder(before: seq<AssetCoverage>, rows: seq<AssetCoverage>)
    ensures Shortfalls(before + rows) == Shortfalls(before) + Shortfalls(rows)
  {
    if before == [] {
      assert before + rows == rows;
    } else {
      assert (before + rows)[1..] == before[1..] + rows;
      ShortfallsInOrder(before[1..], rows);
    }
  }

  // ----- end to end

  /** What a book of customers is owed. */
  function Owed(inputs: seq<LeafInput>): Totals
    requires forall i :: 0 <= i < |inputs| ==> Admissible(inputs[i])
  {
    if inputs == [] then map[] else Plus(LeafSums(inputs[0]), Owed(inputs[1..]))
  }

  lemma {:induction false} TotalIsOwed(H: HashFn, inputs: seq<LeafInput>, nodes: seq<Node>)
    requires |inputs| == |nodes|
    requires forall i :: 0 <= i < |inputs| ==> Admissible(inputs[i]) && nodes[i] == LeafNode(H, inputs[i])
    ensures Total(nodes) == Owed(inputs)
  {
    hide Plus, LeafPreimage, Admissible, LeafSums;
    if inputs != [] {
      TotalIsOwed(H, inputs[1..], nodes[1..]);
    }
  }

  /**
   Both reports built from leaves: the outcome is "fully covered" exactly when, of every asset, the
   custody positions sum to at least what the customers are owed.
   */
  lemma CoverageEndToEnd(
    H: HashFn, saltOf: SaltFn, ps: seq<Position>, custody: seq<seq<Node>>,
    inputs: seq<LeafInput>, liabilities: seq<seq<Node>>,
    custodySums: AmountMap, liabilitySums: AmountMap, rows: seq<AssetCoverage>)
    requires IsTree(H, custody) && CustodyNodes(H, saltOf, ps, custody[0])
    requires IsTree(H, liabilities) && |inputs| == |liabilities[0]|
    requires forall i :: 0 <= i < |inputs| ==> Admissible(inputs[i]) && liabilities[0][i] == LeafNode(H, inputs[i])
    requires custodySums == Root(custody).sums && liabilitySums == Root(liabilities).sums
    requires RowsFor(rows, custodySums, liabilitySums)
    ensures FullyCovered(rows) <==> forall asset :: At(Owed(inputs), asset) <= At(Held(ps), asset)
  {
    hide Total, Plus, LeafNode, Qualified, RowsFor, Paired, CustodyNodes, Held;
    TreeClimbs(H, custody);
    TreeClimbs(H, liabilities);
    RootSums(H, custody);
    RootSums(H, liabilities);
    TotalIsOwed(H, inputs, liabilities[0]);
    FullyCoveredIsDominance(rows, custodySums, liabilitySums);
    forall asset ensures At(custodySums, Qualified(HELD, asset)) == At(Held(ps), asset) {
      CustodyRootIsHeld(H, saltOf, ps, custody[0], asset);
    }
  }

  /** Accepted statements compare two moments no further apart than the reader allows. */
  lemma AcceptedIsComparable(
    H: HashFn, verifies: Verify.SignatureFn, custody: SignedReport, liabilities: SignedReport,
    statement: CoverageStatement, custodyKey: Text, liabilitiesKey: Text, maxSkew: nat)
    requires CoverageFault(H, verifies, custody, liabilities, statement, custodyKey, liabilitiesKey, maxSkew) == None
    ensures exists x, y ::
      && ParseInstant(custody.report.snapshotTime) == Some(x)
      && ParseInstant(liabilities.report.snapshotTime) == Some(y)
      && x - y <= maxSkew && y - x <= maxSkew
  {
    hide CoverageFault, Skew, ParseInstant;
    NoFaultSkew(H, verifies, custody, liabilities, statement, custodyKey, liabilitiesKey, maxSkew);
    SkewMeans(custody.report.snapshotTime, liabilities.report.snapshotTime);
  }

  lemma NoFaultSkew(
    H: HashFn, verifies: Verify.SignatureFn, custody: SignedReport, liabilities: SignedReport,
    statement: CoverageStatement, custodyKey: Text, liabilitiesKey: Text, maxSkew: nat)
    requires CoverageFault(H, verifies, custody, liabilities, statement, custodyKey, liabilitiesKey, maxSkew) == None
    ensures
      var apart := Skew(custody.report.snapshotTime, liabilities.report.snapshotTime);
      apart.Some? && apart.value <= maxSkew
  {
    hide Skew, ReportDigestHex, CheckSignature, Ascii;
  }

  lemma SkewMeans(a: Text, b: Text)
    requires Skew(a, b).Some?
    ensures exists x, y ::
      && ParseInstant(a) == Some(x) && ParseInstant(b) == Some(y)
      && x - y <= Skew(a, b).value && y - x <= Skew(a, b).value
  {
    hide ParseInstant;
  }

  /** A statement that accepts two custody reports names one: they agree, or their preimages collide. */
  lemma StatementNamesOneReport(
    H: HashFn, verifies: Verify.SignatureFn, custody: SignedReport, other: SignedReport, liabilities: SignedReport,
    statement: CoverageStatement, custodyKey: Text, liabilitiesKey: Text, maxSkew: nat)
    requires CoverageFault(H, verifies, custody, liabilities, statement, custodyKey, liabilitiesKey, maxSkew) == None
    requires CoverageFault(H, verifies, other, liabilities, statement, custodyKey, liabilitiesKey, maxSkew) == None
    ensures
      || Collision(H, {ReportPreimage(custody.report), ReportPreimage(other.report)})
      || custody.report.(manifest := None) == other.report.(manifest := None)
  {
    hide ReportPreimage, Skew, CheckSignature;
    HexInjective(H(ReportPreimage(custody.report)), H(ReportPreimage(other.report)));
    if ReportPreimage(custody.report) == ReportPreimage(other.report) {
      ReportBound(custody.report, other.report);
    } else {
      var S := {ReportPreimage(custody.report), ReportPreimage(other.report)};
      assert ReportPreimage(custody.report) in S && ReportPreimage(other.report) in S;
    }
  }
}
