/**
 Anchor chains: a hash-linked, append-only history of published reports
 (solvency-report/src/anchor.rs).
 */
module Anchors {
  import opened Wrappers
  import opened ByteStrings
  import opened Documents
  import opened Digests

  datatype ChainField = SnapshotTime | LedgerOffset

  datatype ChainFailure =
    | NotGenesis
    | Broken(index: nat)
    | WentBackwards(index: nat, field: ChainField)
    | PublisherChanged(index: nat)
    | UnsupportedVersion(index: nat, found: Text)
    | ReportMismatch(index: nat)

  function AnchorDigestHex(H: HashFn, a: Anchor): Text {
    Hex(H(AnchorPreimage(a)))
  }

  // ----- verification

  /** What is wrong with the anchor at `i`, if anything, in the order the source looks. */
  function Fault(H: HashFn, anchors: seq<Anchor>, i: nat): Option<ChainFailure>
    requires i < |anchors|
  {
    var a := anchors[i];
    if a.formatVersion != ANCHOR_FORMAT_VERSION then Some(UnsupportedVersion(i, a.formatVersion))
    else if i == 0 then
      if a.prevAnchor.Some? then Some(NotGenesis) else None
    else if a.prevAnchor.None? then Some(Broken(i))
    else
      var previous := anchors[i - 1];
      if a.prevAnchor.value != AnchorDigestHex(H, previous) then Some(Broken(i))
      else if a.publisher != previous.publisher then Some(PublisherChanged(i))
      else if !Before(previous.snapshotTime, a.snapshotTime) then Some(WentBackwards(i, SnapshotTime))
      else if Before(a.ledgerOffset, previous.ledgerOffset) then Some(WentBackwards(i, LedgerOffset))
      else None
  }

  /** A complete history: it starts at genesis and every anchor extends the one before. */
  ghost predicate History(H: HashFn, anchors: seq<Anchor>) {
    && (forall i :: 0 <= i < |anchors| ==> anchors[i].formatVersion == ANCHOR_FORMAT_VERSION)
    && (anchors != [] ==> anchors[0].prevAnchor == None)
    && forall i :: 0 < i < |anchors| ==> Extends(H, anchors[i], anchors[i - 1])
  }

  predicate Extends(H: HashFn, a: Anchor, previous: Anchor) {
    && a.prevAnchor == Some(AnchorDigestHex(H, previous))
    && a.publisher == previous.publisher
    && Before(previous.snapshotTime, a.snapshotTime)
    && !Before(a.ledgerOffset, previous.ledgerOffset)
  }

  /** `verify_chain`: accepts exactly the histories, and names the first fault otherwise. */
  method VerifyChain(H: HashFn, anchors: seq<Anchor>) returns (r: Result<(), ChainFailure>)
    ensures r.Ok? <==> History(H, anchors)
    ensures r.Err? ==> exists i ::
      && 0 <= i < |anchors|
      && Fault(H, anchors, i) == Some(r.error)
      && forall j :: 0 <= j < i ==> Fault(H, anchors, j) == None
  {
    hide AnchorPreimage, Before, History;
    for index := 0 to |anchors|
      invariant forall j :: 0 <= j < index ==> Fault(H, anchors, j) == None
    {
      if Fault(H, anchors, index).Some? {
        FaultyIsNoHistory(H, anchors, index);
      }
      var anchor := anchors[index];
      if anchor.formatVersion != ANCHOR_FORMAT_VERSION {
        return Err(UnsupportedVersion(index, anchor.formatVersion));
      }
      if index == 0 {
        if anchor.prevAnchor.Some? {
          return Err(NotGenesis);
        }
        continue;
      }
      if anchor.prevAnchor.None? {
        return Err(Broken(index));
      }
      var previous := anchors[index - 1];
      if anchor.prevAnchor.value != AnchorDigestHex(H, previous) {
        return Err(Broken(index));
      }
      if anchor.publisher != previous.publisher {
        return Err(PublisherChanged(index));
      }
      if !Before(previous.snapshotTime, anchor.snapshotTime) {
        return Err(WentBackwards(index, SnapshotTime));
      }
      if Before(anchor.ledgerOffset, previous.ledgerOffset) {
        return Err(WentBackwards(index, LedgerOffset));
      }
    }
    FaultlessIsHistory(H, anchors);
    return Ok(());
  }

  lemma FaultyIsNoHistory(H: HashFn, anchors: seq<Anchor>, i: nat)
    requires i < |anchors| && Fault(H, anchors, i).Some?
    ensures !History(H, anchors)
  {
    hide AnchorDigestHex, Before;
    if i > 0 {
      assert anchors[i].formatVersion != ANCHOR_FORMAT_VERSION || !Extends(H, anchors[i], anchors[i - 1]);
    }
  }

  lemma FaultlessIsHistory(H: HashFn, anchors: seq<Anchor>)
    requires forall j :: 0 <= j < |anchors| ==> Fault(H, anchors, j) == None
    ensures History(H, anchors)
  {
    hide AnchorDigestHex, Before;
    forall i | 0 < i < |anchors| ensures Extends(H, anchors[i], anchors[i - 1]) {
      assert Fault(H, anchors, i) == None;
    }
    forall i | 0 <= i < |anchors| ensures anchors[i].formatVersion == ANCHOR_FORMAT_VERSION {
      assert Fault(H, anchors, i) == None;
    }
    if anchors != [] {
      assert Fault(H, anchors, 0) == None;
    }
  }

  // ----- what an accepted history guarantees

  ghost function AnchorsHashed(anchors: seq<Anchor>): set<Bytes> {
    set i | 0 <= i < |anchors| :: AnchorPreimage(anchors[i])
  }

  lemma DigestBindsAnchor(H: HashFn, a: Anchor, b: Anchor, S: set<Bytes>)
    requires AnchorPreimage(a) in S && AnchorPreimage(b) in S && !Collision(H, S)
    requires AnchorDigestHex(H, a) == AnchorDigestHex(H, b)
    ensures a == b
  {
    hide AnchorPreimage;
    HexInjective(H(AnchorPreimage(a)), H(AnchorPreimage(b)));
    AnchorBound(a, b);
  }

  lemma {:induction false} SameEndSameHistory(H: HashFn, s: seq<Anchor>, t: seq<Anchor>, S: set<Bytes>)
    requires s != [] && t != [] && History(H, s) && History(H, t)
    requires AnchorsHashed(s) + AnchorsHashed(t) <= S && !Collision(H, S)
    requires AnchorDigestHex(H, s[|s| - 1]) == AnchorDigestHex(H, t[|t| - 1])
    ensures s == t
  {
    hide AnchorDigestHex, AnchorsHashed, History, Collision;
    var m, n := |s| - 1, |t| - 1;
    LastHashed(s);
    LastHashed(t);
    DigestBindsAnchor(H, s[m], t[n], S);
    LastLinks(H, s);
    LastLinks(H, t);
    assert s == s[..m] + [s[m]] && t == t[..n] + [t[n]];
    if m > 0 {
      HistoryPrefix(H, s, m);
      HistoryPrefix(H, t, n);
      SameEndSameHistory(H, s[..m], t[..n], S);
    } else {
      assert s[..m] == [] == t[..n];
    }
  }

  lemma LastHashed(s: seq<Anchor>)
    requires s != []
    ensures AnchorPreimage(s[|s| - 1]) in AnchorsHashed(s)
  {
    hide AnchorPreimage;
  }

  /** The last anchor names its predecessor, or has none. */
  lemma LastLinks(H: HashFn, s: seq<Anchor>)
    requires s != [] && History(H, s)
    ensures s[|s| - 1].prevAnchor == if |s| == 1 then None else Some(AnchorDigestHex(H, s[|s| - 2]))
  {
    hide AnchorDigestHex;
    assert |s| > 1 ==> Extends(H, s[|s| - 1], s[|s| - 2]);
  }

  lemma HistoryPrefix(H: HashFn, s: seq<Anchor>, m: nat)
    requires History(H, s) && m <= |s|
    ensures History(H, s[..m]) && AnchorsHashed(s[..m]) <= AnchorsHashed(s)
  {
    hide Extends, AnchorPreimage;
    forall i | 0 < i < m ensures Extends(H, s[..m][i], s[..m][i - 1]) {
      assert Extends(H, s[i], s[i - 1]);
    }
  }

  /**
   The last anchor's digest fixes the whole history: two accepted histories that end in it are one
   and the same, so nothing before an unchanged last anchor can be dropped, inserted or edited.
   */
  lemma LastAnchorFixesHistory(H: HashFn, s: seq<Anchor>, t: seq<Anchor>)
    requires s != [] && t != [] && History(H, s) && History(H, t)
    requires AnchorDigestHex(H, s[|s| - 1]) == AnchorDigestHex(H, t[|t| - 1])
    ensures s == t || Collision(H, AnchorsHashed(s) + AnchorsHashed(t))
  {
    hide AnchorDigestHex, AnchorsHashed, Collision;
    var S := AnchorsHashed(s) + AnchorsHashed(t);
    if !Collision(H, S) {
      SameEndSameHistory(H, s, t, S);
    }
  }

  lemma NotBeforeTransitive(a: Bytes, b: Bytes, c: Bytes)
    requires !Before(b, a) && !Before(c, b)
    ensures !Before(c, a)
  {
    BeforeTotal(a, b);
    BeforeTotal(b, c);
    if Before(a, b) && Before(b, c) {
      BeforeTransitive(a, b, c);
    }
    BeforeIrreflexive(a);
    if a != c && (Before(a, c)) {
      BeforeAsymmetric(a, c);
    }
  }

  /** Every pair of an accepted history is in order, not only neighbours. */
  lemma {:induction false} HistoryOrdersAllPairs(H: HashFn, s: seq<Anchor>, i: nat, j: nat)
    requires History(H, s) && i < j < |s|
    ensures Before(s[i].snapshotTime, s[j].snapshotTime)
    ensures !Before(s[j].ledgerOffset, s[i].ledgerOffset)
    ensures s[i].publisher == s[j].publisher
    decreases j
  {
    hide AnchorDigestHex, Before;
    assert Extends(H, s[j], s[j - 1]);
    if i < j - 1 {
      HistoryOrdersAllPairs(H, s, i, j - 1);
      BeforeTransitive(s[i].snapshotTime, s[j - 1].snapshotTime, s[j].snapshotTime);
      NotBeforeTransitive(s[i].ledgerOffset, s[j - 1].ledgerOffset, s[j].ledgerOffset);
    }
  }

  // ----- the producer

  /** `anchor_report` */
  function AnchorReport(H: HashFn, signed: SignedReport, previous: Option<Anchor>): Anchor {
    Anchor(
      ANCHOR_FORMAT_VERSION,
      ReportDigestHex(H, signed.report),
      signed.report.rootHash,
      signed.report.snapshotTime,
      signed.report.ledgerOffset,
      signed.report.publisher,
      signed.signature.publicKey,
      if previous.Some? then Some(AnchorDigestHex(H, previous.value)) else None)
  }

  /** Anchoring one report after another. */
  function AnchorAll(H: HashFn, reports: seq<SignedReport>): (r: seq<Anchor>)
    ensures |r| == |reports|
  {
    if reports == [] then
      []
    else
      var before := AnchorAll(H, reports[..|reports| - 1]);
      before + [AnchorReport(H, reports[|reports| - 1], if before == [] then None else Some(before[|before| - 1]))]
  }

  /** Reports a publisher may anchor in this order. */
  predicate InOrder(reports: seq<SignedReport>) {
    forall i :: 0 < i < |reports| ==> Follows(reports[i].report, reports[i - 1].report)
  }

  predicate Follows(r: Report, previous: Report) {
    && r.publisher == previous.publisher
    && Before(previous.snapshotTime, r.snapshotTime)
    && !Before(r.ledgerOffset, previous.ledgerOffset)
  }

  lemma {:induction false} AnchorAllAt(H: HashFn, reports: seq<SignedReport>, i: nat)
    requires i < |reports|
    ensures AnchorAll(H, reports)[i] ==
      AnchorReport(H, reports[i], if i == 0 then None else Some(AnchorAll(H, reports)[i - 1]))
  {
    hide AnchorReport;
    var n := |reports| - 1;
    var before := AnchorAll(H, reports[..n]);
    if i < n {
      AnchorAllAt(H, reports[..n], i);
      assert AnchorAll(H, reports)[i] == before[i];
      assert i > 0 ==> AnchorAll(H, reports)[i - 1] == before[i - 1];
    }
  }

  /** What the producer folds together is accepted exactly when the reports are in order. */
  lemma ProducerAcceptedIffInOrder(H: HashFn, reports: seq<SignedReport>)
    ensures History(H, AnchorAll(H, reports)) <==> InOrder(reports)
  {
    hide AnchorDigestHex, ReportDigestHex, Before, AnchorAll;
    var anchors := AnchorAll(H, reports);
    forall i | 0 <= i < |anchors|
      ensures anchors[i].formatVersion == ANCHOR_FORMAT_VERSION
      ensures i == 0 ==> anchors[i].prevAnchor == None
      ensures i > 0 ==> (Extends(H, anchors[i], anchors[i - 1]) <==> Follows(reports[i].report, reports[i - 1].report))
    {
      AnchorAllAt(H, reports, i);
      if i > 0 {
        AnchorAllAt(H, reports, i - 1);
      }
    }
  }

  /** The anchor at `i` describes the report at `i`. */
  predicate Describes(H: HashFn, a: Anchor, signed: SignedReport) {
    a.reportDigest == ReportDigestHex(H, signed.report) && a.rootHash == signed.report.rootHash
  }

  /**
   `verify_anchored_reports`. The lists are zipped, so only positions both have are compared: extra
   anchors or reports pass unexamined.
   */
  method VerifyAnchoredReports(H: HashFn, anchors: seq<Anchor>, reports: seq<SignedReport>)
    returns (r: Result<(), ChainFailure>)
    ensures r.Ok? <==> forall i :: 0 <= i < |anchors| && i < |reports| ==> Describes(H, anchors[i], reports[i])
    ensures r.Err? ==> exists i ::
      && 0 <= i < |anchors| && i < |reports|
      && r.error == ReportMismatch(i) && !Describes(H, anchors[i], reports[i])
      && forall j :: 0 <= j < i ==> Describes(H, anchors[j], reports[j])
  {
    hide ReportDigestHex;
    var index := 0;
    while index < |anchors| && index < |reports|
      invariant index <= |anchors| && index <= |reports|
      invariant forall j :: 0 <= j < index ==> Describes(H, anchors[j], reports[j])
    {
      if anchors[index].reportDigest != ReportDigestHex(H, reports[index].report)
         || anchors[index].rootHash != reports[index].report.rootHash {
        return Err(ReportMismatch(index));
      }
      index := index + 1;
    }
    return Ok(());
  }

  /** The producer's own history always describes its reports. */
  lemma ProducerDescribesReports(H: HashFn, reports: seq<SignedReport>)
    ensures forall i :: 0 <= i < |reports| ==> Describes(H, AnchorAll(H, reports)[i], reports[i])
  {
    hide ReportDigestHex, AnchorDigestHex, AnchorAll;
    forall i | 0 <= i < |reports| ensures Describes(H, AnchorAll(H, reports)[i], reports[i]) {
      AnchorAllAt(H, reports, i);
    }
  }

  /** One anchor describes one report, as far as the digest covers it. */
  lemma DescribedReportsBound(H: HashFn, a: Anchor, x: SignedReport, y: SignedReport)
    requires Describes(H, a, x) && Describes(H, a, y)
    ensures Collision(H, {ReportPreimage(x.report), ReportPreimage(y.report)}) || SameCovered(x.report, y.report)
  {
    hide ReportDigestHex, SameCovered;
    DigestNamesOneReport(H, x.report, y.report);
  }

  ghost predicate AllDescribed(H: HashFn, anchors: seq<Anchor>, reports: seq<SignedReport>) {
    |anchors| == |reports| && forall i :: 0 <= i < |anchors| ==> Describes(H, anchors[i], reports[i])
  }

  ghost function ReportsHashed(reports: seq<SignedReport>): set<Bytes> {
    set i | 0 <= i < |reports| :: ReportPreimage(reports[i].report)
  }

  /** The last anchor settles which reports the whole history describes, position by position. */
  lemma LastAnchorFixesReports(
    H: HashFn, s: seq<Anchor>, t: seq<Anchor>, xs: seq<SignedReport>, ys: seq<SignedReport>)
    requires s != [] && t != [] && History(H, s) && History(H, t)
    requires AnchorDigestHex(H, s[|s| - 1]) == AnchorDigestHex(H, t[|t| - 1])
    requires AllDescribed(H, s, xs) && AllDescribed(H, t, ys)
    ensures
      || Collision(H, AnchorsHashed(s) + AnchorsHashed(t))
      || Collision(H, ReportsHashed(xs) + ReportsHashed(ys))
      || (|xs| == |ys| && forall i :: 0 <= i < |xs| ==> SameCovered(xs[i].report, ys[i].report))
  {
    hide History, AnchorDigestHex, SameCovered, Describes, ReportPreimage, AnchorsHashed;
    LastAnchorFixesHistory(H, s, t);
    var S := ReportsHashed(xs) + ReportsHashed(ys);
    if s == t && !Collision(H, S) {
      forall i | 0 <= i < |xs| ensures SameCovered(xs[i].report, ys[i].report) {
        DescribedReportsBound(H, s[i], xs[i], ys[i]);
        assert ReportPreimage(xs[i].report) in S && ReportPreimage(ys[i].report) in S;
      }
    }
  }
}
