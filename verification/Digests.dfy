/**
 The preimage of every digest, and that it determines the document: every field is bound, and no
 document shares a preimage with another of any kind (solvency-report/src/digest.rs, anchor.rs,
 assurance.rs, pack.rs, provenance.rs, compat.rs, group.rs).
 */
module Digests {
  import opened Wrappers
  import opened ByteStrings
  import opened LengthPrefix
  import opened Domains
  import opened Fields
  import opened Documents

  // ----- preimages

  function ReportHeader(r: Report): Record {
    [ Str(r.formatVersion), Str(r.profile), Str(r.publisher), Str(r.snapshotTime), Str(r.ledgerOffset),
      Str(r.rootHash), Num(r.leafCount), Amounts(r.rootSums), Amounts(r.markPrices),
      Amounts(r.disclosures.badDebt), Num(r.disclosures.excludedHouseAccounts),
      Amounts(r.disclosures.excludedHouseTotals) ]
  }

  function DisclosureRecord(path: Text, state: Disclosure): Record {
    [Str(path), Str(DisclosureText(state))]
  }

  function DisclosureRecords(paths: seq<Text>, m: DisclosureMap): (r: seq<Record>)
    requires forall k :: k in paths ==> k in m
    ensures |r| == |paths|
  {
    seq(|paths|, i requires 0 <= i < |paths| => assert paths[i] in paths; DisclosureRecord(paths[i], m[paths[i]]))
  }

  function ManifestTail(m: Manifest): Bytes {
    EncAll([Str(m.audience)]) + Counted(DisclosureRecords(KeysOf(m.fields), m.fields))
  }

  predicate IsV2(r: Report) {
    r.formatVersion == REPORT_FORMAT_VERSION_V2
  }

  /** The version string selects the domain; only v2 commits to the manifest. */
  function ReportPreimage(r: Report): Bytes {
    DomainBytes(if IsV2(r) then ReportV2 else ReportV1)
    + (EncAll(ReportHeader(r)) + if IsV2(r) && r.manifest.Some? then ManifestTail(r.manifest.value) else [])
  }

  /** `report_digest_hex` */
  function ReportDigestHex(H: HashFn, r: Report): Text {
    Hex(H(ReportPreimage(r)))
  }

  function AnchorRecord(a: Anchor): Record {
    [ Str(a.formatVersion), Str(a.reportDigest), Str(a.rootHash), Str(a.snapshotTime),
      Str(a.ledgerOffset), Str(a.publisher), Str(a.publisherKey), Maybe(a.prevAnchor) ]
  }

  function AnchorPreimage(a: Anchor): Bytes {
    DomainBytes(AnchorV1) + EncAll(AnchorRecord(a))
  }

  function AttestationRecord(a: Attestation): Record {
    [ Str(a.formatVersion), Str(a.reportDigest), Str(a.field), Str(RoleText(a.role)), Str(a.attestor), Str(a.basis) ]
  }

  function AttestationPreimage(a: Attestation): Bytes {
    DomainBytes(AttestationV1) + EncAll(AttestationRecord(a))
  }

  function PackHeader(p: Pack): Record {
    [Str(p.formatVersion), Str(p.publisher), Str(p.snapshotTime), Str(p.reportDigest)]
  }

  function EntryRecord(e: PackEntry): Record {
    [Str(e.name), Str(e.sha256)]
  }

  function PackPreimage(p: Pack): Bytes {
    DomainBytes(PackV1) + (EncAll(PackHeader(p)) + Counted(Map(EntryRecord, p.entries)))
  }

  function ProvenanceHeader(p: Provenance): Record {
    [Str(p.formatVersion), Str(p.reportDigest)]
  }

  function SourceRecord(s: Source): Record {
    [Str(s.id), Str(KindText(s.kind)), Str(s.name), Maybe(s.basis)]
  }

  function DerivationRecord(d: Derivation): Record {
    [Str(d.field), Names(d.sources), Str(d.derivedBy)]
  }

  function ProvenancePreimage(p: Provenance): Bytes {
    DomainBytes(ProvenanceV1)
    + (EncAll(ProvenanceHeader(p))
       + (Counted(Map(SourceRecord, p.sources)) + Counted(Map(DerivationRecord, p.derivations))))
  }

  function CaseRecord(c: CaseSpec): Record {
    [Str(c.id), Str(c.expected), Names(c.requirements)]
  }

  function CorpusPreimage(cases: Listed<CaseSpec>): Bytes {
    DomainBytes(CorpusV1) + Counted(Map(CaseRecord, cases))
  }

  function EntityRecord(e: Entity): Record {
    [Str(e.entityId), Raw(e.rootHash), Amounts(e.rootSums)]
  }

  function EntityTail(e: Entity): Bytes {
    EncAll(EntityRecord(e))
  }

  function EntityPreimage(e: Entity): Bytes {
    DomainBytes(EntityV1) + EntityTail(e)
  }

  function Map<T>(f: T -> Record, ts: seq<T>): (r: seq<Record>)
    ensures |r| == |ts|
    ensures forall i :: 0 <= i < |ts| ==> r[i] == f(ts[i])
  {
    seq(|ts|, i requires 0 <= i < |ts| => f(ts[i]))
  }

  // ----- injectivity

  lemma OneRecord(d: Domain, r: Record, q: Record)
    requires SameKinds(r, q) && DomainBytes(d) + EncAll(r) == DomainBytes(d) + EncAll(q)
    ensures r == q
  {
    hide DomainBytes, EncAll;
    DomainsSeparate(d, EncAll(r), d, EncAll(q));
    assert EncAll(r) + [] == EncAll(r) && EncAll(q) + [] == EncAll(q);
    RecordPrefix(r, [], q, []);
  }

  /** An anchor's digest covers every field; genesis and an empty predecessor never agree. */
  lemma AnchorBound(a: Anchor, b: Anchor)
    requires AnchorPreimage(a) == AnchorPreimage(b)
    ensures a == b
  {
    hide DomainBytes, EncAll;
    var r, q := AnchorRecord(a), AnchorRecord(b);
    OneRecord(AnchorV1, r, q);
    assert r[0] == q[0] && r[1] == q[1] && r[2] == q[2] && r[3] == q[3];
    assert r[4] == q[4] && r[5] == q[5] && r[6] == q[6] && r[7] == q[7];
  }

  lemma AttestationBound(a: Attestation, b: Attestation)
    requires AttestationPreimage(a) == AttestationPreimage(b)
    ensures a == b
  {
    hide DomainBytes, EncAll;
    var r, q := AttestationRecord(a), AttestationRecord(b);
    OneRecord(AttestationV1, r, q);
    assert r[0] == q[0] && r[1] == q[1] && r[2] == q[2] && r[3] == q[3] && r[4] == q[4] && r[5] == q[5];
    assert |RoleText(Issuer)| == 6 && |RoleText(ThirdParty)| == 11;
  }

  lemma EntityBound(a: Entity, b: Entity)
    requires EntityPreimage(a) == EntityPreimage(b)
    ensures a == b
  {
    hide DomainBytes, EncAll;
    var r, q := EntityRecord(a), EntityRecord(b);
    OneRecord(EntityV1, r, q);
    assert r[0] == q[0] && r[1] == q[1] && r[2] == q[2];
  }

  lemma CountedAll(rs: Listed<Record>, qs: Listed<Record>, shape: Record)
    requires AllLike(rs, shape) && AllLike(qs, shape) && Counted(rs) == Counted(qs)
    ensures rs == qs
  {
    hide Counted;
    assert Counted(rs) + [] == Counted(rs) && Counted(qs) + [] == Counted(qs);
    CountedRunPrefix(rs, [], qs, [], shape);
  }

  lemma PackBound(a: Pack, b: Pack)
    requires PackPreimage(a) == PackPreimage(b)
    ensures a == b
  {
    hide DomainBytes, EncAll, Counted;
    var r, q := PackHeader(a), PackHeader(b);
    var rs, qs := Map(EntryRecord, a.entries), Map(EntryRecord, b.entries);
    DomainsSeparate(PackV1, EncAll(r) + Counted(rs), PackV1, EncAll(q) + Counted(qs));
    RecordPrefix(r, Counted(rs), q, Counted(qs));
    assert r[0] == q[0] && r[1] == q[1] && r[2] == q[2] && r[3] == q[3];
    CountedAll(rs, qs, EntryRecord(PackEntry([], [])));
    forall i | 0 <= i < |a.entries| ensures a.entries[i] == b.entries[i] {
      assert rs[i] == qs[i] && rs[i][0] == qs[i][0] && rs[i][1] == qs[i][1];
    }
    assert a.entries == b.entries;
  }

  lemma CorpusBound(a: Listed<CaseSpec>, b: Listed<CaseSpec>)
    requires CorpusPreimage(a) == CorpusPreimage(b)
    ensures a == b
  {
    hide DomainBytes, Counted;
    var rs, qs := Map(CaseRecord, a), Map(CaseRecord, b);
    DomainsSeparate(CorpusV1, Counted(rs), CorpusV1, Counted(qs));
    CountedAll(rs, qs, CaseRecord(CaseSpec([], [], [])));
    forall i | 0 <= i < |a| ensures a[i] == b[i] {
      assert rs[i] == qs[i] && rs[i][0] == qs[i][0] && rs[i][1] == qs[i][1] && rs[i][2] == qs[i][2];
    }
  }

  lemma SourcesBound(a: seq<Source>, b: seq<Source>)
    requires Map(SourceRecord, a) == Map(SourceRecord, b)
    ensures a == b
  {
    var rs, qs := Map(SourceRecord, a), Map(SourceRecord, b);
    assert |rs| == |qs|;
    forall i | 0 <= i < |a| ensures a[i] == b[i] {
      var r, q := rs[i], qs[i];
      assert r[0] == q[0] && r[1] == q[1] && r[2] == q[2] && r[3] == q[3];
      KindTextInjective(a[i].kind, b[i].kind);
    }
  }

  lemma DerivationsBound(a: seq<Derivation>, b: seq<Derivation>)
    requires Map(DerivationRecord, a) == Map(DerivationRecord, b)
    ensures a == b
  {
    var rs, qs := Map(DerivationRecord, a), Map(DerivationRecord, b);
    assert |rs| == |qs|;
    forall i | 0 <= i < |a| ensures a[i] == b[i] {
      var r, q := rs[i], qs[i];
      assert r[0] == q[0] && r[1] == q[1] && r[2] == q[2];
    }
  }

  lemma ProvenanceBound(a: Provenance, b: Provenance)
    requires ProvenancePreimage(a) == ProvenancePreimage(b)
    ensures a == b
  {
    hide DomainBytes, EncAll, Counted;
    var r, q := ProvenanceHeader(a), ProvenanceHeader(b);
    var rs, qs := Map(SourceRecord, a.sources), Map(SourceRecord, b.sources);
    var rd, qd := Map(DerivationRecord, a.derivations), Map(DerivationRecord, b.derivations);
    DomainsSeparate(ProvenanceV1, EncAll(r) + (Counted(rs) + Counted(rd)),
                    ProvenanceV1, EncAll(q) + (Counted(qs) + Counted(qd)));
    RecordPrefix(r, Counted(rs) + Counted(rd), q, Counted(qs) + Counted(qd));
    assert r[0] == q[0] && r[1] == q[1];
    CountedRunPrefix(rs, Counted(rd), qs, Counted(qd), SourceRecord(Source([], Party, [], None)));
    CountedAll(rd, qd, DerivationRecord(Derivation([], [], [])));
    SourcesBound(a.sources, b.sources);
    DerivationsBound(a.derivations, b.derivations);
  }

  lemma DisclosuresBound(m: DisclosureMap, n: DisclosureMap)
    requires DisclosureRecords(KeysOf(m), m) == DisclosureRecords(KeysOf(n), n)
    ensures m == n
  {
    hide KeysOf, DisclosureRecords, DisclosureText;
    var ps, qs := KeysOf(m), KeysOf(n);
    var rs, ss := DisclosureRecords(ps, m), DisclosureRecords(qs, n);
    assert |rs| == |ps| && |ss| == |qs|;
    forall i | 0 <= i < |ps| ensures ps[i] == qs[i] && m[ps[i]] == n[ps[i]] {
      DisclosureRecordAt(ps, m, i);
      DisclosureRecordAt(qs, n, i);
      assert rs[i] == ss[i] && rs[i][0] == ss[i][0] && rs[i][1] == ss[i][1];
      DisclosureTextInjective(m[ps[i]], n[qs[i]]);
    }
    assert ps == qs;
    SameDisclosures(ps, m, n);
  }

  lemma SameDisclosures(ps: seq<Text>, m: DisclosureMap, n: DisclosureMap)
    requires forall k :: (k in ps <==> k in m) && (k in ps <==> k in n)
    requires forall i :: 0 <= i < |ps| ==> m[ps[i]] == n[ps[i]]
    ensures m == n
  {
    assert forall k :: k in m ==> k in ps;
  }

  lemma ManifestBound(m: Manifest, n: Manifest)
    requires ManifestTail(m) == ManifestTail(n)
    ensures m == n
  {
    hide EncAll, Counted, KeysOf, DisclosureRecords;
    var rs, qs := DisclosureRecords(KeysOf(m.fields), m.fields), DisclosureRecords(KeysOf(n.fields), n.fields);
    RecordPrefix([Str(m.audience)], Counted(rs), [Str(n.audience)], Counted(qs));
    assert [Str(m.audience)][0] == [Str(n.audience)][0];
    DisclosuresLike(KeysOf(m.fields), m.fields);
    DisclosuresLike(KeysOf(n.fields), n.fields);
    CountedAll(rs, qs, DisclosureRecord([], Published));
    DisclosuresBound(m.fields, n.fields);
  }

  lemma DisclosuresLike(paths: seq<Text>, m: DisclosureMap)
    requires forall k :: k in paths ==> k in m
    ensures AllLike(DisclosureRecords(paths, m), DisclosureRecord([], Published))
  {
  }

  lemma HeaderBound(a: Report, b: Report)
    requires ReportHeader(a) == ReportHeader(b)
    ensures a.(manifest := None) == b.(manifest := None)
  {
    var r, q := ReportHeader(a), ReportHeader(b);
    assert r[0] == q[0] && r[1] == q[1] && r[2] == q[2] && r[3] == q[3] && r[4] == q[4] && r[5] == q[5];
    assert r[6] == q[6] && r[7] == q[7] && r[8] == q[8] && r[9] == q[9] && r[10] == q[10] && r[11] == q[11];
  }

  function Tail(r: Report): Bytes {
    if IsV2(r) && r.manifest.Some? then ManifestTail(r.manifest.value) else []
  }

  /**
   Two reports share a preimage exactly when they agree in every field the digest claims to cover:
   all of them, except the manifest of a report that is not v2.
   */
  lemma ReportBound(a: Report, b: Report)
    ensures ReportPreimage(a) == ReportPreimage(b) <==>
      a.(manifest := None) == b.(manifest := None) && (IsV2(a) ==> a.manifest == b.manifest)
    ensures SameCovered(a, b) <==> ReportPreimage(a) == ReportPreimage(b)
  {
    hide DomainBytes, EncAll, ManifestTail, ReportHeader, IsV2;
    if ReportPreimage(a) == ReportPreimage(b) {
      var d, e := if IsV2(a) then ReportV2 else ReportV1, if IsV2(b) then ReportV2 else ReportV1;
      DomainsSeparate(d, EncAll(ReportHeader(a)) + Tail(a), e, EncAll(ReportHeader(b)) + Tail(b));
      HeadersLike(a, b);
      RecordPrefix(ReportHeader(a), Tail(a), ReportHeader(b), Tail(b));
      HeaderBound(a, b);
      TailBound(a, b);
    } else if a.(manifest := None) == b.(manifest := None) {
      SameHeader(a, b);
    }
  }

  /** Equal in every field the digest covers: the manifest counts for v2 reports. */
  predicate SameCovered(x: Report, y: Report) {
    x.(manifest := None) == y.(manifest := None) && (IsV2(x) ==> x.manifest == y.manifest)
  }

  /** One digest in hex is one report, as far as the digest covers it, or two preimages collide. */
  lemma DigestNamesOneReport(H: HashFn, x: Report, y: Report)
    requires ReportDigestHex(H, x) == ReportDigestHex(H, y)
    ensures Collision(H, {ReportPreimage(x), ReportPreimage(y)}) || SameCovered(x, y)
  {
    hide ReportPreimage, IsV2;
    HexInjective(H(ReportPreimage(x)), H(ReportPreimage(y)));
    if ReportPreimage(x) == ReportPreimage(y) {
      ReportBound(x, y);
    } else {
      var S := {ReportPreimage(x), ReportPreimage(y)};
      assert ReportPreimage(x) in S && ReportPreimage(y) in S;
    }
  }

  lemma HeadersLike(a: Report, b: Report)
    ensures SameKinds(ReportHeader(a), ReportHeader(b))
  {
  }

  lemma SameHeader(a: Report, b: Report)
    requires a.(manifest := None) == b.(manifest := None)
    ensures ReportHeader(a) == ReportHeader(b) && (IsV2(a) <==> IsV2(b))
  {
  }

  lemma TailBound(a: Report, b: Report)
    requires IsV2(a) == IsV2(b) && Tail(a) == Tail(b)
    ensures IsV2(a) ==> a.manifest == b.manifest
  {
    hide ManifestTail;
    if IsV2(a) {
      if a.manifest.Some? {
        TailNotEmpty(a.manifest.value);
      }
      if b.manifest.Some? {
        TailNotEmpty(b.manifest.value);
      }
      if a.manifest.Some? && b.manifest.Some? {
        ManifestBound(a.manifest.value, b.manifest.value);
      }
    }
  }

  lemma TailNotEmpty(m: Manifest)
    ensures ManifestTail(m) != []
  {
    hide EncRecords, Enc;
    assert |Counted(DisclosureRecords(KeysOf(m.fields), m.fields))| >= 8;
  }

  // ----- the hashers, fed field by field

  class Hasher {
    var fed: Bytes

    constructor ()
      ensures fed == []
    {
      fed := [];
    }

    method Update(bytes: Bytes)
      modifies this
      ensures fed == old(fed) + bytes
    {
      fed := fed + bytes;
    }

    method Finalize(H: HashFn) returns (d: Digest)
      ensures d == H(fed)
    {
      d := H(fed);
    }
  }

  lemma {:induction false} EncSnoc(r: Record, i: nat)
    requires i < |r|
    ensures EncAll(r[..i + 1]) == EncAll(r[..i]) + Enc(r[i])
  {
    hide Enc;
    if i > 0 {
      assert r[..i + 1][1..] == r[1..][..i] && r[..i][1..] == r[1..][..i - 1];
      EncSnoc(r[1..], i - 1);
    } else {
      assert r[..1] == [r[0]];
    }
  }

  /** `lp`: the length as eight bytes, then the text. */
  method FeedText(h: Hasher, s: Text)
    modifies h
    ensures h.fed == old(h.fed) + Lp(s)
  {
    hide U64Le;
    h.Update(U64Le(|s|));
    h.Update(s);
    Joined(old(h.fed), U64Le(|s|), s);
  }

  lemma LpAllSnoc(ts: seq<Text>, i: nat)
    requires i < |ts|
    ensures LpAll(ts[i..]) == Lp(ts[i]) + LpAll(ts[i + 1..])
  {
    hide Lp;
    assert ts[i..][1..] == ts[i + 1..];
  }

  /** One field, as its kind is written. */
  method FeedField(h: Hasher, f: Field)
    modifies h
    ensures h.fed == old(h.fed) + Enc(f)
  {
    hide Lp, LpMap, U64Le;
    match f {
      case Str(s) => FeedText(h, s);
      case Num(n) => h.Update(U64Le(n));
      case Amounts(m) =>
        var amounts := EncodeAmounts(m);
        h.Update(amounts);
      case Maybe(o) =>
        if o.None? {
          h.Update([0]);
        } else {
          h.Update([1]);
          FeedText(h, o.value);
          Joined(old(h.fed), [1], Lp(o.value));
        }
      case Names(ts) =>
        h.Update(U64Le(|ts|));
        ghost var start := h.fed;
        for i := 0 to |ts|
          invariant start + LpAll(ts) == h.fed + LpAll(ts[i..])
        {
          LpAllSnoc(ts, i);
          Joined(h.fed, Lp(ts[i]), LpAll(ts[i + 1..]));
          FeedText(h, ts[i]);
        }
        Joined(old(h.fed), U64Le(|ts|), LpAll(ts));
      case Raw(d) => h.Update(d);
    }
  }

  /** Feeding the fields of a record in order feeds its encoding. */
  method Feed(h: Hasher, record: Record)
    modifies h
    ensures h.fed == old(h.fed) + EncAll(record)
  {
    hide Enc, EncAll;
    assert h.fed == old(h.fed) + EncAll(record[..0]) by {
      assert EncAll([]) == [] by { EncNothing(); }
      assert record[..0] == [];
    }
    for i := 0 to |record|
      invariant h.fed == old(h.fed) + EncAll(record[..i])
    {
      EncSnoc(record, i);
      FeedField(h, record[i]);
    }
    assert record[..|record|] == record;
  }

  lemma EncNothing()
    ensures EncAll([]) == [] && EncRecords([]) == []
  {
  }

  lemma {:induction false} RecordsSnoc(rs: seq<Record>, i: nat)
    requires i < |rs|
    ensures EncRecords(rs[..i + 1]) == EncRecords(rs[..i]) + EncAll(rs[i])
  {
    hide EncAll;
    if i > 0 {
      assert rs[..i + 1][1..] == rs[1..][..i] && rs[..i][1..] == rs[1..][..i - 1];
      RecordsSnoc(rs[1..], i - 1);
    } else {
      assert rs[..1] == [rs[0]];
    }
  }

  /** `report_digest` */
  method ReportDigest(H: HashFn, r: Report) returns (d: Digest)
    ensures d == H(ReportPreimage(r))
  {
    hide Ascii, EncAll, ManifestTail;
    var h := new Hasher();
    var v2 := r.formatVersion == Ascii("canton-solvency-report-v2");
    var domain := if v2 then Ascii("rocky-solvency-report-v2") else Ascii("rocky-solvency-report-v1");
    h.Update(domain);
    assert h.fed == domain;
    Feed(h, [
      Str(r.formatVersion), Str(r.profile), Str(r.publisher), Str(r.snapshotTime), Str(r.ledgerOffset),
      Str(r.rootHash), Num(r.leafCount), Amounts(r.rootSums), Amounts(r.markPrices),
      Amounts(r.disclosures.badDebt), Num(r.disclosures.excludedHouseAccounts),
      Amounts(r.disclosures.excludedHouseTotals) ]);
    ghost var head := EncAll(ReportHeader(r));
    if v2 && r.manifest.Some? {
      FeedManifest(h, r.manifest.value);
      Joined(domain, head, ManifestTail(r.manifest.value));
    } else {
      assert domain + (head + []) == domain + head;
    }
    d := h.Finalize(H);
  }

  /** The v2 tail: the audience, then each field's path and state in path order, behind their count. */
  method FeedManifest(h: Hasher, m: Manifest)
    modifies h
    ensures h.fed == old(h.fed) + ManifestTail(m)
  {
    hide EncAll, EncRecords, DisclosureRecords, KeysOf, U64Le;
    var paths := KeysOf(m.fields);
    Feed(h, [Str(m.audience)]);
    h.Update(U64Le(|paths|));
    ghost var before, records := h.fed, DisclosureRecords(paths, m.fields);
    RecordsFrom(records);
    for i := 0 to |paths|
      invariant h.fed == before + EncRecords(records[..i])
    {
      RecordsSnoc(records, i);
      DisclosureRecordAt(paths, m.fields, i);
      var state := match m.fields[paths[i]]
        case Published => Ascii("published")
        case Committed => Ascii("committed")
        case Withheld => Ascii("withheld");
      Feed(h, [Str(paths[i]), Str(state)]);
    }
    assert records[..|paths|] == records;
    Joined(old(h.fed), EncAll([Str(m.audience)]), U64Le(|paths|));
    Joined(old(h.fed), EncAll([Str(m.audience)]) + U64Le(|paths|), EncRecords(records));
    Joined(EncAll([Str(m.audience)]), U64Le(|paths|), EncRecords(records));
  }

  lemma RecordsFrom(rs: seq<Record>)
    ensures EncRecords(rs[..0]) == []
  {
  }

  lemma DisclosureRecordAt(paths: seq<Text>, m: DisclosureMap, i: nat)
    requires i < |paths| && forall k :: k in paths ==> k in m
    ensures paths[i] in m && DisclosureRecords(paths, m)[i] == DisclosureRecord(paths[i], m[paths[i]])
  {
    assert paths[i] in paths;
  }

  /** `anchor_digest` */
  method AnchorDigest(H: HashFn, a: Anchor) returns (d: Digest)
    ensures d == H(AnchorPreimage(a))
  {
    hide Ascii, EncAll;
    var h := new Hasher();
    h.Update(Ascii("rocky-solvency-anchor-v1"));
    assert h.fed == DomainBytes(AnchorV1);
    Feed(h, [
      Str(a.formatVersion), Str(a.reportDigest), Str(a.rootHash), Str(a.snapshotTime),
      Str(a.ledgerOffset), Str(a.publisher), Str(a.publisherKey), Maybe(a.prevAnchor) ]);
    d := h.Finalize(H);
  }

  /** `attestation_digest` */
  method AttestationDigest(H: HashFn, a: Attestation) returns (d: Digest)
    ensures d == H(AttestationPreimage(a))
  {
    hide Ascii, EncAll;
    var h := new Hasher();
    h.Update(Ascii("rocky-solvency-attestation-v1"));
    assert h.fed == DomainBytes(AttestationV1);
    var role := match a.role case Issuer => Ascii("issuer") case ThirdParty => Ascii("third-party");
    Feed(h, [
      Str(a.formatVersion), Str(a.reportDigest), Str(a.field), Str(role), Str(a.attestor), Str(a.basis) ]);
    d := h.Finalize(H);
  }

  /** A count, then each record in turn. */
  method FeedCounted(h: Hasher, records: Listed<Record>)
    modifies h
    ensures h.fed == old(h.fed) + Counted(records)
  {
    hide EncRecords, U64Le;
    h.Update(U64Le(|records|));
    ghost var before := h.fed;
    RecordsFrom(records);
    for i := 0 to |records|
      invariant h.fed == before + EncRecords(records[..i])
    {
      RecordsSnoc(records, i);
      Feed(h, records[i]);
    }
    assert records[..|records|] == records;
    Joined(old(h.fed), U64Le(|records|), EncRecords(records));
  }

  /** `pack_digest` */
  method PackDigest(H: HashFn, p: Pack) returns (d: Digest)
    ensures d == H(PackPreimage(p))
  {
    hide Ascii, EncAll, Counted;
    var h := new Hasher();
    h.Update(Ascii("rocky-solvency-pack-v1"));
    assert h.fed == DomainBytes(PackV1);
    Feed(h, [Str(p.formatVersion), Str(p.publisher), Str(p.snapshotTime), Str(p.reportDigest)]);
    var entries := seq(|p.entries|, i requires 0 <= i < |p.entries| =>
      [Str(p.entries[i].name), Str(p.entries[i].sha256)]);
    assert entries == Map(EntryRecord, p.entries);
    FeedCounted(h, entries);
    Joined(DomainBytes(PackV1), EncAll(PackHeader(p)), Counted(Map(EntryRecord, p.entries)));
    d := h.Finalize(H);
  }

  lemma Joined(a: Bytes, b: Bytes, c: Bytes)
    ensures (a + b) + c == a + (b + c)
  {
  }

  /** `provenance_digest` */
  method ProvenanceDigest(H: HashFn, p: Provenance) returns (d: Digest)
    ensures d == H(ProvenancePreimage(p))
  {
    hide Ascii, EncAll, Counted;
    var h := new Hasher();
    h.Update(Ascii("rocky-solvency-provenance-v1"));
    assert h.fed == DomainBytes(ProvenanceV1);
    Feed(h, [Str(p.formatVersion), Str(p.reportDigest)]);
    var sources := seq(|p.sources|, i requires 0 <= i < |p.sources| =>
      var kind := match p.sources[i].kind
        case Participant => Ascii("participant")
        case Synchronizer => Ascii("synchronizer")
        case Party => Ascii("party")
        case Template => Ascii("template")
        case OffLedger => Ascii("off-ledger");
      [Str(p.sources[i].id), Str(kind), Str(p.sources[i].name), Maybe(p.sources[i].basis)]);
    var derivations := seq(|p.derivations|, i requires 0 <= i < |p.derivations| =>
      [Str(p.derivations[i].field), Names(p.derivations[i].sources), Str(p.derivations[i].derivedBy)]);
    assert sources == Map(SourceRecord, p.sources) && derivations == Map(DerivationRecord, p.derivations);
    FeedCounted(h, sources);
    FeedCounted(h, derivations);
    Joined(DomainBytes(ProvenanceV1) + EncAll(ProvenanceHeader(p)), Counted(sources), Counted(derivations));
    Joined(DomainBytes(ProvenanceV1), EncAll(ProvenanceHeader(p)), Counted(sources) + Counted(derivations));
    d := h.Finalize(H);
  }

  /** `corpus_digest` */
  method CorpusDigest(H: HashFn, cases: Listed<CaseSpec>) returns (d: Digest)
    ensures d == H(CorpusPreimage(cases))
  {
    hide Ascii, Counted;
    var h := new Hasher();
    h.Update(Ascii("rocky-solvency-corpus-v1"));
    assert h.fed == DomainBytes(CorpusV1);
    var records := seq(|cases|, i requires 0 <= i < |cases| =>
      [Str(cases[i].id), Str(cases[i].expected), Names(cases[i].requirements)]);
    assert records == Map(CaseRecord, cases);
    FeedCounted(h, records);
    d := h.Finalize(H);
  }
}
