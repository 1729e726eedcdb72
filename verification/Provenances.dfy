/**
 The provenance graph: the rules it must keep by itself, and that the two readings of "derived from
 the ledger" agree on a graph that keeps them (solvency-report/src/provenance.rs, assurance.rs).
 */
module Provenances {
  import opened Wrappers
  import opened ByteStrings
  import opened Fields
  import opened Documents
  import opened Digests
  import opened Manifests
  import opened Verify
  import opened Inclusion
  import opened Assurance

  const PROVENANCE_FORMAT_VERSION: Text := Ascii("canton-solvency-provenance-v1")

  /** Whether a text is nothing but white space. */
  type BlankFn = Text -> bool

  datatype ProvenanceFailure =
    | UnsupportedGraph | OtherReport | OtherSigner | UnsupportedSignature | ForgedGraph
    | SharedId(id: Text) | NoBasis(id: Text)
    | UndefinedField(field: Text) | DeclaredTwice(field: Text) | NoSources(field: Text)
    | Undeclared(field: Text, id: Text)
    | NotExplained(field: Text) | AllOffLedger(field: Text)

  // ----- the graph's own rules

  function Unauthentic(
    H: HashFn, verifies: SignatureFn, report: SignedReport, p: Provenance, s: SignatureBlock, key: Text)
    : Option<ProvenanceFailure>
  {
    if p.formatVersion != PROVENANCE_FORMAT_VERSION then Some(UnsupportedGraph)
    else if p.reportDigest != ReportDigestHex(H, report.report) then Some(OtherReport)
    else if s.publicKey != key then Some(OtherSigner)
    else if s.algorithm != SIGNATURE_ALGORITHM then Some(UnsupportedSignature)
    else if verifies(key, H(ProvenancePreimage(p)), s.value) != Genuine then Some(ForgedGraph)
    else None
  }

  /** Which graphs are looked at. */
  lemma AuthenticExactly(
    H: HashFn, verifies: SignatureFn, report: SignedReport, p: Provenance, s: SignatureBlock, key: Text)
    ensures Unauthentic(H, verifies, report, p, s, key) == None <==>
      && p.formatVersion == Ascii("canton-solvency-provenance-v1")
      && p.reportDigest == Hex(H(ReportPreimage(report.report)))
      && s.publicKey == key && s.algorithm == Ascii("ed25519")
      && verifies(key, H(ProvenancePreimage(p)), s.value) == Genuine
  {
    hide ReportPreimage, ProvenancePreimage, Hex, Ascii;
  }

  predicate IdTaken(sources: seq<Source>, i: nat)
    requires i < |sources|
  {
    exists k :: 0 <= k < i && sources[k].id == sources[i].id
  }

  predicate HasBasis(blank: BlankFn, s: Source) {
    s.basis.Some? && !blank(s.basis.value)
  }

  /** What is wrong with one source. */
  function SourceFault(blank: BlankFn, sources: seq<Source>, i: nat): Option<ProvenanceFailure>
    requires i < |sources|
  {
    if IdTaken(sources, i) then Some(SharedId(sources[i].id))
    else if sources[i].kind == OffLedger && !HasBasis(blank, sources[i]) then Some(NoBasis(sources[i].id))
    else None
  }

  predicate FieldTaken(ds: seq<Derivation>, i: nat)
    requires i < |ds|
  {
    exists k :: 0 <= k < i && ds[k].field == ds[i].field
  }

  predicate Declared(sources: seq<Source>, id: Text) {
    exists k :: 0 <= k < |sources| && sources[k].id == id
  }

  /** The first of `ids` the graph does not declare. */
  function FirstUndeclared(sources: seq<Source>, ids: seq<Text>): (r: Option<Text>)
    ensures r == None <==> forall i :: 0 <= i < |ids| ==> Declared(sources, ids[i])
    ensures r.Some? ==> r.value in ids && !Declared(sources, r.value)
  {
    if ids == [] then None
    else if !Declared(sources, ids[0]) then Some(ids[0])
    else FirstUndeclared(sources, ids[1..])
  }

  /** What is wrong with one derivation. */
  function DerivationFault(sources: seq<Source>, ds: seq<Derivation>, i: nat): Option<ProvenanceFailure>
    requires i < |ds|
  {
    var d := ds[i];
    if !IsResident(d.field) then Some(UndefinedField(d.field))
    else if FieldTaken(ds, i) then Some(DeclaredTwice(d.field))
    else if d.sources == [] then Some(NoSources(d.field))
    else
      match FirstUndeclared(sources, d.sources)
      case Some(id) => Some(Undeclared(d.field, id))
      case None => None
  }

  ghost predicate SourcesSoundTo(blank: BlankFn, sources: seq<Source>, n: nat)
    requires n <= |sources|
  {
    forall k :: 0 <= k < n ==> SourceFault(blank, sources, k) == None
  }

  ghost predicate DerivationsSoundTo(p: Provenance, n: nat)
    requires n <= |p.derivations|
  {
    forall k :: 0 <= k < n ==> DerivationFault(p.sources, p.derivations, k) == None
  }

  /** Unique sources, off-ledger ones explained; known fields, once each, from declared sources. */
  ghost predicate GraphSound(blank: BlankFn, p: Provenance) {
    SourcesSoundTo(blank, p.sources, |p.sources|) && DerivationsSoundTo(p, |p.derivations|)
  }

  /** A sound graph, exactly. */
  lemma SoundExactly(blank: BlankFn, p: Provenance)
    ensures GraphSound(blank, p) <==>
      && (forall i, j :: 0 <= i < j < |p.sources| ==> p.sources[i].id != p.sources[j].id)
      && (forall i :: 0 <= i < |p.sources| && p.sources[i].kind == OffLedger ==>
            p.sources[i].basis.Some? && !blank(p.sources[i].basis.value))
      && (forall i, j :: 0 <= i < j < |p.derivations| ==> p.derivations[i].field != p.derivations[j].field)
      && (forall i :: 0 <= i < |p.derivations| ==>
            && IsResident(p.derivations[i].field)
            && p.derivations[i].sources != []
            && forall id :: id in p.derivations[i].sources ==> Declared(p.sources, id))
  {
    hide IsResident, Declared, SourcesSoundTo, DerivationsSoundTo;
    SourcesExactly(blank, p.sources);
    DerivationsExactly(p);
  }

  lemma SourcesExactly(blank: BlankFn, sources: seq<Source>)
    ensures SourcesSoundTo(blank, sources, |sources|) <==>
      && (forall i, j :: 0 <= i < j < |sources| ==> sources[i].id != sources[j].id)
      && (forall i :: 0 <= i < |sources| && sources[i].kind == OffLedger ==>
            sources[i].basis.Some? && !blank(sources[i].basis.value))
  {
    hide SourceFault;
    forall i | 0 <= i < |sources|
      ensures SourceFault(blank, sources, i) == None <==>
        && (forall k :: 0 <= k < i ==> sources[k].id != sources[i].id)
        && (sources[i].kind == OffLedger ==> sources[i].basis.Some? && !blank(sources[i].basis.value))
    {
      SourcePasses(blank, sources, i);
    }
  }

  lemma DerivationsExactly(p: Provenance)
    ensures DerivationsSoundTo(p, |p.derivations|) <==>
      && (forall i, j :: 0 <= i < j < |p.derivations| ==> p.derivations[i].field != p.derivations[j].field)
      && (forall i :: 0 <= i < |p.derivations| ==>
            && IsResident(p.derivations[i].field)
            && p.derivations[i].sources != []
            && forall id :: id in p.derivations[i].sources ==> Declared(p.sources, id))
  {
    hide IsResident, Declared, DerivationFault;
    var ds := p.derivations;
    forall i | 0 <= i < |ds|
      ensures DerivationFault(p.sources, ds, i) == None <==>
        && IsResident(ds[i].field)
        && (forall k :: 0 <= k < i ==> ds[k].field != ds[i].field)
        && ds[i].sources != []
        && forall id :: id in ds[i].sources ==> Declared(p.sources, id)
    {
      DerivationPasses(p.sources, ds, i);
    }
  }

  lemma SourcePasses(blank: BlankFn, sources: seq<Source>, i: nat)
    requires i < |sources|
    ensures SourceFault(blank, sources, i) == None <==>
      && (forall k :: 0 <= k < i ==> sources[k].id != sources[i].id)
      && (sources[i].kind == OffLedger ==> sources[i].basis.Some? && !blank(sources[i].basis.value))
  {
  }

  lemma DerivationPasses(sources: seq<Source>, ds: seq<Derivation>, i: nat)
    requires i < |ds|
    ensures DerivationFault(sources, ds, i) == None <==>
      && IsResident(ds[i].field)
      && (forall k :: 0 <= k < i ==> ds[k].field != ds[i].field)
      && ds[i].sources != []
      && forall id :: id in ds[i].sources ==> Declared(sources, id)
  {
    hide IsResident, Declared;
    assert (forall id :: id in ds[i].sources ==> Declared(sources, id))
      <==> forall k :: 0 <= k < |ds[i].sources| ==> Declared(sources, ds[i].sources[k]);
  }

  /** The sources pass: identifiers collected, the first faulty source reported. */
  method CheckSources(blank: BlankFn, sources: seq<Source>) returns (e: Option<ProvenanceFailure>, ids: set<Text>)
    ensures e == None <==> SourcesSoundTo(blank, sources, |sources|)
    ensures e.Some? ==>
      exists i :: 0 <= i < |sources| && SourcesSoundTo(blank, sources, i) && SourceFault(blank, sources, i) == e
    ensures e == None ==> forall id :: id in ids <==> Declared(sources, id)
  {
    ids := {};
    for i := 0 to |sources|
      invariant SourcesSoundTo(blank, sources, i)
      invariant forall id :: id in ids <==> exists k :: 0 <= k < i && sources[k].id == id
    {
      var source := sources[i];
      assert source.id in ids <==> IdTaken(sources, i);
      if source.id in ids {
        assert SourceFault(blank, sources, i) == Some(SharedId(source.id));
        return Some(SharedId(source.id)), ids;
      }
      ids := ids + {source.id};
      if source.kind == OffLedger && !HasBasis(blank, source) {
        assert SourceFault(blank, sources, i) == Some(NoBasis(source.id));
        return Some(NoBasis(source.id)), ids;
      }
    }
    return None, ids;
  }

  method FindUndeclared(sources: seq<Source>, ids: set<Text>, wanted: seq<Text>) returns (r: Option<Text>)
    requires forall id :: id in ids <==> Declared(sources, id)
    ensures r == FirstUndeclared(sources, wanted)
  {
    hide Declared;
    for i := 0 to |wanted|
      invariant FirstUndeclared(sources, wanted[i..]) == FirstUndeclared(sources, wanted)
    {
      assert wanted[i..][1..] == wanted[i + 1..];
      if wanted[i] !in ids {
        return Some(wanted[i]);
      }
    }
    return None;
  }

  /** The derivations pass. */
  method CheckDerivations(p: Provenance, ids: set<Text>) returns (e: Option<ProvenanceFailure>)
    requires forall id :: id in ids <==> Declared(p.sources, id)
    ensures e == None <==> DerivationsSoundTo(p, |p.derivations|)
    ensures e.Some? ==>
      exists i :: 0 <= i < |p.derivations| && DerivationsSoundTo(p, i)
                  && DerivationFault(p.sources, p.derivations, i) == e
  {
    hide Declared, FirstUndeclared, IsResident;
    var seen: set<Text> := {};
    for i := 0 to |p.derivations|
      invariant DerivationsSoundTo(p, i)
      invariant forall f :: f in seen <==> exists k :: 0 <= k < i && p.derivations[k].field == f
    {
      var d := p.derivations[i];
      assert d.field in seen <==> FieldTaken(p.derivations, i);
      var undeclared := FindUndeclared(p.sources, ids, d.sources);
      ghost var fault := DerivationFault(p.sources, p.derivations, i);
      if !IsResident(d.field) {
        assert fault == Some(UndefinedField(d.field));
        return Some(UndefinedField(d.field));
      }
      if d.field in seen {
        assert fault == Some(DeclaredTwice(d.field));
        return Some(DeclaredTwice(d.field));
      }
      seen := seen + {d.field};
      if d.sources == [] {
        assert fault == Some(NoSources(d.field));
        return Some(NoSources(d.field));
      }
      if undeclared.Some? {
        assert fault == Some(Undeclared(d.field, undeclared.value));
        return Some(Undeclared(d.field, undeclared.value));
      }
    }
    return None;
  }

  /** `verify_provenance` */
  method VerifyProvenance(
    H: HashFn, verifies: SignatureFn, blank: BlankFn, report: SignedReport, p: Provenance, s: SignatureBlock, key: Text)
    returns (e: Option<ProvenanceFailure>)
    ensures e == None <==> Unauthentic(H, verifies, report, p, s, key) == None && GraphSound(blank, p)
    ensures Unauthentic(H, verifies, report, p, s, key).Some? ==> e == Unauthentic(H, verifies, report, p, s, key)
  {
    hide SourcesSoundTo, DerivationsSoundTo, Declared, ReportDigestHex, ProvenancePreimage;
    if p.formatVersion != PROVENANCE_FORMAT_VERSION {
      return Some(UnsupportedGraph);
    }
    if p.reportDigest != ReportDigestHex(H, report.report) {
      return Some(OtherReport);
    }
    if s.publicKey != key {
      return Some(OtherSigner);
    }
    if s.algorithm != SIGNATURE_ALGORITHM {
      return Some(UnsupportedSignature);
    }
    if verifies(key, H(ProvenancePreimage(p)), s.value) != Genuine {
      return Some(ForgedGraph);
    }
    var ids: set<Text>;
    e, ids := CheckSources(blank, p.sources);
    if e.Some? {
      return;
    }
    e := CheckDerivations(p, ids);
  }

  // ----- two readings of "derived from the ledger"

  /** Collecting sources into a map by id: a later one replaces an earlier. */
  function ById(sources: seq<Source>): map<Text, Source> {
    if sources == [] then map[]
    else ById(sources[..|sources| - 1])[sources[|sources| - 1].id := sources[|sources| - 1]]
  }

  /** As `check_against_assurance` reads it: through that map. */
  predicate OnLedgerById(p: Provenance, path: Text) {
    match FindDerivation(p.derivations, path)
    case None => false
    case Some(d) => exists i :: 0 <= i < |d.sources| && TellsOnLedger(p.sources, d.sources[i])
  }

  predicate TellsOnLedger(sources: seq<Source>, id: Text) {
    id in ById(sources) && ById(sources)[id].kind != OffLedger
  }

  /** As `derives_from_ledger` reads it: some source of that id. */
  predicate SomeOnLedger(sources: seq<Source>, id: Text) {
    exists j :: 0 <= j < |sources| && sources[j].id == id && sources[j].kind != OffLedger
  }

  lemma DerivesBySome(p: Provenance, path: Text)
    ensures DerivesFromLedger(p, path) <==>
      FindDerivation(p.derivations, path).Some?
      && exists i ::
           0 <= i < |FindDerivation(p.derivations, path).value.sources|
           && SomeOnLedger(p.sources, FindDerivation(p.derivations, path).value.sources[i])
  {
    hide FindDerivation;
    if DerivesFromLedger(p, path) {
      var d := FindDerivation(p.derivations, path).value;
      var i, j :|
        && 0 <= i < |d.sources| && 0 <= j < |p.sources|
        && p.sources[j].id == d.sources[i] && p.sources[j].kind != OffLedger;
      assert SomeOnLedger(p.sources, d.sources[i]);
    }
  }

  lemma {:induction false} ByIdIsSome(sources: seq<Source>, id: Text)
    ensures id in ById(sources) ==> ById(sources)[id].id == id && ById(sources)[id] in sources
    ensures id in ById(sources) <==> Declared(sources, id)
  {
    if sources != [] {
      var before, last := sources[..|sources| - 1], sources[|sources| - 1];
      ByIdIsSome(before, id);
      assert sources == before + [last];
      assert Declared(sources, id) <==> Declared(before, id) || last.id == id by {
        if Declared(before, id) {
          var k :| 0 <= k < |before| && before[k].id == id;
          assert sources[k].id == id;
        }
        if last.id == id {
          assert sources[|before|].id == id;
        }
      }
    }
  }

  lemma ByIdImpliesSome(sources: seq<Source>, id: Text)
    requires TellsOnLedger(sources, id)
    ensures SomeOnLedger(sources, id)
  {
    ByIdIsSome(sources, id);
    var k :| 0 <= k < |sources| && sources[k] == ById(sources)[id];
  }

  predicate UniqueIds(sources: seq<Source>) {
    forall i, j :: 0 <= i < j < |sources| ==> sources[i].id != sources[j].id
  }

  /** Whenever some source of an id is on the ledger, the one the map keeps is. */
  ghost predicate LastTells(sources: seq<Source>) {
    forall id: Text :: SomeOnLedger(sources, id) ==> TellsOnLedger(sources, id)
  }

  lemma UniqueLastTells(sources: seq<Source>)
    requires UniqueIds(sources)
    ensures LastTells(sources)
  {
    hide ById;
    forall id: Text | SomeOnLedger(sources, id) ensures TellsOnLedger(sources, id) {
      var j :| 0 <= j < |sources| && sources[j].id == id && sources[j].kind != OffLedger;
      ByIdIsSome(sources, id);
      assert Declared(sources, id);
      var k :| 0 <= k < |sources| && sources[k] == ById(sources)[id];
      assert k == j;
    }
  }

  /** The readings agree for every field, whatever is derived from these sources. */
  ghost predicate ReadingsAgree(sources: Listed<Source>) {
    forall p: Provenance, path: Text | p.sources == sources :: DerivesFromLedger(p, path) <==> OnLedgerById(p, path)
  }

  lemma ReadingsAgreeIf(p: Provenance, path: Text)
    requires LastTells(p.sources)
    ensures DerivesFromLedger(p, path) <==> OnLedgerById(p, path)
  {
    hide TellsOnLedger, SomeOnLedger, FindDerivation, DerivesFromLedger;
    DerivesBySome(p, path);
    var found := FindDerivation(p.derivations, path);
    if found.Some? {
      forall i | 0 <= i < |found.value.sources|
        ensures SomeOnLedger(p.sources, found.value.sources[i]) <==> TellsOnLedger(p.sources, found.value.sources[i])
      {
        if TellsOnLedger(p.sources, found.value.sources[i]) {
          ByIdImpliesSome(p.sources, found.value.sources[i]);
        }
      }
    }
  }

  /** A graph that derives one field from one source. */
  function OneDerivation(sources: Listed<Source>, id: Text): Provenance {
    Provenance([], [], sources, [Derivation([], [id], [])])
  }

  lemma OneDerivationReads(sources: Listed<Source>, id: Text)
    ensures DerivesFromLedger(OneDerivation(sources, id), []) <==> SomeOnLedger(sources, id)
    ensures OnLedgerById(OneDerivation(sources, id), []) <==> TellsOnLedger(sources, id)
  {
    hide TellsOnLedger, SomeOnLedger;
    var p := OneDerivation(sources, id);
    var d := Derivation([], [id], []);
    assert FindDerivation(p.derivations, []) == Some(d);
    DerivesBySome(p, []);
    assert d.sources[0] == id;
  }

  /** Exactly when, for each id, the last source tells what any tells. */
  lemma ReadingsAgreeExactly(sources: Listed<Source>)
    ensures ReadingsAgree(sources) <==> LastTells(sources)
  {
    hide TellsOnLedger, SomeOnLedger, DerivesFromLedger, OnLedgerById;
    if LastTells(sources) {
      forall p: Provenance, path: Text | p.sources == sources
        ensures DerivesFromLedger(p, path) <==> OnLedgerById(p, path)
      {
        ReadingsAgreeIf(p, path);
      }
    }
    if ReadingsAgree(sources) {
      forall id: Text | SomeOnLedger(sources, id) ensures TellsOnLedger(sources, id) {
        OneDerivationReads(sources, id);
        var p := OneDerivation(sources, id);
        var none: Text := [];
        assert DerivesFromLedger(p, none) <==> OnLedgerById(p, none);
      }
    }
  }

  /** On a graph the verifier accepts they always agree. */
  lemma AcceptedReadingsAgree(blank: BlankFn, p: Provenance, path: Text)
    requires GraphSound(blank, p)
    ensures DerivesFromLedger(p, path) <==> OnLedgerById(p, path)
  {
    hide GraphSound, LastTells, DerivesFromLedger, OnLedgerById, IsResident;
    SoundExactly(blank, p);
    UniqueLastTells(p.sources);
    ReadingsAgreeIf(p, path);
  }

  // ----- the graph against the declared levels

  /** `check_against_assurance` */
  method CheckAgainstAssurance(p: Provenance, levels: map<Text, Level>) returns (e: Option<ProvenanceFailure>)
    ensures e == None <==> forall path :: path in levels && levels[path] == LedgerDerived ==> OnLedgerById(p, path)
    ensures e.Some? ==> match e.value
      case NotExplained(f) => f in levels && levels[f] == LedgerDerived && FindDerivation(p.derivations, f) == None
      case AllOffLedger(f) =>
        f in levels && levels[f] == LedgerDerived && FindDerivation(p.derivations, f).Some? && !OnLedgerById(p, f)
      case _ => false
  {
    hide OnLedgerById, FindDerivation, KeysOf;
    var paths := KeysOf(levels);
    for i := 0 to |paths|
      invariant forall k :: 0 <= k < i && levels[paths[k]] == LedgerDerived ==> OnLedgerById(p, paths[k])
    {
      if levels[paths[i]] == LedgerDerived {
        if FindDerivation(p.derivations, paths[i]) == None {
          NotExplainedNotDerived(p, paths[i]);
          return Some(NotExplained(paths[i]));
        }
        if !OnLedgerById(p, paths[i]) {
          return Some(AllOffLedger(paths[i]));
        }
      }
    }
    assert forall path :: path in levels ==> path in paths;
    return None;
  }

  lemma NotExplainedNotDerived(p: Provenance, path: Text)
    requires FindDerivation(p.derivations, path) == None
    ensures !OnLedgerById(p, path)
  {
  }

  /** Levels that the evidence substantiates never contradict the accepted graph among it. */
  lemma SubstantiatedPassesTheGraph(
    H: HashFn, verifies: SignatureFn, blank: BlankFn, signed: SignedReport, levels: map<Text, Level>, e: Evidence,
    trusted: TrustedKeys)
    requires Substantiated(H, verifies, signed, levels, e, trusted)
    requires e.provenance.Some? && GraphSound(blank, e.provenance.value)
    ensures forall path :: path in levels && levels[path] == LedgerDerived ==> OnLedgerById(e.provenance.value, path)
  {
    hide IsWithheld, Pins, DerivesFromLedger, FieldPath, ReportDigestHex, AttestedBy, VerifyV1, GraphSound,
      OnLedgerById;
    forall path | path in levels && levels[path] == LedgerDerived ensures OnLedgerById(e.provenance.value, path) {
      var f :| path == FieldPath(f) && Supports(H, verifies, signed, e, trusted, f, levels[path]);
      AcceptedReadingsAgree(blank, e.provenance.value, path);
    }
  }
}
