/**
 Compatibility statements: what an implementation may report for each corpus case
 (solvency-report/src/compat.rs).
 */
module Compat {
  import opened Wrappers
  import opened ByteStrings
  import opened Fields
  import opened Documents
  import opened Digests

  const SKIP: Text := Ascii("skip")

  datatype CaseResult = CaseResult(id: Text, expected: Text, outcome: Text)

  datatype CompatStatement = CompatStatement(supports: seq<Text>, corpusDigest: Bytes, results: seq<CaseResult>)

  datatype Defect =
    | NoResult(id: Text)
    | ClaimedButSkipped(id: Text)
    | ReportedUnclaimed(id: Text, outcome: Text, missing: seq<Text>)

  function FindResult(results: seq<CaseResult>, id: Text): (r: Option<CaseResult>)
    ensures r.None? <==> forall i :: 0 <= i < |results| ==> results[i].id != id
    ensures r.Some? ==>
      exists i :: 0 <= i < |results| && results[i] == r.value && r.value.id == id
                  && forall k :: 0 <= k < i ==> results[k].id != id
  {
    if results == [] then None
    else if results[0].id == id then Some(results[0])
    else
      var found := FindResult(results[1..], id);
      assert found.Some? ==> forall i :: 0 <= i < |results[1..]| ==> results[1..][i] == results[i + 1];
      found
  }

  function Missing(requirements: seq<Text>, supports: seq<Text>): (r: seq<Text>)
    ensures r == [] <==> forall n :: n in requirements ==> n in supports
    ensures forall n :: n in r <==> n in requirements && n !in supports
  {
    if requirements == [] then []
    else
      assert requirements == [requirements[0]] + requirements[1..];
      (if requirements[0] in supports then [] else [requirements[0]]) + Missing(requirements[1..], supports)
  }

  /** What is missing is listed in the order it is required. */
  lemma {:induction false} MissingInOrder(before: seq<Text>, after: seq<Text>, supports: seq<Text>)
    ensures Missing(before + after, supports) == Missing(before, supports) + Missing(after, supports)
  {
    if before == [] {
      assert before + after == after;
    } else {
      assert (before + after)[1..] == before[1..] + after;
      MissingInOrder(before[1..], after, supports);
    }
  }

  /** The rule: a case is run exactly when everything it requires is claimed. */
  predicate Honest(s: CompatStatement, c: CaseSpec) {
    var result := FindResult(s.results, c.id);
    && result.Some?
    && (result.value.outcome == SKIP <==> exists n :: n in c.requirements && n !in s.supports)
  }

  /** The one defect a case can have. */
  function DefectOf(s: CompatStatement, c: CaseSpec): (d: Option<Defect>)
    ensures d.None? <==> Honest(s, c)
    ensures d.Some? ==>
      var result := FindResult(s.results, c.id);
      match d.value
      case NoResult(id) => id == c.id && result.None?
      case ClaimedButSkipped(id) =>
        && id == c.id && result.Some? && result.value.outcome == SKIP
        && forall n :: n in c.requirements ==> n in s.supports
      case ReportedUnclaimed(id, outcome, missing) =>
        && id == c.id && result.Some? && result.value.outcome == outcome != SKIP && missing != []
        && forall n :: n in missing <==> n in c.requirements && n !in s.supports
  {
    var result := FindResult(s.results, c.id);
    var missing := Missing(c.requirements, s.supports);
    if result.None? then Some(NoResult(c.id))
    else if missing == [] && result.value.outcome == SKIP then Some(ClaimedButSkipped(c.id))
    else if missing != [] && result.value.outcome != SKIP then
      Some(ReportedUnclaimed(c.id, result.value.outcome, missing))
    else None
  }

  function DefectsOf(s: CompatStatement, cases: seq<CaseSpec>): seq<Defect> {
    if cases == [] then []
    else
      DefectsOf(s, cases[..|cases| - 1])
      + match DefectOf(s, cases[|cases| - 1]) case Some(d) => [d] case None => []
  }

  /** `defects`: each case that breaks the rule, explained, in order, and no other. */
  method Defects(s: CompatStatement, cases: seq<CaseSpec>) returns (out: seq<Defect>)
    ensures out == DefectsOf(s, cases)
    ensures out == [] <==> forall i :: 0 <= i < |cases| ==> Honest(s, cases[i])
  {
    hide FindResult, Missing, Honest;
    out := [];
    for i := 0 to |cases|
      invariant out == DefectsOf(s, cases[..i])
      invariant out == [] <==> forall k :: 0 <= k < i ==> Honest(s, cases[k])
    {
      var c := cases[i];
      assert cases[..i + 1][..i] == cases[..i];
      var result := FindResult(s.results, c.id);
      if result.None? {
        out := out + [NoResult(c.id)];
        continue;
      }
      var missing := Missing(c.requirements, s.supports);
      var claimed := missing == [];
      var skipped := result.value.outcome == SKIP;
      if claimed && skipped {
        out := out + [ClaimedButSkipped(c.id)];
      }
      if !claimed && !skipped {
        out := out + [ReportedUnclaimed(c.id, result.value.outcome, missing)];
      }
    }
    assert cases[..|cases|] == cases;
  }

  /**
   Two faultless statements over one corpus digest that claim the same features ran the same cases:
   neither can pass, by not reading it, a case the other had to run.
   */
  lemma SameClaimsSameCases(
    H: HashFn, s: CompatStatement, t: CompatStatement, cases: Listed<CaseSpec>, others: Listed<CaseSpec>)
    requires s.corpusDigest == Hex(H(CorpusPreimage(cases))) && t.corpusDigest == Hex(H(CorpusPreimage(others)))
    requires s.corpusDigest == t.corpusDigest
    requires forall n :: n in s.supports <==> n in t.supports
    requires forall i :: 0 <= i < |cases| ==> Honest(s, cases[i])
    requires forall i :: 0 <= i < |others| ==> Honest(t, others[i])
    ensures
      || Collision(H, {CorpusPreimage(cases), CorpusPreimage(others)})
      || (cases == others
          && forall i :: 0 <= i < |cases| ==>
            && FindResult(s.results, cases[i].id).Some? && FindResult(t.results, cases[i].id).Some?
            && (FindResult(s.results, cases[i].id).value.outcome == Ascii("skip")
                <==> FindResult(t.results, cases[i].id).value.outcome == Ascii("skip")))
  {
    hide CorpusPreimage, FindResult, Hex;
    HexInjective(H(CorpusPreimage(cases)), H(CorpusPreimage(others)));
    if CorpusPreimage(cases) == CorpusPreimage(others) {
      CorpusBound(cases, others);
    } else {
      var S := {CorpusPreimage(cases), CorpusPreimage(others)};
      assert CorpusPreimage(cases) in S && CorpusPreimage(others) in S;
    }
  }
}
