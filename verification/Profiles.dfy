/**
 The profile registry: what a report must publish for the statement it names to hold, and what that
 says of the leaves under the root (solvency-report/src/profile.rs).
 */
module Profiles {
  import opened Wrappers
  import opened ByteStrings
  import opened Amounts
  import opened Balances
  import opened LengthPrefix
  import opened Fields
  import opened Documents
  import opened Leaves
  import opened SumTrees

  datatype LeafKind =
    | CustomerLeaf | EntityLeaf | RepoLeg | Shareholder | SettledTrade | AttestedHolder | CustodyPosition

  datatype Aggregate = AnySums | AnyMarkPrices | SumsUnder(mapName: Text)

  datatype CoverRule = CoverRule(covering: Text, covered: Text)

  datatype ProfileRules = ProfileRules(
    name: Text, leaf: LeafKind, required: seq<Aggregate>, coverage: Option<CoverRule>,
    leafMaps: seq<Text>, unanimous: seq<Text>)

  datatype ProfileError =
    | UnknownProfile
    | Vacuous(aggregate: Aggregate)
    | Uncovered(asset: Bytes)
    | NotUnanimous(key: Bytes)

  const COLLATERAL: Text := Ascii("collateral")
  const EXPOSURE: Text := Ascii("exposure")
  const ATTESTED: Text := Ascii("attested")

  const LIABILITIES: ProfileRules :=
    ProfileRules(Ascii("solvency.liabilities"), CustomerLeaf, [AnySums], None, [], [])

  const REGISTRY: seq<ProfileRules> := [
    LIABILITIES,
    ProfileRules(Ascii("solvency.group"), EntityLeaf, [AnySums], None, [], []),
    ProfileRules(
      Ascii("collateral.repo"), RepoLeg, [SumsUnder(COLLATERAL), SumsUnder(EXPOSURE)],
      Some(CoverRule(COLLATERAL, EXPOSURE)), [], []),
    ProfileRules(
      Ascii("fund.nav"), Shareholder, [SumsUnder(Ascii("units")), SumsUnder(Ascii("entitlement"))], None, [], []),
    ProfileRules(
      Ascii("settlement.dvp"), SettledTrade, [SumsUnder(Ascii("delivered")), SumsUnder(Ascii("paid"))],
      None, [Ascii("delivered"), Ascii("paid")], []),
    ProfileRules(
      Ascii("eligibility.holder"), AttestedHolder, [SumsUnder(ATTESTED)], None, [ATTESTED], [ATTESTED]),
    ProfileRules(
      Ascii("coverage.custody"), CustodyPosition, [SumsUnder(Ascii("held"))], None, [Ascii("held")], [])
  ]

  function LookupIn(registry: seq<ProfileRules>, name: Text): (r: Option<ProfileRules>)
    ensures r.Some? ==> r.value in registry && r.value.name == name
    ensures r.None? ==> forall i :: 0 <= i < |registry| ==> registry[i].name != name
  {
    if registry == [] then None
    else if registry[0].name == name then Some(registry[0])
    else LookupIn(registry[1..], name)
  }

  function Lookup(name: Text): (r: Option<ProfileRules>)
    ensures r.Some? ==> r.value in REGISTRY && r.value.name == name
    ensures r.None? ==> forall i :: 0 <= i < |REGISTRY| ==> REGISTRY[i].name != name
  {
    LookupIn(REGISTRY, name)
  }

  // ----- qualified keys

  /** `strip_prefix` of `<map>/`. */
  function StripMap(key: Bytes, mapName: Bytes): (r: Option<Bytes>)
    ensures forall rest :: r == Some(rest) <==> key == Qualified(mapName, rest)
  {
    var n := |mapName| + 1;
    if n <= |key| && key[..n] == mapName + [SLASH] then
      assert key == Qualified(mapName, key[n..]);
      assert forall rest :: key == Qualified(mapName, rest) ==> rest == key[n..];
      Some(key[n..])
    else
      assert forall rest :: Qualified(mapName, rest)[..n] == mapName + [SLASH];
      None
  }

  // ----- the three rules

  predicate Carries(r: Report, a: Aggregate) {
    match a
    case AnySums => r.rootSums != map[]
    case AnyMarkPrices => r.markPrices != map[]
    case SumsUnder(m) => exists k :: k in r.rootSums && StripMap(k, m).Some?
  }

  /** Per asset: a surplus in one does not excuse a shortfall in another. */
  predicate Covers(sums: Totals, rule: CoverRule) {
    forall k :: k in sums && StripMap(k, rule.covered).Some? ==>
      sums[k] <= At(sums, Qualified(rule.covering, StripMap(k, rule.covered).value))
  }

  /** Every key of the map totals one per leaf. */
  predicate UnanimousIn(sums: Totals, mapName: Text, leaves: nat) {
    forall k :: k in sums && StripMap(k, mapName).Some? ==> sums[k] == leaves * SCALE
  }

  lemma CoversMeans(sums: Totals, rule: CoverRule)
    ensures Covers(sums, rule) <==>
      forall asset :: At(sums, Qualified(rule.covered, asset)) <= At(sums, Qualified(rule.covering, asset))
  {
    hide Qualified, StripMap;
    if Covers(sums, rule) {
      forall asset ensures At(sums, Qualified(rule.covered, asset)) <= At(sums, Qualified(rule.covering, asset)) {
        assert StripMap(Qualified(rule.covered, asset), rule.covered) == Some(asset);
      }
    }
  }

  lemma UnanimousMeans(sums: Totals, mapName: Text, leaves: nat)
    ensures UnanimousIn(sums, mapName, leaves) <==>
      forall rule :: Qualified(mapName, rule) in sums ==> sums[Qualified(mapName, rule)] == leaves * SCALE
  {
    hide Qualified, StripMap;
    if UnanimousIn(sums, mapName, leaves) {
      forall rule | Qualified(mapName, rule) in sums ensures sums[Qualified(mapName, rule)] == leaves * SCALE {
        assert StripMap(Qualified(mapName, rule), mapName) == Some(rule);
      }
    }
  }

  predicate Meets(r: Report, rules: ProfileRules) {
    && (forall i :: 0 <= i < |rules.required| ==> Carries(r, rules.required[i]))
    && (rules.coverage.Some? ==> Covers(r.rootSums, rules.coverage.value))
    && forall i :: 0 <= i < |rules.unanimous| ==> UnanimousIn(r.rootSums, rules.unanimous[i], r.leafCount)
  }

  // ----- what each registered name demands

  lemma Registered(k: nat)
    requires k < |REGISTRY|
    ensures Lookup(REGISTRY[k].name) == Some(REGISTRY[k])
  {
    var found := Lookup(REGISTRY[k].name).value;
    var j :| 0 <= j < |REGISTRY| && REGISTRY[j] == found;
    NamesDiffer(j, k);
  }

  lemma NamesDiffer(j: nat, k: nat)
    requires j < |REGISTRY| && k < |REGISTRY| && REGISTRY[j].name == REGISTRY[k].name
    ensures j == k
  {
    assert REGISTRY[1].name[0] == Ascii("solvency.group")[0] && REGISTRY[4].name[1] == Ascii("settlement.dvp")[1];
    assert |REGISTRY[j].name| == NameLength(j) && |REGISTRY[k].name| == NameLength(k);
  }

  function NameLength(k: nat): nat {
    match k
    case 0 => 20 case 1 => 14 case 2 => 15 case 3 => 8 case 4 => 14 case 5 => 18 case _ => 16
  }

  lemma UnderRegistered(r: Report, k: nat)
    requires k < |REGISTRY| && r.profile == REGISTRY[k].name
    ensures ProfileOf(r) == if Meets(r, REGISTRY[k]) then Some(REGISTRY[k]) else None
  {
    hide Meets, Lookup;
    Registered(k);
  }

  lemma MeetsAggregates(r: Report, rules: ProfileRules)
    requires 1 <= |rules.required| <= 2 && rules.coverage == None && |rules.unanimous| <= 1
    ensures Meets(r, rules) <==>
      && Carries(r, rules.required[0])
      && (|rules.required| == 2 ==> Carries(r, rules.required[1]))
      && (|rules.unanimous| == 1 ==> UnanimousIn(r.rootSums, rules.unanimous[0], r.leafCount))
  {
    hide Carries, UnanimousIn;
  }

  lemma MeetsCovered(r: Report, rules: ProfileRules)
    requires |rules.required| == 2 && rules.coverage.Some? && rules.unanimous == []
    ensures Meets(r, rules) <==>
      && Carries(r, rules.required[0]) && Carries(r, rules.required[1])
      && Covers(r.rootSums, rules.coverage.value)
  {
    hide Carries, Covers;
  }

  /** Some amount is published under the map, worth something or not. */
  ghost predicate SumsPublished(r: Report, mapName: Text) {
    exists asset :: Qualified(mapName, asset) in r.rootSums
  }

  lemma CarriesMeans(r: Report, mapName: Text)
    ensures Carries(r, SumsUnder(mapName)) <==> SumsPublished(r, mapName)
    ensures Carries(r, AnyMarkPrices) <==> |r.markPrices| > 0
  {
    hide Qualified, StripMap;
    if asset :| Qualified(mapName, asset) in r.rootSums {
      assert StripMap(Qualified(mapName, asset), mapName) == Some(asset);
    }
  }

  /** The solvency profiles, customers' and groups': any total at all, over their own kind of leaf. */
  lemma SolvencyDemands(r: Report)
    ensures r.profile == Ascii("solvency.liabilities") ==>
      (ProfileOf(r).Some? <==> |r.rootSums| > 0) && (ProfileOf(r).Some? ==> ProfileOf(r).value.leaf == CustomerLeaf)
    ensures r.profile == Ascii("solvency.group") ==>
      (ProfileOf(r).Some? <==> |r.rootSums| > 0) && (ProfileOf(r).Some? ==> ProfileOf(r).value.leaf == EntityLeaf)
  {
    hide Ascii;
    if r.profile == REGISTRY[0].name {
      UnderRegistered(r, 0);
      MeetsAggregates(r, REGISTRY[0]);
    }
    if r.profile == REGISTRY[1].name {
      UnderRegistered(r, 1);
      MeetsAggregates(r, REGISTRY[1]);
    }
  }

  /** Repo: collateral of every asset at least its exposure. */
  lemma RepoDemands(r: Report)
    requires r.profile == Ascii("collateral.repo")
    ensures ProfileOf(r).Some? <==>
      && SumsPublished(r, Ascii("collateral")) && SumsPublished(r, Ascii("exposure"))
      && forall asset ::
           At(r.rootSums, Qualified(Ascii("exposure"), asset)) <= At(r.rootSums, Qualified(Ascii("collateral"), asset))
    ensures ProfileOf(r).Some? ==> ProfileOf(r).value.leaf == RepoLeg
  {
    hide Ascii, SumsPublished, Carries, Covers, Qualified;
    UnderRegistered(r, 2);
    CarriesMeans(r, Ascii("collateral"));
    CarriesMeans(r, Ascii("exposure"));
    CoversMeans(r.rootSums, CoverRule(COLLATERAL, EXPOSURE));
    MeetsCovered(r, REGISTRY[2]);
  }

  /** A fund publishes units and entitlements. */
  lemma FundDemands(r: Report)
    requires r.profile == Ascii("fund.nav")
    ensures ProfileOf(r).Some? <==> SumsPublished(r, Ascii("units")) && SumsPublished(r, Ascii("entitlement"))
    ensures ProfileOf(r).Some? ==> ProfileOf(r).value.leaf == Shareholder && ProfileOf(r).value.leafMaps == []
  {
    hide Ascii, SumsPublished, Carries;
    UnderRegistered(r, 3);
    MeetsAggregates(r, REGISTRY[3]);
    CarriesMeans(r, Ascii("units"));
    CarriesMeans(r, Ascii("entitlement"));
  }

  /** Settlement publishes both legs, and wants both in every leaf. */
  lemma SettlementDemands(r: Report)
    requires r.profile == Ascii("settlement.dvp")
    ensures ProfileOf(r).Some? <==> SumsPublished(r, Ascii("delivered")) && SumsPublished(r, Ascii("paid"))
    ensures ProfileOf(r).Some? ==> ProfileOf(r).value.leaf == SettledTrade
    ensures ProfileOf(r).Some? ==> ProfileOf(r).value.leafMaps == [Ascii("delivered"), Ascii("paid")]
  {
    hide Ascii, SumsPublished, Carries;
    UnderRegistered(r, 4);
    MeetsAggregates(r, REGISTRY[4]);
    CarriesMeans(r, Ascii("delivered"));
    CarriesMeans(r, Ascii("paid"));
  }

  /** Eligibility: every attested rule totals one per leaf, and every leaf attests something. */
  lemma EligibilityDemands(r: Report)
    requires r.profile == Ascii("eligibility.holder")
    ensures ProfileOf(r).Some? <==>
      && SumsPublished(r, Ascii("attested"))
      && forall rule :: Qualified(Ascii("attested"), rule) in r.rootSums ==>
           r.rootSums[Qualified(Ascii("attested"), rule)] == r.leafCount * 1_000_000_000_000_000_000
    ensures ProfileOf(r).Some? ==> ProfileOf(r).value.leaf == AttestedHolder
    ensures ProfileOf(r).Some? ==> ProfileOf(r).value.leafMaps == [Ascii("attested")]
  {
    hide Ascii, SumsPublished, Carries, UnanimousIn, Qualified;
    UnderRegistered(r, 5);
    MeetsAggregates(r, REGISTRY[5]);
    CarriesMeans(r, Ascii("attested"));
    UnanimousMeans(r.rootSums, ATTESTED, r.leafCount);
  }

  /** Custody publishes what is held, and wants it in every leaf. */
  lemma CustodyDemands(r: Report)
    requires r.profile == Ascii("coverage.custody")
    ensures ProfileOf(r).Some? <==> SumsPublished(r, Ascii("held"))
    ensures ProfileOf(r).Some? ==>
      ProfileOf(r).value.leaf == CustodyPosition && ProfileOf(r).value.leafMaps == [Ascii("held")]
  {
    hide Ascii, SumsPublished, Carries;
    UnderRegistered(r, 6);
    MeetsAggregates(r, REGISTRY[6]);
    CarriesMeans(r, Ascii("held"));
  }

  /** No other name is known. */
  lemma UnknownNames(r: Report)
    ensures Lookup(r.profile).Some? <==>
      r.profile in [
        Ascii("solvency.liabilities"), Ascii("solvency.group"), Ascii("collateral.repo"), Ascii("fund.nav"),
        Ascii("settlement.dvp"), Ascii("eligibility.holder"), Ascii("coverage.custody") ]
  {
    hide Ascii;
    if Lookup(r.profile).Some? {
      var j :| 0 <= j < |REGISTRY| && REGISTRY[j] == Lookup(r.profile).value;
    } else {
      assert REGISTRY[0].name != r.profile && REGISTRY[1].name != r.profile && REGISTRY[2].name != r.profile;
      assert REGISTRY[3].name != r.profile && REGISTRY[4].name != r.profile && REGISTRY[5].name != r.profile;
      assert REGISTRY[6].name != r.profile;
    }
  }

  // ----- checking them

  lemma AtKey(sums: Totals, key: Bytes)
    requires key in sums
    ensures At(sums, key) == sums[key]
  {
  }

  /** The first asset, in key order, whose covered total is above the covering one. */
  method FirstUncovered(sums: AmountMap, rule: CoverRule) returns (r: Option<Bytes>)
    ensures r.None? <==> Covers(sums, rule)
    ensures r.Some? ==> At(sums, Qualified(rule.covered, r.value)) > At(sums, Qualified(rule.covering, r.value))
  {
    hide Qualified, StripMap, At, KeysOf;
    var keys := KeysOf(sums);
    for i := 0 to |keys|
      invariant forall k :: 0 <= k < i && StripMap(keys[k], rule.covered).Some? ==>
        sums[keys[k]] <= At(sums, Qualified(rule.covering, StripMap(keys[k], rule.covered).value))
    {
      var stripped := StripMap(keys[i], rule.covered);
      if stripped.Some? && At(sums, Qualified(rule.covering, stripped.value)) < sums[keys[i]] {
        assert keys[i] == Qualified(rule.covered, stripped.value) && sums[keys[i]] == At(sums, keys[i]) by {
          AtKey(sums, keys[i]);
        }
        return Some(stripped.value);
      }
    }
    assert forall k :: k in sums ==> k in keys;
    return None;
  }

  /** `saturating_mul`, which a `u64` leaf count never makes saturate. */
  function OnePerLeaf(leaves: U64): Amount {
    leaves * SCALE
  }

  /** The first key of the map that does not total one per leaf. */
  method FirstDissent(sums: AmountMap, mapName: Text, leaves: U64) returns (r: Option<Bytes>)
    ensures r.None? <==> UnanimousIn(sums, mapName, leaves)
    ensures r.Some? ==> r.value in sums && sums[r.value] != leaves * SCALE && StripMap(r.value, mapName).Some?
  {
    hide Qualified, StripMap;
    var keys := KeysOf(sums);
    for i := 0 to |keys|
      invariant forall k :: 0 <= k < i && StripMap(keys[k], mapName).Some? ==> sums[keys[k]] == leaves * SCALE
    {
      if StripMap(keys[i], mapName).Some? && sums[keys[i]] != OnePerLeaf(leaves) {
        return Some(keys[i]);
      }
    }
    assert forall k :: k in sums ==> k in keys;
    return None;
  }

  /** The rules a report is under, if it is registered and meets them. */
  function ProfileOf(r: Report): Option<ProfileRules> {
    match Lookup(r.profile)
    case Some(rules) => if Meets(r, rules) then Some(rules) else None
    case None => None
  }

  /** The first `n` aggregates are there. */
  predicate AllCarried(r: Report, rules: ProfileRules, n: nat)
    requires n <= |rules.required|
  {
    forall k :: 0 <= k < n ==> Carries(r, rules.required[k])
  }

  /** `profile::validate` */
  method Validate(r: Report) returns (result: Result<ProfileRules, ProfileError>)
    ensures result.Ok? <==> ProfileOf(r).Some?
    ensures result.Ok? ==> result.value == ProfileOf(r).value
    ensures result == Err(UnknownProfile) <==> Lookup(r.profile).None?
    ensures result.Err? && result.error.Vacuous? ==>
      exists i ::
        && 0 <= i < |Lookup(r.profile).value.required| && AllCarried(r, Lookup(r.profile).value, i)
        && Lookup(r.profile).value.required[i] == result.error.aggregate
        && !Carries(r, result.error.aggregate)
    ensures result.Err? && result.error.Uncovered? ==>
      && AllCarried(r, Lookup(r.profile).value, |Lookup(r.profile).value.required|)
      && Lookup(r.profile).value.coverage.Some?
      && var rule := Lookup(r.profile).value.coverage.value;
         At(r.rootSums, Qualified(rule.covered, result.error.asset))
           > At(r.rootSums, Qualified(rule.covering, result.error.asset))
    ensures result.Err? && result.error.NotUnanimous? ==>
      && AllCarried(r, Lookup(r.profile).value, |Lookup(r.profile).value.required|)
      && (Lookup(r.profile).value.coverage.Some? ==> Covers(r.rootSums, Lookup(r.profile).value.coverage.value))
      && result.error.key in r.rootSums && r.rootSums[result.error.key] != r.leafCount * SCALE
  {
    hide Lookup, Carries, Covers, UnanimousIn, Meets;
    var found := Lookup(r.profile);
    if found.None? {
      return Err(UnknownProfile);
    }
    var rules := found.value;
    for i := 0 to |rules.required|
      invariant forall k :: 0 <= k < i ==> Carries(r, rules.required[k])
    {
      if !Carries(r, rules.required[i]) {
        MissingRefuses(r, rules, i);
        return Err(Vacuous(rules.required[i]));
      }
    }
    if rules.coverage.Some? {
      var short := FirstUncovered(r.rootSums, rules.coverage.value);
      if short.Some? {
        UncoveredRefuses(r, rules);
        return Err(Uncovered(short.value));
      }
    }
    for i := 0 to |rules.unanimous|
      invariant forall k :: 0 <= k < i ==> UnanimousIn(r.rootSums, rules.unanimous[k], r.leafCount)
    {
      var dissent := FirstDissent(r.rootSums, rules.unanimous[i], r.leafCount);
      if dissent.Some? {
        DissentRefuses(r, rules, i);
        return Err(NotUnanimous(dissent.value));
      }
    }
    AllMet(r, rules);
    return Ok(rules);
  }

  lemma MissingRefuses(r: Report, rules: ProfileRules, i: nat)
    requires i < |rules.required| && !Carries(r, rules.required[i])
    ensures !Meets(r, rules)
  {
    hide Carries, Covers, UnanimousIn;
  }

  lemma UncoveredRefuses(r: Report, rules: ProfileRules)
    requires rules.coverage.Some? && !Covers(r.rootSums, rules.coverage.value)
    ensures !Meets(r, rules)
  {
    hide Carries, Covers, UnanimousIn;
  }

  lemma DissentRefuses(r: Report, rules: ProfileRules, i: nat)
    requires i < |rules.unanimous| && !UnanimousIn(r.rootSums, rules.unanimous[i], r.leafCount)
    ensures !Meets(r, rules)
  {
    hide Carries, Covers, UnanimousIn;
  }

  lemma AllMet(r: Report, rules: ProfileRules)
    requires forall i :: 0 <= i < |rules.required| ==> Carries(r, rules.required[i])
    requires rules.coverage.Some? ==> Covers(r.rootSums, rules.coverage.value)
    requires forall i :: 0 <= i < |rules.unanimous| ==> UnanimousIn(r.rootSums, rules.unanimous[i], r.leafCount)
    ensures Meets(r, rules)
  {
    hide Carries, Covers, UnanimousIn;
  }

  // ----- what the root says of the leaves

  /** Legs that are each covered make a covered root. */
  lemma {:induction false} CoveredLegsCover(nodes: seq<Node>, rule: CoverRule)
    requires forall i :: 0 <= i < |nodes| ==> Covers(nodes[i].sums, rule)
    ensures Covers(Total(nodes), rule)
  {
    hide Qualified, Plus, Covers;
    CoversMeans(Total(nodes), rule);
    if nodes != [] {
      CoveredLegsCover(nodes[1..], rule);
      CoversMeans(nodes[0].sums, rule);
      CoversMeans(Total(nodes[1..]), rule);
      forall asset
        ensures At(Total(nodes), Qualified(rule.covered, asset)) <= At(Total(nodes), Qualified(rule.covering, asset))
      {
        var low, high := Qualified(rule.covered, asset), Qualified(rule.covering, asset);
        PlusAt(nodes[0].sums, Total(nodes[1..]), low);
        PlusAt(nodes[0].sums, Total(nodes[1..]), high);
        assert At(nodes[0].sums, low) <= At(nodes[0].sums, high);
        assert At(Total(nodes[1..]), low) <= At(Total(nodes[1..]), high);
      }
    }
  }

  /** No leaf votes more than once. */
  predicate NoDoubleVote(nodes: seq<Node>, key: Bytes) {
    forall i :: 0 <= i < |nodes| ==> At(nodes[i].sums, key) <= SCALE
  }

  predicate AllVote(nodes: seq<Node>, key: Bytes) {
    forall i :: 0 <= i < |nodes| ==> At(nodes[i].sums, key) == SCALE
  }

  lemma {:induction false} VotesBounded(nodes: seq<Node>, key: Bytes)
    requires NoDoubleVote(nodes, key)
    ensures At(Total(nodes), key) <= |nodes| * SCALE
    ensures At(Total(nodes), key) == |nodes| * SCALE ==> AllVote(nodes, key)
  {
    hide Plus;
    if nodes != [] {
      VotesBounded(nodes[1..], key);
      PlusAt(nodes[0].sums, Total(nodes[1..]), key);
      if At(Total(nodes), key) == |nodes| * SCALE {
        forall i | 0 <= i < |nodes| ensures At(nodes[i].sums, key) == SCALE {
          if i > 0 {
            assert nodes[i] == nodes[1..][i - 1];
          }
        }
      }
    }
  }

  lemma {:induction false} AllVotesTotal(nodes: seq<Node>, key: Bytes)
    requires AllVote(nodes, key)
    ensures At(Total(nodes), key) == |nodes| * SCALE
  {
    hide Plus;
    if nodes != [] {
      AllVotesTotal(nodes[1..], key);
      PlusAt(nodes[0].sums, Total(nodes[1..]), key);
    }
  }

  /**
   `eligibility.holder`: a root total of one per leaf means every leaf carries one exactly when no
   leaf carries more than one, which no check of the root can tell.
   */
  lemma UnanimityExactly(H: HashFn, levels: seq<seq<Node>>, r: Report, mapName: Text, rule: Bytes)
    requires IsTree(H, levels) && r.rootSums == Root(levels).sums && r.leafCount == |levels[0]|
    requires UnanimousIn(r.rootSums, mapName, r.leafCount) && Qualified(mapName, rule) in r.rootSums
    ensures AllVote(levels[0], Qualified(mapName, rule)) <==> NoDoubleVote(levels[0], Qualified(mapName, rule))
  {
    hide Qualified, Paired, Total;
    TreeClimbs(H, levels);
    RootTotals(H, levels);
    UnanimousMeans(r.rootSums, mapName, r.leafCount);
    var key := Qualified(mapName, rule);
    if NoDoubleVote(levels[0], key) {
      VotesBounded(levels[0], key);
    }
  }

  /** When every leaf carries one, the root passes. */
  lemma UnanimousLeavesPass(H: HashFn, levels: seq<seq<Node>>, mapName: Text)
    requires IsTree(H, levels)
    requires forall rule :: Qualified(mapName, rule) in Root(levels).sums ==>
      AllVote(levels[0], Qualified(mapName, rule))
    ensures UnanimousIn(Root(levels).sums, mapName, |levels[0]|)
  {
    hide Qualified, Paired, Total, AllVote;
    TreeClimbs(H, levels);
    RootTotals(H, levels);
    UnanimousMeans(Root(levels).sums, mapName, |levels[0]|);
    forall rule | Qualified(mapName, rule) in Root(levels).sums
      ensures Root(levels).sums[Qualified(mapName, rule)] == |levels[0]| * SCALE
    {
      AllVotesTotal(levels[0], Qualified(mapName, rule));
    }
  }

  const KYC: Text := Ascii("kyc")

  function Holder(subject: Bytes, votes: Amount): LeafInput {
    OneMapLeaf(Zeros(), subject, ATTESTED, KYC, votes)
  }

  /** So the stated meaning fails: one holder carrying two hides one who carries none. */
  lemma TwoAndNone(H: HashFn)
    ensures
      var two, none := Holder([1], 2 * SCALE), Holder([2], 0);
      && Admissible(two) && Admissible(none)
      && var nodes := [LeafNode(H, two), LeafNode(H, none)];
         && UnanimousIn(Total(nodes), ATTESTED, |nodes|)
         && !AllVote(nodes, Qualified(ATTESTED, KYC))
  {
    hide LeafPreimage, LeafSums, Admissible, Qualified, IsSafeName, Total, AllVote, OneMapLeaf;
    AttestedNames();
    var zeros := Zeros();
    OneMapLeafSums(zeros, [1], ATTESTED, KYC, 2 * SCALE);
    OneMapLeafSums(zeros, [2], ATTESTED, KYC, 0);
    var a, b := LeafNode(H, Holder([1], 2 * SCALE)), LeafNode(H, Holder([2], 0));
    VotesOfTwo(a, b, Qualified(ATTESTED, KYC));
  }

  lemma AttestedNames()
    ensures IsSafeName(ATTESTED) && IsSafeName(KYC)
  {
    hide Ascii, IsSafeName;
    LowercaseSafe("attested");
    LowercaseSafe("kyc");
  }

  lemma VotesOfTwo(a: Node, b: Node, key: Bytes)
    requires a.sums == map[key := 2 * SCALE] && b.sums == map[key := 0]
    ensures Total([a, b]) == map[key := 2 * SCALE]
    ensures !AllVote([a, b], key)
    ensures UnanimousIn(Total([a, b]), ATTESTED, 2)
  {
    var nodes := [a, b];
    assert nodes[1..] == [b] && nodes[1..][1..] == [];
    assert Total([b]) == map[key := 0];
    assert At(nodes[1].sums, key) != SCALE;
  }
}
