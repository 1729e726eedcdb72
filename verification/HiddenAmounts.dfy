/**
 Totals that an accepted proof does not vouch for: a step whose sums carry a name with `|` can show
 the committed text and leave an amount out (solvency-report/src/verify.rs).
 */
module HiddenAmounts {
  import opened Wrappers
  import opened ByteStrings
  import opened Amounts
  import opened Balances
  import opened BalanceLists
  import opened LengthPrefix
  import opened Documents
  import opened Digests
  import opened Leaves
  import opened SumTrees
  import opened TreeBinding
  import opened Verify
  import opened Profiles
  import opened Inclusion

  /** The one name that spells an entry of `a` and then names `b`. */
  function Crafted(a: Bytes, v: Amount, b: Bytes): Bytes {
    Entry(a, v) + [PIPE] + b
  }

  /** A sum map of one asset. */
  function Only(asset: Text, amount: Amount): AmountMap {
    map[asset := amount]
  }

  /** Two customers' assets: `u` of `c`, and beside it `v` of `a` and nothing of `b`. */
  datatype Holdings = Holdings(a: Text, v: Amount, b: Text, c: Text, u: Amount)

  function Mine(h: Holdings): Sums {
    Only(h.c, h.u)
  }

  function Hidden(h: Holdings): Sums {
    map[h.a := h.v, h.b := 0]
  }

  function Whole(h: Holdings): Sums {
    map[h.a := h.v, h.b := 0, h.c := h.u]
  }

  predicate InOrder(h: Holdings, name: Text) {
    Before(h.a, h.b) && Before(h.b, h.c) && Before(name, h.c) && name == Crafted(h.a, h.v, h.b)
  }

  lemma WholeIsBoth(h: Holdings, name: Text)
    requires InOrder(h, name)
    ensures Plus(Mine(h), Hidden(h)) == Whole(h) && Fits(Whole(h))
    ensures At(Whole(h), h.a) == h.v && At(Mine(h), h.a) == 0
  {
    ThreeInOrder(h.a, h.b, h.c);
  }

  lemma MineIsShown(h: Holdings, name: Text)
    requires InOrder(h, name)
    ensures Fits(Plus(Mine(h), Only(name, 0))) && SameAmounts(Plus(Mine(h), Only(name, 0)), Mine(h))
    ensures Canonical(Plus(Mine(h), Only(name, 0))) == Canonical(Whole(h))
  {
    hide Canonical, Crafted, Before;
    BeforeAsymmetric(name, h.c);
    assert Plus(Mine(h), Only(name, 0)) == map[name := 0, h.c := h.u];
    CraftedText(h.a, h.v, h.b, h.c, h.u);
  }

  lemma TreeOfTwo(H: HashFn, x: LeafInput, y: LeafInput) returns (levels: seq<seq<Node>>)
    requires Unambiguous(x) && Unambiguous(y) && Fits(Plus(LeafSums(x), LeafSums(y)))
    ensures Commits(H, [x, y], levels) && |levels| == 2
    ensures |levels[1]| == 1 && Root(levels).sums == Plus(LeafSums(x), LeafSums(y)) == Total(levels[0])
    ensures Root(levels).hash ==
      H(PairPreimage(LeafNode(H, x).hash, LeafNode(H, y).hash, Plus(LeafSums(x), LeafSums(y))))
  {
    hide LeafSums, LeafPreimage, Plus, Fits, PairPreimage, Combined, PipeFree;
    var l, r := LeafNode(H, x), LeafNode(H, y);
    CombinedSums(H, l, r);
    var leaves := [l, r];
    var next := [Combined(H, l, r).value];
    assert Parent(H, leaves, 0) == Ok(next[0]);
    assert Paired(H, leaves, next);
    ClimbFrom(H, leaves);
    ClimbOn(H, [leaves], next);
    levels := [leaves] + [next];
    Climbed(H, levels);
    RootTotals(H, levels);
  }

  lemma CanonicalOfThree(a: Bytes, v: nat, b: Bytes, w: nat, c: Bytes, u: nat)
    requires Before(a, b) && Before(b, c)
    ensures Canonical(map[a := v, b := w, c := u]) == Entry(a, v) + [PIPE] + (Entry(b, w) + [PIPE] + Entry(c, u))
  {
    hide Entry, Join, Before;
    ThreeInOrder(a, b, c);
    var m := map[a := v, b := w, c := u];
    SortedKeysUnique([a, b, c], m.Keys);
    assert Entries([a, b, c], m) == [Entry(a, v), Entry(b, w), Entry(c, u)];
    JoinOfThree(Entry(a, v), Entry(b, w), Entry(c, u));
  }

  lemma ThreeInOrder(a: Bytes, b: Bytes, c: Bytes)
    requires Before(a, b) && Before(b, c)
    ensures a != b && b != c && a != c && StrictlySorted([a, b, c])
  {
    BeforeTransitive(a, b, c);
    BeforeAsymmetric(a, b);
    BeforeAsymmetric(b, c);
    BeforeAsymmetric(a, c);
  }

  lemma JoinOfThree(p: Bytes, q: Bytes, r: Bytes)
    ensures Join([p, q, r]) == p + [PIPE] + (q + [PIPE] + r)
  {
    var parts := [p, q, r];
    assert parts[1..] == [q, r] && parts[1..][1..] == [r];
    assert Join([r]) == r;
  }

  /** The crafted name and the two it stands for give a sum map one text. */
  lemma CraftedText(a: Bytes, v: Amount, b: Bytes, c: Bytes, u: Amount)
    requires Before(a, b) && Before(b, c) && Before(Crafted(a, v, b), c)
    ensures Canonical(map[Crafted(a, v, b) := 0, c := u]) == Canonical(map[a := v, b := 0, c := u])
  {
    hide Canonical, FormatAmount;
    CanonicalOfThree(a, v, b, 0, c, u);
    CanonicalOfTwo(Crafted(a, v, b), 0, c, u);
    assert Entry(Crafted(a, v, b), 0) == Entry(a, v) + [PIPE] + Entry(b, 0);
    Rejoin(Entry(a, v) + [PIPE], Entry(b, 0), [PIPE], Entry(c, u));
  }

  lemma Rejoin(p: Bytes, q: Bytes, r: Bytes, t: Bytes)
    ensures (p + q) + r + t == p + (q + r + t)
  {
  }

  /** A step beside the real sibling's hash: one name, worth nothing. */
  function HidingStep(hash: Digest, name: Text): StepDocument {
    StepDocument(Hex(hash), Only(name, 0), false)
  }

  function HidingProofStep(hash: Digest, name: Text): ProofStep {
    ProofStep(Node(hash, Only(name, 0)), false)
  }

  lemma HidingStepDecodes(hash: Digest, name: Text)
    ensures DecodeSteps([HidingStep(hash, name)]) == Some([HidingProofStep(hash, name)])
  {
    hide Unhex, Hex, Only;
    UnhexHex(hash);
    var steps := [HidingStep(hash, name)];
    assert Hash32(steps[0].siblingHash) == Some(hash);
    assert steps[..|steps| - 1] == [] && DecodeSteps([]) == Some([]);
    assert [] + [HidingProofStep(hash, name)] == [HidingProofStep(hash, name)];
  }

  /** Folding the hiding step: the real pair's hash, over sums from which `a` is gone. */
  lemma HidingFold(H: HashFn, mine: Node, hash: Digest, name: Text, h: Holdings) returns (folded: Node)
    requires InOrder(h, name) && mine.sums == Mine(h)
    ensures Fold(H, mine, [HidingProofStep(hash, name)]) == Ok(folded)
    ensures folded.hash == H(PairPreimage(mine.hash, hash, Whole(h))) && SameAmounts(folded.sums, Mine(h))
  {
    hide Canonical, Combined, InOrder, Mine, Whole, Only, Plus, Fits, SameAmounts;
    var step := HidingProofStep(hash, name);
    assert [step][..0] == [];
    CombinedSums(H, mine, step.sibling);
    MineIsShown(h, name);
    folded := Combined(H, mine, step.sibling).value;
  }

  lemma AcceptedByFold(
    H: HashFn, verifies: SignatureFn, signed: SignedReport, key: Text, leaf: Node, steps: seq<StepDocument>,
    path: seq<ProofStep>, folded: Node, rootSums: AmountMap)
    requires Publishes(H, verifies, signed, key, folded.hash, rootSums)
    requires DecodeSteps(steps) == Some(path) && Fold(H, leaf, path) == Ok(folded)
    requires SameAmounts(folded.sums, rootSums)
    ensures VerifyAgainstReport(H, verifies, signed, leaf, steps, ReportDigestHex(H, signed.report), key).Ok?
  {
    hide DecodeSteps, Fold, SameAmounts, Unhex, Hex, ReportPreimage;
    UnhexHex(folded.hash);
  }

  /** The hiding step verifies against any report over the real root that leaves `a` out. */
  ghost predicate HidingVerifies(
    H: HashFn, verifies: SignatureFn, mine: Node, hash: Digest, name: Text, h: Holdings, rootHash: Digest)
  {
    forall signed, key | Publishes(H, verifies, signed, key, rootHash, Only(h.c, h.u)) ::
      VerifyAgainstReport(
        H, verifies, signed, mine, [HidingStep(hash, name)], ReportDigestHex(H, signed.report), key).Ok?
  }

  /**
   The totals can be published short. Over a book of two with `|`-free names, a report that leaves
   `a` out altogether verifies with the first customer's leaf and a sibling of one crafted name.
   */
  lemma HiddenAmountVerifies(
    H: HashFn, verifies: SignatureFn, x: LeafInput, y: LeafInput, name: Text, h: Holdings)
    returns (levels: seq<seq<Node>>)
    requires Unambiguous(x) && LeafSums(x) == Mine(h)
    requires Unambiguous(y) && LeafSums(y) == Hidden(h)
    requires InOrder(h, name)
    ensures Commits(H, [x, y], levels) && |levels| == 2 && |levels[1]| == 1
    ensures At(Total(levels[0]), h.a) == h.v && At(Only(h.c, h.u), h.a) == 0
    ensures HidingVerifies(H, verifies, LeafNode(H, x), LeafNode(H, y).hash, name, h, Root(levels).hash)
  {
    hide LeafPreimage, InOrder, LeafSums, PairPreimage, PipeFree, HidingStep, HidingProofStep, VerifyAgainstReport,
      Commits, Total, Whole, Hidden, Only, SameAmounts, Fits, Publishes;
    WholeIsBoth(h, name);
    levels := TreeOfTwo(H, x, y);
    var mine, hash := LeafNode(H, x), LeafNode(H, y).hash;
    HidingStepDecodes(hash, name);
    var folded := HidingFold(H, mine, hash, name, h);
    forall signed, key | Publishes(H, verifies, signed, key, Root(levels).hash, Only(h.c, h.u))
      ensures VerifyAgainstReport(
        H, verifies, signed, mine, [HidingStep(hash, name)], ReportDigestHex(H, signed.report), key).Ok?
    {
      AcceptedByFold(
        H, verifies, signed, key, mine, [HidingStep(hash, name)], [HidingProofStep(hash, name)], folded,
        Only(h.c, h.u));
    }
  }

  // ----- two such books

  /** Three assets in order, whatever stands before them. */
  function Lettered(prefix: Bytes, v: Amount, u: Amount): (h: Holdings)
    requires |prefix| <= 2
    ensures |Crafted(h.a, v, h.b)| < U64_SIZE
  {
    FormatLength(v);
    Holdings(prefix + [65], v, prefix + [66], prefix + [67], u)
  }

  lemma LetteredInOrder(prefix: Bytes, v: Amount, u: Amount)
    requires |prefix| <= 2
    ensures var h := Lettered(prefix, v, u); InOrder(h, Crafted(h.a, v, h.b))
  {
    hide FormatAmount;
    var h := Lettered(prefix, v, u);
    var name := Crafted(h.a, v, h.b);
    var n := |prefix|;
    FirstDiffers(h.a, h.b, prefix);
    FirstDiffers(h.b, h.c, prefix);
    assert name[..n] == prefix && name[n] == 65;
    FirstDiffers(name, h.c, prefix);
  }

  lemma FirstDiffers(a: Bytes, b: Bytes, prefix: Bytes)
    requires |prefix| < |a| && |prefix| < |b| && a[..|prefix|] == prefix == b[..|prefix|]
    requires a[|prefix|] < b[|prefix|]
    ensures Before(a, b)
  {
    BeforeDropsCommonPrefix(a, b, |prefix|);
  }

  function FirstCustomer(h: Holdings): LeafInput {
    V1(Zeros(), [1], [Balance(h.c, h.u)])
  }

  function SecondCustomer(h: Holdings): LeafInput {
    V1(Zeros(), [2], [Balance(h.a, h.v), Balance(h.b, 0)])
  }

  lemma CustomersHold(h: Holdings)
    requires PIPE !in h.a && PIPE !in h.b && PIPE !in h.c && h.a != h.b
    ensures Unambiguous(FirstCustomer(h)) && LeafSums(FirstCustomer(h)) == Mine(h)
    ensures Unambiguous(SecondCustomer(h)) && LeafSums(SecondCustomer(h)) == Hidden(h)
  {
    hide MapOf;
    OneBalance(Balance(h.c, h.u));
    TwoBalances(Balance(h.a, h.v), Balance(h.b, 0));
  }

  /** Customers of v1: `u` of C, and `v` of A beside nothing of B. */
  lemma CustomersHide(H: HashFn, verifies: SignatureFn, u: Amount, v: Amount)
    returns (levels: seq<seq<Node>>, name: Text, h: Holdings)
    ensures h.v == v && h.u == u && Commits(H, [FirstCustomer(h), SecondCustomer(h)], levels)
    ensures |levels| == 2 && |levels[1]| == 1 && At(Total(levels[0]), h.a) == v && At(Only(h.c, h.u), h.a) == 0
    ensures Admissible(FirstCustomer(h)) && Admissible(SecondCustomer(h))
    ensures HidingVerifies(
      H, verifies, LeafNode(H, FirstCustomer(h)), LeafNode(H, SecondCustomer(h)).hash, name, h, Root(levels).hash)
  {
    hide LeafNode, LeafSums, FirstCustomer, SecondCustomer, Commits, Total, InOrder, HidingVerifies, Only, Mine, Hidden;
    h := Lettered([], v, u);
    name := Crafted(h.a, v, h.b);
    LetteredInOrder([], v, u);
    assert h.a[0] == 65 && h.b[0] == 66;
    CustomersHold(h);
    levels := HiddenAmountVerifies(H, verifies, FirstCustomer(h), SecondCustomer(h), name, h);
  }

  lemma OneBalance(p: Balance)
    ensures MapOf([p]) == map[p.asset := p.amount]
  {
    assert [p][..0] == [];
  }

  lemma TwoBalances(p: Balance, q: Balance)
    ensures MapOf([p, q]) == map[p.asset := p.amount][q.asset := q.amount]
  {
    assert [p, q][..1] == [p];
    OneBalance(p);
  }

  /** The report that publishes only `u` of C over that book's root. */
  function ShortReport(rootHash: Digest, h: Holdings): Report {
    Report(
      REPORT_FORMAT_VERSION, LIABILITIES.name, [], [], [], Hex(rootHash), 2, Only(h.c, h.u), map[],
      Disclosures(map[], 0, map[]), None)
  }

  function ShortProof(H: HashFn, report: Report, h: Holdings, name: Text): ProofDocument
    requires Admissible(SecondCustomer(h))
  {
    ProofDocument(
      PROOF_FORMAT_VERSION, ReportDigestHex(H, report), FirstCustomer(h),
      [HidingStep(LeafNode(H, SecondCustomer(h)).hash, name)])
  }

  lemma ShortReportPasses(H: HashFn, rootHash: Digest, h: Holdings, name: Text, s: SignatureBlock)
    requires s.algorithm == SIGNATURE_ALGORITHM
    requires Admissible(FirstCustomer(h)) && Admissible(SecondCustomer(h))
    ensures
      var report := ShortReport(rootHash, h);
      GuardsV1(SignedReport(report, s), ShortProof(H, report, h, name)) == None
  {
    hide Ascii, Hex, ReportDigestHex, Admissible, LeafNode;
    var report := ShortReport(rootHash, h);
    FirstRegistered();
    assert Carries(report, AnySums) by {
      assert h.c in report.rootSums;
    }
    assert ProfileOf(report) == Some(LIABILITIES);
  }

  lemma FirstRegistered()
    ensures Lookup(LIABILITIES.name) == Some(LIABILITIES)
  {
  }

  /**
   The whole verifier accepts it: whoever signs that report, the first customer's proof verifies while
   `v` of A is owed and none is published.
   */
  lemma ShortTotalsVerify(H: HashFn, verifies: SignatureFn, u: Amount, v: Amount)
    returns (levels: seq<seq<Node>>, name: Text, h: Holdings)
    ensures h.v == v && h.u == u && Commits(H, [FirstCustomer(h), SecondCustomer(h)], levels)
    ensures |levels| == 2 && |levels[1]| == 1 && At(Total(levels[0]), h.a) == v && At(Only(h.c, h.u), h.a) == 0
    ensures Admissible(FirstCustomer(h)) && Admissible(SecondCustomer(h))
    ensures forall s: SignatureBlock ::
      var report := ShortReport(Root(levels).hash, h);
      s.algorithm == SIGNATURE_ALGORITHM && verifies(s.publicKey, H(ReportPreimage(report)), s.value) == Genuine ==>
        VerifyV1(H, verifies, SignedReport(report, s), ShortProof(H, report, h, name), s.publicKey).Ok?
  {
    hide LeafNode, LeafSums, FirstCustomer, SecondCustomer, Commits, Total, Only, Hex, HidingStep,
      VerifyAgainstReport, GuardsV1, Admissible, ReportPreimage;
    levels, name, h := CustomersHide(H, verifies, u, v);
    var report := ShortReport(Root(levels).hash, h);
    forall s: SignatureBlock
      | s.algorithm == SIGNATURE_ALGORITHM && verifies(s.publicKey, H(ReportPreimage(report)), s.value) == Genuine
      ensures VerifyV1(H, verifies, SignedReport(report, s), ShortProof(H, report, h, name), s.publicKey).Ok?
    {
      ShortReportPasses(H, Root(levels).hash, h, name, s);
      assert Publishes(H, verifies, SignedReport(report, s), s.publicKey, Root(levels).hash, Only(h.c, h.u));
    }
  }

  // a v2 book

  const LEG: Text := [109]

  function Leg(subject: Bytes, amounts: AmountMap): LeafInput {
    V2(Zeros(), subject, map[LEG := amounts])
  }

  function Uneven(v: Amount): AmountMap {
    map[[65] := v, [66] := 0]
  }

  function FirstLeg(u: Amount): LeafInput {
    Leg([1], Only([67], u))
  }

  function SecondLeg(v: Amount): LeafInput {
    Leg([2], Uneven(v))
  }

  lemma LetteredKeys(v: Amount, u: Amount)
    requires IsSafeName(LEG) && SafeEntry(LEG, Only([67], u)) && SafeEntry(LEG, Uneven(v))
    ensures
      var h := Lettered(LEG + [SLASH], v, u);
      Qualify(LEG, Only([67], u)) == Mine(h) && Qualify(LEG, Uneven(v)) == Hidden(h)
  {
    hide IsSafeName, Qualify, Qualified;
    var h := Lettered(LEG + [SLASH], v, u);
    QualifiesOne(LEG, [67], u);
    QualifyAt(LEG, Uneven(v));
    QualifyOnly(LEG, Uneven(v));
    LetteredQualified(v, u);
    var q := Qualify(LEG, Uneven(v));
    assert [65] in Uneven(v) && [66] in Uneven(v);
    assert h.a in q && q[h.a] == v && h.b in q && q[h.b] == 0;
    assert h.a[2] == 65 && h.b[2] == 66;
    assert forall k :: k in q <==> k == h.a || k == h.b;
  }

  lemma LetteredQualified(v: Amount, u: Amount)
    ensures
      var h := Lettered(LEG + [SLASH], v, u);
      h.a == Qualified(LEG, [65]) && h.b == Qualified(LEG, [66]) && h.c == Qualified(LEG, [67])
  {
  }

  lemma LegsHold(v: Amount, u: Amount)
    ensures
      var h := Lettered(LEG + [SLASH], v, u);
      && Unambiguous(FirstLeg(u)) && LeafSums(FirstLeg(u)) == Mine(h)
      && Unambiguous(SecondLeg(v)) && LeafSums(SecondLeg(v)) == Hidden(h)
  {
    hide LeafSums, Qualify;
    SingleMapSums(Zeros(), [1], LEG, Only([67], u));
    SingleMapSums(Zeros(), [2], LEG, Uneven(v));
    LetteredKeys(v, u);
  }

  /** Safe v2 names do not help: the crafted one stands in the step, not in a leaf. */
  lemma LegsHide(H: HashFn, verifies: SignatureFn, u: Amount, v: Amount)
    returns (levels: seq<seq<Node>>, name: Text, h: Holdings)
    ensures h.v == v && h.u == u && Commits(H, [FirstLeg(u), SecondLeg(v)], levels)
    ensures |levels| == 2 && |levels[1]| == 1 && At(Total(levels[0]), h.a) == v && At(Only(h.c, h.u), h.a) == 0
    ensures Admissible(FirstLeg(u)) && Admissible(SecondLeg(v))
    ensures HidingVerifies(
      H, verifies, LeafNode(H, FirstLeg(u)), LeafNode(H, SecondLeg(v)).hash, name, h, Root(levels).hash)
  {
    hide LeafNode, LeafSums, FirstLeg, SecondLeg, Commits, Total, InOrder, HidingVerifies, Only, Mine, Hidden;
    h := Lettered(LEG + [SLASH], v, u);
    name := Crafted(h.a, v, h.b);
    LetteredInOrder(LEG + [SLASH], v, u);
    LegsHold(v, u);
    levels := HiddenAmountVerifies(H, verifies, FirstLeg(u), SecondLeg(v), name, h);
  }
}
