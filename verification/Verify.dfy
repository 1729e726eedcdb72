/**
 Checking an inclusion path against a signed report: digest, signature, fold, root hash and totals
 (solvency-report/src/verify.rs), and what acceptance says about the published totals.
 */
module Verify {
  import opened Wrappers
  import opened ByteStrings
  import opened Balances
  import opened LengthPrefix
  import opened Documents
  import opened Digests
  import opened Leaves
  import opened SumTrees
  import opened TreeBinding
  import opened TreeSoundness
  import opened Readings

  /** Ed25519 over a digest under a hex key, left uninterpreted. */
  type SignatureFn = (Text, Digest, Text) -> SignatureCheck

  datatype SignatureCheck = Genuine | Forged | Unreadable

  datatype Failure =
    | UnsupportedVersion
    | ManifestPresence
    | ManifestInconsistent
    | ProfileRefused
    | DigestMismatch
    | UnknownSigner
    | BadSignature
    | RootHashMismatch
    | RootSumsMismatch(asset: Bytes)
    | EntityRootMismatch
    | EntitySumsMismatch(asset: Bytes)
    | Malformed

  datatype StepDocument = StepDocument(siblingHash: Text, siblingSums: AmountMap, siblingOnLeft: bool)

  // ----- hex, read back

  function HexValue(b: Byte): (v: Option<nat>)
    ensures v.Some? ==> v.value < 16
  {
    if 48 <= b <= 57 then Some(b - 48)
    else if 97 <= b <= 102 then Some(b - 87)
    else if 65 <= b <= 70 then Some(b - 55)
    else None
  }

  /** `hex::decode`, either case. */
  function Unhex(s: Bytes): Option<Bytes> {
    if s == [] then Some([])
    else if |s| == 1 then None
    else
      match (HexValue(s[0]), HexValue(s[1]), Unhex(s[2..]))
      case (Some(h), Some(l), Some(rest)) => Some([16 * h + l] + rest)
      case _ => None
  }

  /** `hash32` */
  function Hash32(s: Text): Option<Digest> {
    match Unhex(s)
    case Some(b) => if |b| == 32 then Some(b) else None
    case None => None
  }

  lemma {:induction false} UnhexHex(s: Bytes)
    ensures Unhex(Hex(s)) == Some(s)
  {
    if s != [] {
      UnhexHex(s[1..]);
      assert Hex(s)[2..] == Hex(s[1..]);
      assert s == [s[0]] + s[1..];
    }
  }

  /** A hex digit in lower case. */
  function Lower(b: Byte): Byte {
    if 65 <= b <= 70 then b + 32 else b
  }

  /** What decodes, exactly: the encoding of the bytes read, each digit in either case. */
  lemma {:induction false} UnhexExactly(s: Bytes, b: Bytes)
    ensures Unhex(s) == Some(b) <==> |s| == 2 * |b| && forall i :: 0 <= i < |s| ==> Lower(s[i]) == Hex(b)[i]
  {
    if |s| >= 2 && b != [] {
      UnhexExactly(s[2..], b[1..]);
      assert b == [b[0]] + b[1..];
      assert Hex(b) == [HexDigit(b[0] / 16), HexDigit(b[0] % 16)] + Hex(b[1..]);
      SplitDigits(s, Hex(b), Hex(b[1..]));
      DigitRead(s[0], b[0] / 16);
      DigitRead(s[1], b[0] % 16);
      assert Unhex(s).Some? ==> Unhex(s).value == [Unhex(s).value[0]] + Unhex(s[2..]).value;
    }
  }

  lemma SplitDigits(s: Bytes, t: Bytes, rest: Bytes)
    requires |s| >= 2 && |t| >= 2 && t[2..] == rest
    ensures |s| == |t| ==>
      ((forall i :: 0 <= i < |s| ==> Lower(s[i]) == t[i]) <==>
        && Lower(s[0]) == t[0] && Lower(s[1]) == t[1]
        && forall i :: 0 <= i < |s[2..]| ==> Lower(s[2..][i]) == rest[i])
  {
  }

  lemma DigitRead(b: Byte, n: nat)
    requires n < 16
    ensures HexValue(b) == Some(n) <==> Lower(b) == HexDigit(n)
  {
  }

  // ----- the check

  function DecodeSteps(steps: seq<StepDocument>): Option<seq<ProofStep>> {
    if steps == [] then
      Some([])
    else
      match (DecodeSteps(steps[..|steps| - 1]), Hash32(steps[|steps| - 1].siblingHash))
      case (Some(before), Some(hash)) =>
        Some(before + [ProofStep(Node(hash, steps[|steps| - 1].siblingSums), steps[|steps| - 1].siblingOnLeft)])
      case _ => None
  }

  /** The first of `names` on which the two disagree, absent counting as zero. */
  function FirstDisagreement(names: seq<Bytes>, l: Totals, r: Totals): (found: Option<Bytes>)
    ensures found.None? <==> forall k :: k in names ==> At(l, k) == At(r, k)
    ensures found.Some? ==> At(l, found.value) != At(r, found.value)
  {
    if names == [] then None
    else if At(l, names[0]) != At(r, names[0]) then Some(names[0])
    else
      assert forall k :: k in names ==> k == names[0] || k in names[1..];
      FirstDisagreement(names[1..], l, r)
  }

  /** `first_sum_disagreement`: one side's assets in order, then the other's. */
  function SumDisagreement(l: Totals, r: Totals): (found: Option<Bytes>)
    ensures found.None? <==> SameAmounts(l, r)
    ensures found.Some? ==> At(l, found.value) != At(r, found.value)
  {
    FirstDisagreement(SortedKeys(l.Keys) + SortedKeys(r.Keys), l, r)
  }

  lemma {:induction false} FirstIsFound(names: seq<Bytes>, l: Totals, r: Totals, i: nat)
    requires i < |names| && At(l, names[i]) != At(r, names[i])
    requires forall j :: 0 <= j < i ==> At(l, names[j]) == At(r, names[j])
    ensures FirstDisagreement(names, l, r) == Some(names[i])
  {
    if i > 0 {
      FirstIsFound(names[1..], l, r, i - 1);
    }
  }

  /**
   Which asset is reported: the first in name order of the left side's that differs, and of the right
   side's only when the left side's all agree.
   */
  lemma ReportedAsset(l: Totals, r: Totals, asset: Bytes)
    requires asset in l || (asset in r && forall k :: k in l ==> At(l, k) == At(r, k))
    requires At(l, asset) != At(r, asset)
    requires forall k :: k in (if asset in l then l else r) && Before(k, asset) ==> At(l, k) == At(r, k)
    ensures SumDisagreement(l, r) == Some(asset)
  {
    hide Before, At, SortedKeys, StrictlySorted, FirstDisagreement;
    var ls, rs := SortedKeys(l.Keys), SortedKeys(r.Keys);
    FirstAcross(ls, rs, l, r);
    var own := if asset in l then ls else rs;
    var i := Placed(own, l, r, asset);
    FirstIsFound(own, l, r, i);
  }

  lemma {:induction false} FirstAcross(ls: seq<Bytes>, rs: seq<Bytes>, l: Totals, r: Totals)
    ensures FirstDisagreement(ls + rs, l, r) ==
      if FirstDisagreement(ls, l, r).Some? then FirstDisagreement(ls, l, r) else FirstDisagreement(rs, l, r)
  {
    hide At;
    if ls == [] {
      assert ls + rs == rs;
    } else {
      assert (ls + rs)[1..] == ls[1..] + rs;
      FirstAcross(ls[1..], rs, l, r);
    }
  }

  /** Where an asset stands among sorted names, all earlier ones agreeing. */
  lemma Placed(names: seq<Bytes>, l: Totals, r: Totals, asset: Bytes) returns (i: nat)
    requires StrictlySorted(names) && asset in names
    requires forall k :: k in names && Before(k, asset) ==> At(l, k) == At(r, k)
    ensures i < |names| && names[i] == asset && forall j :: 0 <= j < i ==> At(l, names[j]) == At(r, names[j])
  {
    hide Before, At;
    i :| 0 <= i < |names| && names[i] == asset;
    forall j | 0 <= j < i ensures At(l, names[j]) == At(r, names[j]) {
      assert Before(names[j], names[i]) && names[j] in names;
    }
  }

  /** `verify_against_report`, guard by guard. */
  function VerifyAgainstReport(
    H: HashFn, verifies: SignatureFn, signed: SignedReport, leaf: Node, steps: seq<StepDocument>,
    expectedDigestHex: Text, trustedKey: Text): Result<(), Failure>
  {
    var digest := H(ReportPreimage(signed.report));
    if Hex(digest) != expectedDigestHex then Err(DigestMismatch)
    else if signed.signature.publicKey != trustedKey then Err(UnknownSigner)
    else
      match verifies(trustedKey, digest, signed.signature.value)
      case Forged => Err(BadSignature)
      case Unreadable => Err(Malformed)
      case Genuine =>
        match (DecodeSteps(steps), Hash32(signed.report.rootHash))
        case (Some(path), Some(rootHash)) =>
          (match Fold(H, leaf, path)
           case Err(_) => Err(Malformed)
           case Ok(folded) =>
             if folded.hash != rootHash then Err(RootHashMismatch)
             else
               match SumDisagreement(folded.sums, signed.report.rootSums)
               case Some(asset) => Err(RootSumsMismatch(asset))
               case None => Ok(()))
        case _ => Err(Malformed)
  }

  /** Acceptance, exactly. */
  lemma AcceptedExactly(
    H: HashFn, verifies: SignatureFn, signed: SignedReport, leaf: Node, steps: seq<StepDocument>,
    expectedDigestHex: Text, trustedKey: Text)
    ensures VerifyAgainstReport(H, verifies, signed, leaf, steps, expectedDigestHex, trustedKey).Ok? <==>
      && expectedDigestHex == Hex(H(ReportPreimage(signed.report)))
      && signed.signature.publicKey == trustedKey
      && verifies(trustedKey, H(ReportPreimage(signed.report)), signed.signature.value) == Genuine
      && DecodeSteps(steps).Some? && Hash32(signed.report.rootHash).Some?
      && var folded := Fold(H, leaf, DecodeSteps(steps).value);
      && folded.Ok?
      && folded.value.hash == Hash32(signed.report.rootHash).value
      && SameAmounts(folded.value.sums, signed.report.rootSums)
  {
    hide Fold, ReportPreimage, Hash32, DecodeSteps, SameAmounts;
  }

  /** What each refusal means: it names the first check that fails. */
  lemma RefusedExactly(
    H: HashFn, verifies: SignatureFn, signed: SignedReport, leaf: Node, steps: seq<StepDocument>,
    expectedDigestHex: Text, trustedKey: Text)
    ensures
      var r := VerifyAgainstReport(H, verifies, signed, leaf, steps, expectedDigestHex, trustedKey);
      var ours := expectedDigestHex == Hex(H(ReportPreimage(signed.report)));
      var known := ours && signed.signature.publicKey == trustedKey;
      var check := verifies(trustedKey, H(ReportPreimage(signed.report)), signed.signature.value);
      var readable := known && check == Genuine && DecodeSteps(steps).Some? && Hash32(signed.report.rootHash).Some?;
      && (r == Err(DigestMismatch) <==> !ours)
      && (r == Err(UnknownSigner) <==> ours && signed.signature.publicKey != trustedKey)
      && (r == Err(BadSignature) <==> known && check == Forged)
      && (r == Err(RootHashMismatch) <==>
            && readable && Fold(H, leaf, DecodeSteps(steps).value).Ok?
            && Fold(H, leaf, DecodeSteps(steps).value).value.hash != Hash32(signed.report.rootHash).value)
      && (r == Err(Malformed) <==>
            || (known && check == Unreadable)
            || (known && check == Genuine && !readable)
            || (readable && Fold(H, leaf, DecodeSteps(steps).value).Err?))
  {
    hide Fold, ReportPreimage, Hash32, DecodeSteps, SumDisagreement;
  }

  /**
   One proof names one report: a document accepted against two reports, under whatever keys, was
   accepted against reports equal in all the digest covers, or their two preimages collide.
   */
  lemma OneProofOneReport(
    H: HashFn, verifies: SignatureFn, x: SignedReport, y: SignedReport, leafX: Node, leafY: Node,
    stepsX: seq<StepDocument>, stepsY: seq<StepDocument>, expectedDigestHex: Text, keyX: Text, keyY: Text)
    requires VerifyAgainstReport(H, verifies, x, leafX, stepsX, expectedDigestHex, keyX).Ok?
    requires VerifyAgainstReport(H, verifies, y, leafY, stepsY, expectedDigestHex, keyY).Ok?
    ensures Collision(H, {ReportPreimage(x.report), ReportPreimage(y.report)}) || SameCovered(x.report, y.report)
  {
    hide VerifyAgainstReport, Fold, ReportPreimage, Hash32, DecodeSteps, SameAmounts, SameCovered, Collision;
    AcceptedExactly(H, verifies, x, leafX, stepsX, expectedDigestHex, keyX);
    AcceptedExactly(H, verifies, y, leafY, stepsY, expectedDigestHex, keyY);
    DigestNamesOneReport(H, x.report, y.report);
  }

  // ----- what an honest publisher hands out is accepted

  /** Sums that a document can carry. */
  predicate Writable(sums: Sums) {
    |sums| < U64_SIZE && forall k :: k in sums ==> |k| < U64_SIZE
  }

  predicate AllWritable(path: seq<ProofStep>) {
    forall i :: 0 <= i < |path| ==> Writable(path[i].sibling.sums)
  }

  /** A path as written into a proof document. */
  function Written(path: seq<ProofStep>): (steps: seq<StepDocument>)
    requires AllWritable(path)
    ensures |steps| == |path|
  {
    seq(|path|, i requires 0 <= i < |path| =>
      var step := path[i];
      var sums: AmountMap := step.sibling.sums;
      StepDocument(Hex(step.sibling.hash), sums, step.siblingOnLeft))
  }

  /** What decodes to a path: the same length, and each step's hash, sums and side read as they stand. */
  lemma {:induction false} DecodedExactly(steps: seq<StepDocument>, path: seq<ProofStep>)
    ensures DecodeSteps(steps) == Some(path) <==>
      && |path| == |steps|
      && forall i :: 0 <= i < |steps| ==>
           && Unhex(steps[i].siblingHash) == Some(path[i].sibling.hash)
           && path[i].sibling.sums == steps[i].siblingSums
           && path[i].siblingOnLeft == steps[i].siblingOnLeft
  {
    hide Unhex;
    if steps != [] {
      var n := |steps| - 1;
      if |path| == n + 1 {
        assert path == path[..n] + [path[n]];
        DecodedExactly(steps[..n], path[..n]);
        LastDecoded(steps, path);
      } else if DecodeSteps(steps).Some? {
        DecodedExactly(steps[..n], DecodeSteps(steps[..n]).value);
      }
    }
  }

  lemma LastDecoded(steps: seq<StepDocument>, path: seq<ProofStep>)
    requires |path| == |steps| > 0
    ensures
      var n := |steps| - 1;
      DecodeSteps(steps) == Some(path) <==>
        && DecodeSteps(steps[..n]) == Some(path[..n])
        && Unhex(steps[n].siblingHash) == Some(path[n].sibling.hash)
        && path[n].sibling.sums == steps[n].siblingSums
        && path[n].siblingOnLeft == steps[n].siblingOnLeft
  {
    hide Unhex;
    var n := |steps| - 1;
    assert path == path[..n] + [path[n]];
    if DecodeSteps(steps).Some? {
      var before := DecodeSteps(steps[..n]).value;
      assert DecodeSteps(steps).value[..|before|] == before;
    }
  }

  /** A path survives being written and read back. */
  lemma WrittenDecodes(path: seq<ProofStep>)
    requires AllWritable(path)
    ensures DecodeSteps(Written(path)) == Some(path)
  {
    hide Unhex, DecodeSteps;
    DecodedExactly(Written(path), path);
    forall i | 0 <= i < |path| ensures Unhex(Written(path)[i].siblingHash) == Some(path[i].sibling.hash) {
      UnhexHex(path[i].sibling.hash);
    }
  }

  /** A report as a publisher signs it over one tree root and whatever totals. */
  ghost predicate Publishes(
    H: HashFn, verifies: SignatureFn, signed: SignedReport, key: Text, rootHash: Digest, rootSums: Sums)
  {
    && signed.report.rootHash == Hex(rootHash)
    && signed.report.rootSums == rootSums
    && signed.signature.publicKey == key
    && verifies(key, H(ReportPreimage(signed.report)), signed.signature.value) == Genuine
  }

  /** Every customer of a built tree is accepted against the report signed over it. */
  lemma HonestProofAccepted(
    H: HashFn, verifies: SignatureFn, levels: seq<seq<Node>>, i: nat, signed: SignedReport, key: Text)
    requires IsTree(H, levels) && i < |levels[0]| && AllWritable(PathTo(levels, i, |levels| - 1))
    requires |levels[|levels| - 1]| > 0 && Publishes(H, verifies, signed, key, Root(levels).hash, Root(levels).sums)
    ensures
      VerifyAgainstReport(
        H, verifies, signed, levels[0][i], Written(PathTo(levels, i, |levels| - 1)),
        ReportDigestHex(H, signed.report), key).Ok?
  {
    hide Fold, PathTo, ReportPreimage, DecodeSteps, Unhex, VerifyAgainstReport;
    var path := PathTo(levels, i, |levels| - 1);
    Completeness(H, levels, i);
    WrittenDecodes(path);
    UnhexHex(Root(levels).hash);
    AcceptedExactly(
      H, verifies, signed, levels[0][i], Written(path), ReportDigestHex(H, signed.report), key);
  }

  /** What acceptance amounts to. */
  lemma AcceptedMeansFolded(
    H: HashFn, verifies: SignatureFn, signed: SignedReport, leaf: Node, steps: seq<StepDocument>,
    expectedDigestHex: Text, trustedKey: Text)
    requires VerifyAgainstReport(H, verifies, signed, leaf, steps, expectedDigestHex, trustedKey).Ok?
    ensures DecodeSteps(steps).Some? && Fold(H, leaf, DecodeSteps(steps).value).Ok?
    ensures
      var folded := Fold(H, leaf, DecodeSteps(steps).value).value;
      && Hash32(signed.report.rootHash) == Some(folded.hash)
      && SameAmounts(folded.sums, signed.report.rootSums)
      && folded.sums == Plus(leaf.sums, SiblingTotal(DecodeSteps(steps).value))
    ensures verifies(trustedKey, H(ReportPreimage(signed.report)), signed.signature.value) == Genuine
  {
    hide Fold, ReportPreimage, Hash32, DecodeSteps, SumDisagreement, Plus, SameAmounts;
    var path := DecodeSteps(steps).value;
    AcceptedSumsAddUp(H, leaf, path, Fold(H, leaf, path).value);
  }

  /** An accepted path never shows a customer more than the published total of any asset. */
  lemma LeafWithinPublished(
    H: HashFn, verifies: SignatureFn, signed: SignedReport, leaf: Node, steps: seq<StepDocument>,
    expectedDigestHex: Text, trustedKey: Text, asset: Bytes)
    requires VerifyAgainstReport(H, verifies, signed, leaf, steps, expectedDigestHex, trustedKey).Ok?
    ensures At(leaf.sums, asset) <= At(signed.report.rootSums, asset)
  {
    hide VerifyAgainstReport, Fold, Plus, SameAmounts, DecodeSteps, SiblingTotal, Hash32;
    AcceptedMeansFolded(H, verifies, signed, leaf, steps, expectedDigestHex, trustedKey);
    var path := DecodeSteps(steps).value;
    PlusAt(leaf.sums, SiblingTotal(path), asset);
    SameAmountsAt(Fold(H, leaf, path).value.sums, signed.report.rootSums, asset);
  }

  // ----- what acceptance says of the book behind the root

  lemma SameAmountsSwap(a: Totals, b: Totals, c: Totals)
    requires SameAmounts(b, c)
    ensures SameAmounts(a, b) <==> SameAmounts(a, c)
  {
    forall k ensures At(b, k) == At(c, k) {
      SameAmountsAt(b, c, k);
    }
    assert SameAmounts(a, b) ==> forall k :: At(a, k) == At(b, k);
    assert SameAmounts(a, c) ==> forall k :: At(a, k) == At(c, k);
  }

  /**
   If the report's root hash is that of a built tree, an accepted proof is for one of its leaves, by
   that leaf's own sibling hashes. This asks nothing of any name in the proof or in the tree.
   */
  lemma AcceptedIsInTheBook(
    H: HashFn, verifies: SignatureFn, inputs: seq<LeafInput>, levels: seq<seq<Node>>, signed: SignedReport,
    leaf: LeafInput, steps: seq<StepDocument>, expectedDigestHex: Text, trustedKey: Text)
    requires TreeOver(H, inputs, levels) && Admissible(leaf)
    requires VerifyAgainstReport(H, verifies, signed, LeafNode(H, leaf), steps, expectedDigestHex, trustedKey).Ok?
    requires Hash32(signed.report.rootHash) == Some(Root(levels).hash)
    ensures DecodeSteps(steps).Some? && Fold(H, LeafNode(H, leaf), DecodeSteps(steps).value).Ok?
    ensures
      || Collision(H, TreeHashed(H, inputs, levels) + PathHashed(H, leaf, DecodeSteps(steps).value))
      || exists i :: 0 <= i < |inputs| && SameReading(leaf, inputs[i])
                     && SameRoute(DecodeSteps(steps).value, PathTo(levels, i, |levels| - 1))
  {
    hide VerifyAgainstReport, Fold, TreeHashed, PathHashed, Collision, SameReading, SameRoute, Hash32, DecodeSteps,
      IsTree, LeafNode, SameAmounts, Plus, SiblingTotal;
    RootTotals(H, levels);
    AcceptedMeansFolded(H, verifies, signed, LeafNode(H, leaf), steps, expectedDigestHex, trustedKey);
    RootHashSound(H, inputs, levels, leaf, DecodeSteps(steps).value);
  }

  /**
   Whether one accepted proof vouches for the published totals. Over a tree of `|`-free names they
   are the sums of the whole book, up to explicit zeros, exactly when no name met in the fold hides
   an amount: each name with `|` is worth nothing and spells entries of nothing. Names without `|`
   hide nothing.
   */
  lemma PublishedTotalsAreTheBook(
    H: HashFn, verifies: SignatureFn, inputs: seq<LeafInput>, levels: seq<seq<Node>>, signed: SignedReport,
    leaf: LeafInput, steps: seq<StepDocument>, expectedDigestHex: Text, trustedKey: Text)
    requires Commits(H, inputs, levels) && Admissible(leaf)
    requires VerifyAgainstReport(H, verifies, signed, LeafNode(H, leaf), steps, expectedDigestHex, trustedKey).Ok?
    requires Hash32(signed.report.rootHash) == Some(Root(levels).hash)
    ensures DecodeSteps(steps).Some? && Fold(H, LeafNode(H, leaf), DecodeSteps(steps).value).Ok?
    ensures
      var path := DecodeSteps(steps).value;
      || Collision(H, TreeHashed(H, inputs, levels) + PathHashed(H, leaf, path))
      || (&& (SameAmounts(Total(levels[0]), signed.report.rootSums) <==>
                HidesNothing(Fold(H, LeafNode(H, leaf), path).value.sums))
          && (Unambiguous(leaf) && PipeFreeSteps(path) ==> SameAmounts(Total(levels[0]), signed.report.rootSums)))
  {
    hide VerifyAgainstReport, Fold, TreeHashed, PathHashed, Collision, Hash32, DecodeSteps, IsTree, LeafNode,
      SameAmounts, Plus, SiblingTotal, HidesNothing, PipeFree, Total, Canonical, LeafSums, PipeFreeSteps;
    RootTotals(H, levels);
    AcceptedMeansFolded(H, verifies, signed, LeafNode(H, leaf), steps, expectedDigestHex, trustedKey);
    var path := DecodeSteps(steps).value;
    if !Collision(H, TreeHashed(H, inputs, levels) + PathHashed(H, leaf, path)) {
      TotalsByFold(H, inputs, levels, leaf, path, signed.report.rootSums);
    }
  }

  /** A fold with the root's hash vouches for the sums it meets exactly when it hides nothing. */
  lemma TotalsByFold(
    H: HashFn, inputs: seq<LeafInput>, levels: seq<seq<Node>>, leaf: LeafInput, path: seq<ProofStep>, rootSums: Sums)
    requires Commits(H, inputs, levels) && Admissible(leaf)
    requires Fold(H, LeafNode(H, leaf), path).Ok?
    requires Fold(H, LeafNode(H, leaf), path).value.hash == Root(levels).hash
    requires SameAmounts(Fold(H, LeafNode(H, leaf), path).value.sums, rootSums)
    requires !Collision(H, TreeHashed(H, inputs, levels) + PathHashed(H, leaf, path))
    ensures SameAmounts(Root(levels).sums, rootSums) <==> HidesNothing(Fold(H, LeafNode(H, leaf), path).value.sums)
    ensures Unambiguous(leaf) && PipeFreeSteps(path) ==> SameAmounts(Root(levels).sums, rootSums)
  {
    hide Fold, TreeHashed, PathHashed, Collision, IsTree, LeafPreimage, SameAmounts, HidesNothing, PipeFree, Canonical,
      LeafSums, PipeFreeSteps;
    var S := TreeHashed(H, inputs, levels) + PathHashed(H, leaf, path);
    var folded := Fold(H, LeafNode(H, leaf), path).value;
    RootPipeFree(H, inputs, levels);
    PathHitsSums(H, S, inputs, levels, leaf, path, |levels| - 1, 0);
    AgreesExactly(folded.sums, Root(levels).sums);
    SameAmountsSwap(Root(levels).sums, folded.sums, rootSums);
    SameAmountsFlip(Root(levels).sums, folded.sums);
    FoldPipeFree(H, LeafNode(H, leaf), path);
    if Unambiguous(leaf) && PipeFreeSteps(path) {
      PipeFreeHidesNothing(folded.sums);
    }
  }

  lemma SameAmountsFlip(a: Totals, b: Totals)
    ensures SameAmounts(a, b) <==> SameAmounts(b, a)
  {
    assert a.Keys + b.Keys == b.Keys + a.Keys;
  }

}
