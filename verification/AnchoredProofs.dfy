/**
 Verifying a customer's proof under the key an anchor names, in place of one the customer was given
 (solvency-report/src/anchor.rs).
 */
module AnchoredProofs {
  import opened Wrappers
  import opened ByteStrings
  import opened Documents
  import opened Digests
  import opened Anchors
  import opened Verify
  import opened Inclusion
  import Leaves
  import SumTrees

  /** `verify_with_anchor` */
  function VerifyWithAnchor(
    H: HashFn, verifies: SignatureFn, signed: SignedReport, proof: ProofDocument, anchor: Anchor): Result<(), Failure>
  {
    if anchor.formatVersion != ANCHOR_FORMAT_VERSION then Err(Failure.UnsupportedVersion)
    else if anchor.reportDigest != ReportDigestHex(H, signed.report) then Err(DigestMismatch)
    else VerifyV1(H, verifies, signed, proof, anchor.publisherKey)
  }

  /** Acceptance, exactly: an anchor of this very report, whose key the proof verifies under. */
  lemma AnchoredExactly(
    H: HashFn, verifies: SignatureFn, signed: SignedReport, proof: ProofDocument, anchor: Anchor)
    ensures VerifyWithAnchor(H, verifies, signed, proof, anchor).Ok? <==>
      && anchor.formatVersion == Ascii("canton-solvency-anchor-v1")
      && anchor.reportDigest == Hex(H(ReportPreimage(signed.report)))
      && VerifyV1(H, verifies, signed, proof, anchor.publisherKey).Ok?
  {
    hide VerifyV1, ReportPreimage, Hex, Ascii;
  }

  /**
   The producer's own anchor stands in for the key: against it a proof fares as it does under the key
   the report was signed with.
   */
  lemma ProducerAnchorGivesTheKey(
    H: HashFn, verifies: SignatureFn, signed: SignedReport, proof: ProofDocument, previous: Option<Anchor>)
    ensures VerifyWithAnchor(H, verifies, signed, proof, AnchorReport(H, signed, previous))
         == VerifyV1(H, verifies, signed, proof, signed.signature.publicKey)
  {
    hide VerifyV1, ReportDigestHex, AnchorDigestHex;
  }

  /** An anchor vouches for one signer: what is accepted under it carries its key and verifies under it. */
  lemma AnchoredSigner(
    H: HashFn, verifies: SignatureFn, signed: SignedReport, proof: ProofDocument, anchor: Anchor)
    requires VerifyWithAnchor(H, verifies, signed, proof, anchor).Ok?
    ensures signed.signature.publicKey == anchor.publisherKey
    ensures verifies(anchor.publisherKey, H(ReportPreimage(signed.report)), signed.signature.value) == Genuine
    ensures proof.reportDigest == anchor.reportDigest
  {
    hide VerifyV1, VerifyAgainstReport, ReportPreimage, Leaves.LeafNode, Leaves.Admissible, SumTrees.Fold, DecodeSteps,
      Hash32;
    VerifyV1Exactly(H, verifies, signed, proof, anchor.publisherKey);
    var leaf := Leaves.LeafNode(H, proof.leaf);
    AcceptedExactly(H, verifies, signed, leaf, proof.steps, proof.reportDigest, anchor.publisherKey);
  }

  /** And for one report: two reports accepted under one anchor are one, or their preimages collide. */
  lemma OneAnchorOneReport(
    H: HashFn, verifies: SignatureFn, x: SignedReport, y: SignedReport, p: ProofDocument, q: ProofDocument,
    anchor: Anchor)
    requires VerifyWithAnchor(H, verifies, x, p, anchor).Ok? && VerifyWithAnchor(H, verifies, y, q, anchor).Ok?
    ensures Collision(H, {ReportPreimage(x.report), ReportPreimage(y.report)}) || SameCovered(x.report, y.report)
  {
    hide VerifyV1, ReportPreimage, SameCovered, Collision;
    DigestNamesOneReport(H, x.report, y.report);
  }
}
