# Proofs about the solvency commitment and the code that must agree with it

A venue commits to its customers' balances in a Merkle sum tree, publishes the root in a signed
report, and hands each customer an inclusion proof. Around that commitment stand encodings,
digests, anchored histories, coverage and group verdicts, assurance levels, evidence packs and an
auditor's recomputation. This project models that machinery in Dafny and proves what it promises,
for all inputs: which leaves an accepted proof can be about, what a root hash fixes, what colluding
customers can derive, and what the composite verdicts mean in terms of the amounts themselves.
The transaction-effects walk, the transfer-fee schedule and the sign-in rate limiter of the same
repository are modelled too.

How to read the statements:

- **Hashing.** SHA-256 is a parameter `H` about which nothing is assumed. A security theorem
  concludes "the property holds, or `Collision(H, S)`", where `S` is the finite set of byte strings
  that the two computations really hashed. A collision among *all* byte strings always exists, so a
  theorem that allowed any collision would say nothing. There is none in `S` exactly when `H` tells the
  members of `S` apart (`ByteStrings.CollisionExactly`).
- **Strings** are byte sequences in bytewise order, which is how Rust compares them. `Text` is a
  byte sequence short enough for its length to be a `u64`.
- **Numbers.** `u128` is the naturals up to `U128_MAX` with every overflow check written out; `i64`
  division truncates; the fee schedule is over reals with one explicit half-to-even rounding.
- **Maps.** A `BTreeMap` is a finite map, enumerated by `SortedKeys`.
- **Signatures** are an uninterpreted function of key, digest and signature text.
- Loops of the source are methods with invariants, its mutated accumulators and the rate limiter are
  classes; both are tied by their postconditions to functions about which the lemmas speak.

Results that are not what the repository's own text says:

- *Published totals.* rust/solvency-report/src/verify.rs:420-421 and assurance.rs:294-299 say that a
  proof that folds to the published root also fixes the published totals. It does not: a step may
  carry a name with `|` that spells another asset's entry, the node text stays the same, and the
  amount is left out of the totals (`HiddenAmounts.ShortTotalsVerify`, graded cryptographically
  verified in `Assurance.ShortTotalsGraded`). The crafted name stands in the claimant's step, so v2
  leaves, whose own names are safe, do not prevent it (`HiddenAmounts.LegsHide`). Exactly when the
  totals are the book's is `Verify.PublishedTotalsAreTheBook`; that the customer is in the book needs
  no condition (`Verify.AcceptedIsInTheBook`).
- *Leakage.* docs/SECURITY-ANALYSIS.md:114-118 says `k` colluders expose at most `k` others. That
  holds for every even leaf count. With an odd count the promoted last leaf can be exposed as well,
  one colluder of three exposes both others (`LeakageCount.OneColluderOfThree`), and in a book of one
  the published root is the customer's balance with nobody colluding (`LeakageCount.NobodyOfOne`). `LeakageCount.AtMostOneEach` gives the
  exact condition for every book.
- *Unanimity.* rust/solvency-report/src/profile.rs:71-74 says a root total equal to the leaf count
  means every leaf carries one. A leaf of two beside a leaf of none also totals that
  (`Profiles.TwoAndNone`); `Profiles.UnanimityExactly` shows the reading is right exactly when no
  leaf carries more than one.
- *Instants.* String order of timestamps is instant order on the first nineteen bytes. Over whole
  strings it is only weakly so: a fraction sorts before the bare second it belongs to
  (`Instants.FractionsOrderTextOnly`). For one pair the two orders agree exactly unless both lie in one
  second and the first sorts before the second (`Instants.WholeStringsExactly`).
- *Names with `|`.* The node hash joins entries with `:` and `|`, so a name that contains `|` can
  spell another map (`Balances.CanonicalForgery`), as the source's own comment says. Theorems that
  speak of hashes alone ask nothing of names; those that speak of amounts say which names must be
  `|`-free, and `Readings.AgreesExactly` says what remains when they are not.
- *Dumps.* A matching leaf dump is the committed book up to how explicit zeros are spelt, and is it
  entry for entry exactly when the dump's own names are `|`-free (`Recompute.MatchIsTheCommittedBook`);
  zeros can be respelt (`Recompute.ZerosRespelt`).
- *Fees.* The charging loop is the bracket sum for all amounts and rates exactly when no threshold
  falls below the one before (`Fees.LoopIsBracketSumExactly`). Before rounding, rates never reward a
  split, whatever ordered thresholds they are put on, exactly when they never rise
  (`Fees.FallingRatesExactly`). After rounding, some split saves exactly when the schedule ever charges
  anything (`Fees.SplitSavesExactly`), and it saves at most one unit.
- *Provenance.* "Derived from the ledger" is read in two ways, through any source of an id and through
  the last. They agree exactly when the last source of each id tells what any does
  (`Provenances.ReadingsAgreeExactly`), so on every graph the verifier accepts.

`dafny verify dfyconfig.toml` checks the whole project.

## Model

| member | source | states |
|---|---|---|
| Amounts.ParseAmountCorrect | rust/solvency-merkle/src/lib.rs:80-108 | parsing yields a value exactly when the text is in the decimal grammar and its scaled value is that value and fits a u128; the too-large error exactly when a grammatical text denotes more |
| Amounts.ParseFormatRoundTrip | rust/solvency-merkle/src/lib.rs:80-120 | parsing a formatted amount gives the amount back, for every u128 |
| Amounts.FormatInjective | rust/solvency-merkle/src/lib.rs:118-120 | two amounts that format alike are equal |
| Amounts.FormatParseCanonical | rust/solvency-merkle/src/lib.rs:80-120 | formatting is a canonical form: two accepted texts denote one value exactly when their canonical texts agree |
| Balances.CanonicalGrows | rust/solvency-merkle/src/lib.rs:290-295 | the text of a map is nothing for none, and grows by a bar, the name, a colon and the amount for each further name in order |
| Balances.CanonicalInjective | rust/solvency-merkle/src/lib.rs:290-295 | over names free of `|` the joined text determines the map |
| Balances.CanonicalForgery | rust/solvency-merkle/src/lib.rs:175-178 | without that condition it does not: any two-entry map is spelt by a one-entry map |
| BalanceLists.CanonicalBalancesOfMap | rust/solvency-merkle/src/lib.rs:138-151 | the list is refused exactly when a name repeats, naming a repeated one, and otherwise gives the canonical text of its map |
| BalanceLists.CanonicalBalancesPermute | rust/solvency-merkle/src/lib.rs:138-151 | the result, error included, does not depend on the order of the balances |
| LengthPrefix.LpPrefix | rust/solvency-merkle/src/lib.rs:156-160 | a length-prefixed string marks its own end in any context |
| LengthPrefix.LpMapPrefix | rust/solvency-merkle/src/lib.rs:162-170 | an encoded amount map marks its own end and determines the map, whatever its names contain |
| LengthPrefix.EncodeAmounts | rust/solvency-merkle/src/lib.rs:163-170 | the appending loop produces exactly that encoding |
| Leaves.QualifiedInjective | rust/solvency-merkle/src/lib.rs:179-189 | a qualified key of safe names splits back in one way |
| Leaves.LeafPreimageReads | rust/solvency-merkle/src/lib.rs:191-266 | whatever the names, the bytes a leaf hash covers determine leaf kind, salt, hashed subject and the amounts as spelt (for v2 every named map, for an entity every field) |
| Leaves.LeafPreimageInjective | rust/solvency-merkle/src/lib.rs:191-266 | over `\|`-free names they determine the amounts themselves, and so the node |
| Leaves.MakeLeafV1 | rust/solvency-merkle/src/lib.rs:257-288 | a v1 leaf is refused exactly on a repeated asset, which the error names, and is otherwise the node over its map |
| Leaves.SafeNameExactly | rust/solvency-merkle/src/lib.rs:179-184 | a name is safe exactly when it is not empty and all letters, digits, points, underscores and hyphens |
| Leaves.CheckNames | rust/solvency-merkle/src/lib.rs:179-206 | the v2 guard passes exactly the maps whose every name is safe, and otherwise points at an unsafe one |
| Leaves.MakeLeafV2 | rust/solvency-merkle/src/lib.rs:196-236 | a v2 leaf is refused exactly on an unsafe name, and otherwise hashes the length-prefixed maps and sums every map under qualified keys |
| Leaves.FlattenMaps | rust/solvency-merkle/src/lib.rs:229-234 | the nested insertion loops give the union of the qualified maps |
| Domains.DomainsSeparate | rust/solvency-report/src/digest.rs:12-31 | no domain string is a prefix of another, so two preimages of different document kinds never coincide |
| Shapes.LevelSizeIsCeiling | rust/solvency-merkle/src/lib.rs:323-339 | level k over n leaves has ceil(n / 2^k) nodes |
| Shapes.HeightIsLog | rust/solvency-merkle/src/lib.rs:323-339 | the number of levels above the leaves is ceil(log2 n) |
| Shapes.RangeIsAbove | rust/solvency-merkle/src/lib.rs:347-363 | the repeated halving of an index reaches node j of level k exactly for the leaves j stands over |
| SumTrees.CheckedPlusIsPlus | rust/solvency-merkle/src/lib.rs:297-304 | checked per-asset addition succeeds exactly when every total fits a u128, and is then addition; its error names an asset that does not fit |
| SumTrees.Combine | rust/solvency-merkle/src/lib.rs:297-320 | the mutating loop computes that checked addition and hashes children and sums |
| SumTrees.Build | rust/solvency-merkle/src/lib.rs:323-339 | building fails exactly when there are no leaves or the grand total of some asset exceeds u128, whatever the shape, and otherwise gives a tree over those leaves |
| SumTrees.RangeSums | rust/solvency-merkle/src/lib.rs:323-339 | every node at every level carries exactly the sum, key set included, of leaves [j*2^k, min((j+1)*2^k, n)) |
| SumTrees.RootSums | rust/solvency-merkle/src/lib.rs:341-343 | the root publishes the total of all leaves |
| SumTrees.TreeUnique | rust/solvency-merkle/src/lib.rs:323-339 | one tree per leaf sequence |
| SumTrees.Prove | rust/solvency-merkle/src/lib.rs:347-365 | the proof is the sibling path, refused exactly for an index out of range |
| SumTrees.VerifyProof | rust/solvency-merkle/src/lib.rs:402-416 | acceptance is exactly that the fold reaches the given root, hash and sums |
| SumTrees.PathLength | rust/solvency-merkle/src/lib.rs:345-363 | steps and promoted levels together make the height: one step is omitted at each promotion and nowhere else |
| SumTrees.Completeness | rust/solvency-merkle/src/lib.rs:347-416 | for every leaf count and index the tree's own proof is accepted, and its length is the height less the promotions |
| SumTrees.AcceptedSumsAddUp | rust/solvency-merkle/src/lib.rs:402-416 | against any root at all, an accepted proof has root sums equal to leaf sums plus all sibling sums |
| Readings.AgreesExactly | rust/solvency-merkle/src/lib.rs:290-295 | a map that shows the text of a `\|`-free map agrees with it up to zeros exactly when each of its names with `\|` is worth nothing and spells only entries of nothing |
| TreeBinding.PreimageInjective | rust/solvency-merkle/src/lib.rs:258-314 | leaf and node preimages never coincide; equal ones show one leaf, or one pair of child hashes and one text of sums |
| TreeBinding.EqualHashesBindLeaves | rust/solvency-merkle/src/lib.rs:297-339 | equal hashes anywhere in two built trees mean leaf ranges below that read the same one for one, absent a collision |
| TreeBinding.RootBindsReadings | rust/solvency-merkle/src/lib.rs:297-343 | equal root hashes of two built trees, customer or entity leaves and any names, mean leaves the same in number, order, subject, salt and spelt amounts, or a collision among the strings hashed |
| TreeBinding.RootBindsLeaves | rust/solvency-merkle/src/lib.rs:297-343 | over `\|`-free names they mean the same leaves, amounts included, or such a collision |
| TreeSoundness.PathDescends | rust/solvency-merkle/src/lib.rs:402-416 | a path that folds to a tree node's hash ends at one leaf under that node, by that leaf's own sibling hashes; too long and too short paths included |
| TreeSoundness.SameStepsExactly | rust/solvency-merkle/src/lib.rs:402-416 | what the theorems below call the same steps is the same route with the same amount of every asset; with the same sums it is the same path |
| TreeSoundness.RootHashSound | rust/solvency-merkle/src/lib.rs:402-416 | a path that folds to the root hash of any built tree is for a committed leaf by that leaf's sibling hashes, whatever the names, or hashed strings collide |
| TreeSoundness.RootReachedExactly | rust/solvency-merkle/src/lib.rs:402-416 | over a `\|`-free tree such a path also has the root's sums exactly when its leaf and siblings are `\|`-free, or hashed strings collide |
| TreeSoundness.InclusionSound | rust/solvency-merkle/src/lib.rs:402-416 | a proof accepted against the root, hash and sums, of a tree over `\|`-free names is for a committed leaf, and each of its steps is the real sibling up to explicit zeros, or hashed strings collide |
| LeakageFixpoint.LevelsOf | rust/solvency-merkle/examples/sibling_leakage.rs:43-67 | the example's levels are a sum tree over the leaves; its plain addition overflows exactly when some total leaves u128 |
| LeakageFixpoint.PlusFaithful | rust/solvency-merkle/examples/sibling_leakage.rs:124-131 | adding two learned siblings gives the parent's real sums up to zeros and does not overflow |
| LeakageFixpoint.SubFaithful | rust/solvency-merkle/examples/sibling_leakage.rs:115-139 | subtracting a learned child from its parent never saturates and gives the sibling's real sums up to zeros |
| LeakageFixpoint.VisitGroup | rust/solvency-merkle/examples/sibling_leakage.rs:97-140 | one visit closes the pair under the three rules and the promotion identity with the fewest new nodes, and reports learning exactly when it added one |
| LeakageFixpoint.Disclose | rust/solvency-merkle/examples/sibling_leakage.rs:76-91 | the starting knowledge holds the root and every colluder's leaf and siblings, at their real sums |
| LeakageFixpoint.Sweep | rust/solvency-merkle/examples/sibling_leakage.rs:94-141 | a sweep that learns nothing leaves a closed set |
| LeakageFixpoint.Derive | rust/solvency-merkle/examples/sibling_leakage.rs:73-147 | the loop terminates with exactly the exposed nodes, each at its real sums up to zeros |
| LeakageFixpoint.Determined | rust/solvency-merkle/examples/sibling_leakage.rs:73-148 | the result is the closed form: ancestors of colluders, their siblings, and promotion copies |
| Leakage.ExposedClosed | rust/solvency-merkle/examples/sibling_leakage.rs:93-145 | the closed form is closed under the rules |
| Leakage.ExposedLeast | rust/solvency-merkle/examples/sibling_leakage.rs:73-147 | and is the least such set with the disclosed nodes, so no visiting order changes it |
| Leakage.ExposedMonotone | rust/solvency-merkle/examples/sibling_leakage.rs:73-147 | more colluders never learn less |
| LeakageCount.LeafExposed | rust/solvency-merkle/examples/sibling_leakage.rs:213-227 | a leaf is exposed exactly when it or its partner colludes, or it is the promoted last leaf and the subtree it is finally paired with has a colluder |
| LeakageCount.OthersCount | rust/solvency-merkle/examples/sibling_leakage.rs:213-227 | the number of other customers exposed: colluders with an outside partner, plus one for that last leaf |
| LeakageCount.AtMostOneEach | docs/SECURITY-ANALYSIS.md:114-118 | k colluders expose at most k others exactly unless that last leaf is extra and every colluder has an outside partner; always so, with the exact count, for even n |
| LeakageCount.OneColluderOfThree | docs/SECURITY-ANALYSIS.md:114-118 | the stated bound fails for three leaves and one colluder |
| LeakageCount.NobodyOfOne | docs/SECURITY-ANALYSIS.md:114-118 | and for one leaf and no colluder, whose balance the root publishes |
| Digests.ReportBound | rust/solvency-report/src/digest.rs:19-54 | two reports have one preimage exactly when all fields agree, the manifest counting only for v2 |
| Digests.ReportDigest | rust/solvency-report/src/digest.rs:19-54 | feeding the hasher field by field covers exactly that preimage |
| Digests.AnchorBound | rust/solvency-report/src/anchor.rs:65-87 | the anchor preimage determines every field, an absent predecessor differing from an empty one |
| Digests.AnchorDigest | rust/solvency-report/src/anchor.rs:65-87 | feeding the hasher field by field covers exactly that preimage |
| Digests.AttestationBound | rust/solvency-report/src/assurance.rs:200-216 | the attestation preimage determines every field |
| Digests.PackBound | rust/solvency-report/src/pack.rs:137-155 | the pack preimage determines every field and entry |
| Digests.ProvenanceBound | rust/solvency-report/src/provenance.rs:117-151 | the provenance preimage determines both nested, counted lists |
| Digests.CorpusBound | rust/solvency-report/src/compat.rs:66-80 | the corpus preimage determines every case and its requirements |
| Digests.AttestationDigest | rust/solvency-report/src/assurance.rs:200-216 | the hasher is fed exactly the attestation preimage |
| Digests.PackDigest | rust/solvency-report/src/pack.rs:137-155 | the hasher is fed exactly the pack preimage, its entry count before its entries |
| Digests.ProvenanceDigest | rust/solvency-report/src/provenance.rs:117-151 | the hasher is fed exactly the provenance preimage, both counts and lists in order |
| Digests.CorpusDigest | rust/solvency-report/src/compat.rs:66-80 | the hasher is fed exactly the corpus preimage |
| Digests.EntityBound | rust/solvency-report/src/group.rs:32-46 | the entity-leaf preimage determines identity, root hash and sums |
| ByteStrings.HexInjective | rust/solvency-report/src/anchor.rs:89-91 | hex digests are equal only for equal digests |
| ByteStrings.HexSpells | rust/solvency-report/src/anchor.rs:89-91 | two digits to a byte, the high half first, from `0123456789abcdef` |
| ByteStrings.U64LeValue | rust/solvency-report/src/digest.rs:57-61 | the eight bytes written before a string or list are worth its length, least significant first |
| Digests.DigestNamesOneReport | rust/solvency-report/src/digest.rs:75-77 | one hex digest is one report in every field the digest covers, or two report preimages collide |
| Anchors.VerifyChain | rust/solvency-report/src/anchor.rs:157-193 | acceptance is exactly the linked, ordered, one-publisher history; a refusal reports the first faulty position and its fault |
| Anchors.LastAnchorFixesHistory | rust/solvency-report/src/anchor.rs:157-193 | two accepted histories with the same last digest are the same sequence, or anchor preimages collide |
| Anchors.HistoryOrdersAllPairs | rust/solvency-report/src/anchor.rs:168-189 | in an accepted history every pair, not only neighbours, has increasing times, non-decreasing offsets and one publisher |
| Anchors.ProducerAcceptedIffInOrder | rust/solvency-report/src/anchor.rs:243-254 | folding the producer over reports gives an accepted history exactly when the reports meet those order rules |
| Anchors.VerifyAnchoredReports | rust/solvency-report/src/anchor.rs:228-240 | accepted exactly when every pair up to the shorter list agrees, the first disagreement being reported |
| Anchors.ProducerDescribesReports | rust/solvency-report/src/anchor.rs:228-254 | the producer's anchors describe their reports |
| Anchors.DescribedReportsBound | rust/solvency-report/src/anchor.rs:228-254 | an anchor describes one report, or report preimages collide |
| Anchors.LastAnchorFixesReports | rust/solvency-report/src/anchor.rs:157-240 | two accepted histories with the same last digest describe the same reports position by position, as far as digests cover them, or hashed strings collide |
| AnchoredProofs.AnchoredExactly | rust/solvency-report/src/anchor.rs:206-224 | accepted exactly under an anchor of its version, of this report, whose key the proof verifies under |
| AnchoredProofs.ProducerAnchorGivesTheKey | rust/solvency-report/src/anchor.rs:206-254 | against the producer's own anchor a proof fares as under the key the report was signed with |
| AnchoredProofs.AnchoredSigner | rust/solvency-report/src/anchor.rs:206-224 | acceptance means the report carries the anchor's key and verifies under it |
| AnchoredProofs.OneAnchorOneReport | rust/solvency-report/src/anchor.rs:206-224 | two reports accepted under one anchor are one, or their preimages collide |
| Calendar.NextDayIsOneDay | rust/solvency-report/src/instant.rs:26-48 | the day after any valid date, across months, leap years, centuries and eras, counts one more |
| Calendar.DateAtCounts | rust/solvency-report/src/instant.rs:26-48 | stepping n days from 1970-01-01 either way reaches a valid date whose count is n |
| Calendar.DaysFromCivilIsTheCount | rust/solvency-report/src/instant.rs:26-48 | the era arithmetic is the inverse of that naive stepping, for every valid date |
| Calendar.OrderIsDayOrder | rust/solvency-report/src/instant.rs:26-34 | civil order is day-count order, and the count is injective |
| Instants.AcceptedIffRendered | rust/solvency-report/src/instant.rs:52-105 | accepted exactly when the text is the nineteen bytes of a valid date and time of the years 0000 to 9999, then `Z`, or a point, at least one digit and `Z` |
| Instants.RenderParses | rust/solvency-report/src/instant.rs:52-105 | every valid stamp of a four-digit year renders to a text that parses to the count of its second; what that count is, the four rows below say |
| Instants.NextSecondParsesToOneMore | rust/solvency-report/src/instant.rs:104 | the spelling of the next second, reached through the naive calendar, parses to exactly one more, across minutes, hours, days, months and years |
| Instants.EpochParsesToZero | rust/solvency-report/src/instant.rs:104 | the first second of 1970 parses to 0 |
| Instants.LaterByExactly | rust/solvency-report/src/instant.rs:52-105 | of two accepted texts one parses to n more exactly when n one-second steps lead from the second the other names to its own |
| Instants.SkewCountsSeconds | rust/solvency-report/src/instant.rs:108-111 | the skew is n exactly when both texts are accepted and n one-second steps join what they name, whichever is earlier |
| Instants.StringOrderIsInstantOrder | rust/solvency-report/src/instant.rs:52-105 | over accepted strings the first nineteen bytes order, and agree, exactly as the instants do |
| Instants.WholeStringsWeaklyMonotone | rust/solvency-report/src/instant.rs:52-105 | whole strings in order name instants in order |
| Instants.WholeStringsExactly | rust/solvency-report/src/instant.rs:52-105 | for two accepted strings text order is instant order exactly unless both lie in one second and the first sorts before the second |
| Instants.FractionsOrderTextOnly | rust/solvency-report/src/instant.rs:52-105 | a fraction changes the text order and not the instant |
| Prepared.TallyOne | rust/sim-core/src/prepared.rs:163-275 | counting one more node moves the flat counts as the walk's tally does |
| Prepared.EffectsWalk.Record | rust/sim-core/src/prepared.rs:163-275 | listing a node keeps all five accumulators equal to a flat pass over the visited ids |
| Prepared.EffectsWalk.Walk | rust/sim-core/src/prepared.rs:139-292 | on any graph, cyclic, shared or dangling, the walk terminates, keeps that agreement, and appends exactly the depth-first preorder from its node over what was not yet visited, each at its depth |
| Prepared.ArgumentsStayOut | rust/sim-core/src/prepared.rs:157-163 | a listing without arguments is the listing of the same nodes never having had any, and shows none |
| Prepared.EffectsOf | rust/sim-core/src/prepared.rs:46-108 | the listing is the depth-first preorder from the roots and then from every node in turn, the first visit counting; each decodable node is in it once with all its fields; counts, informees and consumed inputs are a plain fold over the id map |
| Prepared.ListedAsDecoded | rust/sim-core/src/prepared.rs:164-275 | an entry is the listing of its node exactly when each of its fields, children included, is what the decoded node holds, an empty text being none |
| Prepared.PreorderReaches | rust/sim-core/src/prepared.rs:139-292 | what a visit has seen is the least set with the starting nodes that is closed under the children the nodes name |
| Prepared.PreorderHangs | rust/sim-core/src/prepared.rs:276-292 | every place is a starting node or hangs one level below its nearest shallower predecessor, which names it: depth is edges walked |
| Prepared.ListingHangs | rust/sim-core/src/prepared.rs:71-100 | so it is for every transaction, and top entries are roots or listed nodes |
| Prepared.ByIdKeepsTheLast | rust/sim-core/src/prepared.rs:59-67 | the id map holds a node exactly when it is the last listed under its id with a known version |
| Prepared.InformeesByField | rust/sim-core/src/prepared.rs:166-236 | a party is informed exactly when some node names it as signatory, stakeholder, actor or choice observer |
| RateLimit.Limiter.Proxy | web/src/proxy.ts:27-48 | a request's answer and the new bucket map are the specified ones, the in-place pruning included |
| RateLimit.OpeningPrunes | web/src/proxy.ts:32-38 | opening a bucket past ten thousand drops exactly the expired ones, and short of that none |
| RateLimit.RetryAfterIsLeast | web/src/proxy.ts:41-46 | the seconds a refused caller is told to wait are the fewest after which a request passes |
| RateLimit.EvictionUnobservable | web/src/proxy.ts:32-38 | on a clock that never runs back, no answer differs from that of a map which never evicts |
| RateLimit.WindowBound | web/src/proxy.ts:15-48 | over any run on a clock that never runs back, any half-open fifteen minutes let at most nineteen requests of one address through |
| RateLimit.BucketBound | web/src/proxy.ts:32-47 | a bucket lets at most ten through between its first request and its reset |
| RateLimit.BoundReached | web/src/proxy.ts:15-48 | some run reaches the window bound |
| Fees.TransferFee | rust/sim-fee/src/lib.rs:141-159 | on any schedule what the early-returning loop charges, and on thresholds in order the sum over brackets of rate times the part of the amount inside, moved to the nearest whole number of ten-decimal units, to the even one from halfway |
| Fees.RoundHalfEvenExactly | rust/sim-fee/src/lib.rs:151-158 | being within half of the argument, and even when exactly half away, determines the rounding |
| Fees.RoundDpExactly | rust/sim-fee/src/lib.rs:151-158 | one fee and one only is that rounding to ten decimals |
| Fees.LoopIsBracketSumExactly | rust/sim-fee/src/lib.rs:141-159 | the loop charges the bracket sum for every amount and all rates on given thresholds exactly when none falls below zero or the one before |
| Fees.FeeMonotone | rust/sim-fee/src/lib.rs:141-159 | the rounded bracket sum never falls as the amount grows, with rates not negative |
| Fees.SplittingNeverSaves | rust/sim-fee/src/lib.rs:141-159 | with falling rates the unrounded fee is subadditive |
| Fees.SplittingSavesAtMostOneUnit | rust/sim-fee/src/lib.rs:141-159 | after rounding a split saves at most one unit of the tenth decimal |
| Fees.OneUnitSaved | rust/sim-fee/src/lib.rs:141-159 | and some split saves that unit |
| Fees.SplitSavesExactly | rust/sim-fee/src/lib.rs:141-159 | under falling rates some split saves after rounding exactly when the schedule charges some amount anything |
| Fees.FallingRatesExactly | rust/sim-fee/src/lib.rs:141-159 | rates make the unrounded fee subadditive on all ordered thresholds exactly when they never rise |
| Fees.RisingRatesRewardSplitting | rust/sim-fee/src/lib.rs:141-159 | rates that rise anywhere make a split cheaper on some ordered thresholds |
| Verify.UnhexHex | rust/solvency-report/src/verify.rs:143-148 | decoding an encoded digest gives it back |
| Verify.UnhexExactly | rust/solvency-report/src/verify.rs:143-148 | a text decodes to given bytes exactly when it is their encoding, digits in either case |
| Verify.DecodedExactly | rust/solvency-report/src/verify.rs:398-411 | steps decode to a path exactly when each hash decodes to the sibling's and sums and side stand as written |
| Verify.ReportedAsset | rust/solvency-report/src/verify.rs:472-483 | the asset reported is the first in order of the folded side that differs, or of the published side when all the folded ones agree |
| Verify.AcceptedExactly | rust/solvency-report/src/verify.rs:378-425 | accepted exactly when the proof names this report's digest, the trusted key is the signer's, the signature is genuine, steps and root hash decode, and the fold has that hash and those totals |
| Verify.RefusedExactly | rust/solvency-report/src/verify.rs:378-425 | each refusal is given exactly when its check is the first to fail |
| Verify.OneProofOneReport | rust/solvency-report/src/verify.rs:387-389 | one proof accepted against two reports means reports equal in all the digest covers, or their preimages collide |
| Verify.HonestProofAccepted | rust/solvency-report/src/verify.rs:378-425 | every leaf of a built tree is accepted, by its own path as written out, against the report signed over the tree |
| Verify.AcceptedMeansFolded | rust/solvency-report/src/verify.rs:378-440 | an accepted fold meets the root hash and totals under a genuine signature, and the leaf plus all siblings make those totals |
| Verify.LeafWithinPublished | rust/solvency-report/src/verify.rs:378-425 | an accepted leaf never holds more of an asset than the published total |
| Verify.AcceptedIsInTheBook | rust/solvency-report/src/verify.rs:378-425 | acceptance under the root hash of a built tree means a committed leaf that reads as the claimant's, by its own sibling hashes, whatever the names, or a collision |
| Verify.PublishedTotalsAreTheBook | rust/solvency-report/src/verify.rs:416-425 | acceptance under the root hash of a tree over `\|`-free names means published totals equal to the committed ones, up to zeros, exactly when no name with `\|` met in the fold hides an amount, in particular when the leaf and the steps have none, or a collision |
| HiddenAmounts.CustomersHide | rust/solvency-report/src/verify.rs:419-425 | the totals can be published short: a v1 book of two owes `v` of an asset, and every report over its root without that asset passes the shared tail |
| HiddenAmounts.LegsHide | rust/solvency-report/src/verify.rs:419-425 | the same over a v2 book, whose own names are all safe |
| HiddenAmounts.ShortTotalsVerify | rust/solvency-report/src/verify.rs:167-200 | and with every guard of `verify` met |
| Manifests.CheckManifest | rust/solvency-report/src/verify.rs:335-374 | the first declared path, in order, that is unknown or contradicts the body |
| Manifests.DeclarationIsTruth | rust/solvency-report/src/verify.rs:335-374 | in a manifest that passes, a body field is declared published exactly when the body carries data for it |
| Inclusion.ReportPassesExactly | rust/solvency-report/src/verify.rs:306-374 | v1 passes exactly without a manifest, v2 exactly with one in which every path is a commitment field or one declared published just when the body carries data |
| Inclusion.ManifestTellsEachField | rust/solvency-report/src/manifest.rs:66-80 | in a passing report each of the five body fields is declared published exactly when it is not empty |
| Inclusion.ReportRefusedExactly | rust/solvency-report/src/verify.rs:306-333 | an unknown version, or a manifest where none may be or none where one must, is refused as that, and nothing else is but a manifest the body contradicts |
| Inclusion.VerifyV1Exactly | rust/solvency-report/src/verify.rs:167-200 | accepted exactly when report, profile, both versions and the leaf pass and the shared tail accepts |
| Inclusion.VerifyV2Exactly | rust/solvency-report/src/verify.rs:204-252 | accepted exactly when report, a profile of v2 leaves, both versions, the maps it wants and the leaf's names pass and the shared tail accepts |
| Inclusion.RefusedInOrder | rust/solvency-report/src/verify.rs:167-252 | a refused proof of either version is told of the report first, then the profile, then the versions |
| Inclusion.HonestCustomerAccepted | rust/solvency-report/src/verify.rs:167-200 | every customer of an honestly published book is accepted |
| Inclusion.OneDocumentOneReport | rust/solvency-report/src/verify.rs:167-200 | one proof document accepted against two reports means one report, or a collision |
| Inclusion.VerifiedV1IsCommitted | rust/solvency-report/src/verify.rs:167-200 | a proof that `verify` accepts under a built root is for a committed leaf, or a collision |
| Inclusion.VerifiedLeafCarriesMaps | rust/solvency-report/src/verify.rs:204-252 | a v2 proof accepted under a built root is for a committed leaf that carries every map its profile requires, or a collision |
| Recompute.RunRecompute | rust/solvency-cli/src/recompute.rs:44-122 | the comparison succeeds exactly on a non-empty dump of admissible leaves whose totals fit, and reports the rebuilt root and the assets that really differ; over `|`-free names the rebuilt tree commits the dump |
| Recompute.MatchIsTheCommittedBook | rust/solvency-cli/src/recompute.rs:38-122 | the committed leaves always match; a dump with any names that matches is the committed book in order up to explicit zeros, and is it entry for entry exactly when its names are `\|`-free, or a collision |
| Recompute.ZerosRespelt | rust/solvency-cli/src/recompute.rs:38-42 | a dump with a `\|` name can match without being the book entry for entry |
| Custody.ParseHoldings | rust/reserve-attest/src/lib.rs:195-242 | refused at the first row that repeats a contract or has an unreadable amount, and otherwise read in order |
| Custody.TotalsOf | rust/reserve-attest/src/lib.rs:274-283 | per-asset totals, refused exactly when one exceeds u128 |
| Custody.BuildCustody | rust/reserve-attest/src/build.rs:16-58 | published exactly when the book is not empty, offset and profile agree, the asset names are safe and the totals fit; then the tree over positions in contract-id order |
| Custody.SortedByContract | rust/reserve-attest/src/build.rs:40-43 | the leaves stand in ascending contract-id order, strictly when no contract repeats |
| Custody.CustodyRootIsHeld | rust/reserve-attest/src/build.rs:45-57 | the tree's `held/` sums are the totals of the positions |
| Custody.CustodyForgetsOrder | rust/reserve-attest/src/build.rs:40-43 | permuting positions with distinct contracts leaves the whole tree, root hash included, unchanged |
| Coverage.VerifyCoverage | rust/solvency-report/src/coverage.rs:84-160 | refused with the first fault in the source's order, and otherwise one row for every asset owed |
| Coverage.FaultlessExactly | rust/solvency-report/src/coverage.rs:84-140 | no fault is found exactly when the statement names both reports by digest, each is of its profile and genuinely signed by its trusted key, and the two moments are readable and near enough |
| Coverage.FullyCoveredIsDominance | rust/solvency-report/src/coverage.rs:56-64 | the verdict is exactly that for every asset custody holds at least what is owed, and exactly that no shortfall is listed |
| Coverage.CoverageEndToEnd | rust/solvency-report/src/coverage.rs:142-159 | with both trees built from leaves, the verdict is exactly that positions sum to at least the customer balances, per asset |
| Coverage.AcceptedIsComparable | rust/solvency-report/src/coverage.rs:117-140 | an accepted pairing is of two readable instants no further apart than the tolerance |
| Coverage.StatementNamesOneReport | rust/solvency-report/src/coverage.rs:105-112 | one statement names one custody report up to its manifest, or preimages collide |
| Group.ChainDominates | rust/solvency-report/src/group.rs:188-218 | an accepted chain means, for every asset, customer balance at most entity total at most group total |
| Group.MembershipExactly | rust/solvency-report/src/group.rs:152-179 | a membership is accepted exactly when version, profile and root hash pass and the shared tail accepts the entity leaf made of its fields; otherwise the first of these to fail is named |
| Group.ChainExactly | rust/solvency-report/src/group.rs:188-218 | a chain is accepted exactly when both halves are, they name one root, and they agree on every asset; otherwise the customer's fault comes before the membership's, the root's and the totals' |
| Group.MakeEntityLeaf | rust/solvency-report/src/group.rs:32-46 | feeding domain, identity, root and totals makes the group-tree leaf of the entity, whose preimage determines all of them |
| Group.PublishGroup | rust/solvency-report/src/group.rs:78-91 | the group tree is refused exactly on no entities or a total over u128, and otherwise stands over their leaves |
| Group.MemberIsCommitted | rust/solvency-report/src/group.rs:152-181 | an accepted membership under a built group root names a committed entity, identity, root and totals, or a collision |
| Group.ChainReachesTheBook | rust/solvency-report/src/group.rs:188-218 | an accepted chain over built trees puts the customer in the book of an entity that the group committed under that book's root, or a collision |
| Group.ChainSharesRoot | rust/solvency-report/src/group.rs:188-218 | both links speak of one root hash and one set of totals |
| Assurance.EstablishField | rust/solvency-report/src/assurance.rs:281-352 | the levels collected for a field are exactly the supported ones, which the four rows below spell out |
| Assurance.AttestedExactly | rust/solvency-report/src/assurance.rs:320-350 | an attested level is established exactly when the field is not withheld and some attestation is of this field, this report and its own version, by a key trusted for its role, under the right algorithm and a genuine signature |
| Assurance.OthersAttestNothing | rust/solvency-report/src/assurance.rs:320-327 | attestations of other fields or other reports establish no attested level |
| Assurance.LedgerDerivedExactly | rust/solvency-report/src/assurance.rs:246-319 | ledger-derived exactly under an anchor that repeats the report's digest, root, time, offset and publisher, and a graph whose first derivation of the field names an on-ledger source |
| Assurance.VerifiedExactly | rust/solvency-report/src/assurance.rs:294-306 | cryptographically verified exactly for totals that are not withheld and with a proof `verify` accepts |
| Assurance.Establish | rust/solvency-report/src/assurance.rs:272-355 | every known field, no other, gets exactly its supported levels |
| Assurance.VerifyAssurance | rust/solvency-report/src/assurance.rs:364-415 | accepted exactly when the report is authentic and every declared level is for a known field and supported; an unauthentic one is refused first and with its own reason, other errors name an unknown or over-claimed field |
| Assurance.AuthenticExactly | rust/solvency-report/src/assurance.rs:370-388 | authentic exactly when the statement has its version and names this report's digest, and the trusted publisher genuinely signed it |
| Assurance.LevelStays | rust/solvency-report/src/assurance.rs:264-355 | supplying absent evidence, more attestations or more trusted keys never removes a level |
| Assurance.AcceptedStays | rust/solvency-report/src/assurance.rs:364-415 | so an accepted statement stays accepted |
| Assurance.WithheldExactly | rust/solvency-report/src/assurance.rs:231-293 | a genuinely withheld field supports not-disclosed alone; any other supports claimed-only and never not-disclosed |
| Assurance.DeclarationDecides | rust/solvency-report/src/assurance.rs:231-237 | in a report whose manifest passes, declaring a body field withheld is exactly its being withheld |
| Assurance.ShortTotalsGraded | rust/solvency-report/src/assurance.rs:294-306 | short totals can be graded cryptographically verified |
| Assurance.SignatureAttestsOneField | rust/solvency-report/src/assurance.rs:194-216 | one signed digest is one attestation, field included, or preimages collide |
| Provenances.VerifyProvenance | rust/solvency-report/src/provenance.rs:165-250 | accepted exactly when authentic, source ids are unique and off-ledger ones explained, and each derivation is of a known field, the only one of it, and from declared sources |
| Provenances.AuthenticExactly | rust/solvency-report/src/provenance.rs:165-195 | a graph is looked at exactly when it has its version, names this report and is genuinely signed by the trusted key |
| Provenances.SoundExactly | rust/solvency-report/src/provenance.rs:195-250 | sound exactly when source ids are unique, off-ledger ones explained, and derivations are of known fields, one each, from at least one source and declared ones only |
| Provenances.ReadingsAgreeExactly | rust/solvency-report/src/assurance.rs:255-265 | the two readings of a ledger-derived field agree for all derivations from given sources exactly when the last source of each id is on the ledger whenever any is |
| Provenances.AcceptedReadingsAgree | rust/solvency-report/src/provenance.rs:260-291 | on a graph the verifier accepts they agree for every field |
| Provenances.CheckAgainstAssurance | rust/solvency-report/src/provenance.rs:260-291 | passes exactly when every field declared ledger-derived has an on-ledger source by id; errors name a field unexplained or all off-ledger |
| Provenances.SubstantiatedPassesTheGraph | rust/solvency-report/src/provenance.rs:252-291 | levels that the evidence substantiates pass that check against the accepted graph in the evidence |
| Profiles.Validate | rust/solvency-report/src/profile.rs:203-281 | accepted exactly for a registered profile whose aggregates are present, whose cover rule holds for every asset and whose unanimous keys total one per leaf, and otherwise refused by the first of these rules that fails |
| Profiles.SolvencyDemands | rust/solvency-report/src/profile.rs:77-96 | the two solvency profiles ask for some total, over customer and over entity leaves |
| Profiles.RepoDemands | rust/solvency-report/src/profile.rs:100-112 | the repo profile passes exactly with both maps published and collateral at least exposure for every asset |
| Profiles.FundDemands | rust/solvency-report/src/profile.rs:124-133 | the fund profile passes exactly with units and entitlements published |
| Profiles.SettlementDemands | rust/solvency-report/src/profile.rs:142-151 | the settlement profile passes exactly with both legs published, and wants both in every leaf |
| Profiles.EligibilityDemands | rust/solvency-report/src/profile.rs:160-168 | the eligibility profile passes exactly with something attested and every attested rule totalling one per leaf, and wants it in every leaf |
| Profiles.CustodyDemands | rust/solvency-report/src/profile.rs:177-185 | the custody profile passes exactly with something held published, and wants it in every leaf |
| Profiles.UnknownNames | rust/solvency-report/src/profile.rs:187-199 | no other profile name is registered |
| Profiles.CoveredLegsCover | rust/solvency-report/src/profile.rs:235-256 | legs that are each covered give a root that passes the cover rule |
| Profiles.UnanimityExactly | rust/solvency-report/src/profile.rs:152-158 | over a built tree that passes, every leaf carries one exactly when none carries more than one |
| Profiles.UnanimousLeavesPass | rust/solvency-report/src/profile.rs:257-274 | leaves that each carry one make a root that passes |
| Profiles.TwoAndNone | rust/solvency-report/src/profile.rs:152-158 | the stated meaning fails: a leaf of two and a leaf of none pass |
| Packs.BuildPack | rust/solvency-report/src/pack.rs:163-196 | refused at the first unsafe or repeated name, if any, and otherwise the sorted index over the files |
| Packs.VerifyPack | rust/solvency-report/src/pack.rs:229-275 | accepted exactly when authentic and the files delivered are the files named, unaltered; errors say which |
| Packs.AuthenticExactly | rust/solvency-report/src/pack.rs:229-251 | a pack is looked at exactly when it has its version, the trusted key, digits in either case, and a genuine signature |
| Packs.EntryPassesExactly | rust/solvency-report/src/pack.rs:119-128 | an entry passes exactly when its name is one plain path component of a delivered file whose hash it states, digits in either case |
| Packs.LowerByLetter | rust/solvency-report/src/pack.rs:239-243 | comparing whatever the case takes each capital letter for its small one and changes nothing else |
| Packs.SameDigestExactly | rust/solvency-report/src/pack.rs:262-266 | a stated hash is taken for a file's exactly when it decodes to the hash of the file |
| Packs.AssembledIsDelivered | rust/solvency-report/src/pack.rs:163-275 | an index verifies against the files it was built over |
| Packs.AssemblyForgetsOrder | rust/solvency-report/src/pack.rs:183-189 | the files assembled in any order are one delivery, so one index |
| Packs.OneDigestOneDelivery | rust/solvency-report/src/pack.rs:229-275 | two deliveries accepted under one pack digest are equal file for file, or hashed strings collide |
| Compat.Defects | rust/solvency-report/src/compat.rs:103-140 | the defects listed are exactly those of the cases that break the rule, in order |
| Compat.MissingInOrder | rust/solvency-report/src/compat.rs:103-140 | the features a defect lists as missing stand in the order the case requires them |
| Compat.SameClaimsSameCases | rust/solvency-report/src/compat.rs:53-140 | two faultless statements with one corpus digest and the same claims skip the same cases, or corpora collide |

## Left out

- SHA-256, HMAC and Ed25519 themselves; salts are inputs, signature checks an uninterpreted function.
- JSON, hex-key parsing beyond `hash32`, base64 and protobuf decoding: documents start decoded.
- HTTP, the ledger client, argument parsing, files, text and JSON rendering, exit codes, the web console.
- LeakageFixpoint.Derive: asks for colluder indices inside the tree, as the example indexes without a check.
- Fees.TransferFee: exact reals; the 28-digit precision of the decimal library is not modelled.
- Fees.FeeMonotone: about the bracket sum, so about the loop only on thresholds in order.
- `quote_amulet_transfer`, `quote_traffic` and the search for the newest price: sums and lookups over the modelled fee.
- Prepared.EffectsOf: identifiers and values are text already rendered; the metadata around the walk and the copied fields of input contracts are dropped.
- Prepared.EffectsWalk.Walk: recursion depth is unbounded here; the stack is not modelled.
- RateLimit.Limiter.Proxy: the address is an input; reading it from headers is not modelled. Deletion order inside a prune is arbitrary.
- Packs.VerifyPack: the trusted key is taken already trimmed.
- Compat.Defects: messages are data rather than text; running a case is not modelled.
- Provenances.VerifyProvenance: whether a basis is blank is a parameter; Unicode white space is not modelled.
- Error payloads that only render text.
- Golden vectors, the conformance corpus, benchmarks and the demonstration programs around the modelled functions.
