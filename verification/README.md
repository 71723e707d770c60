# A verified model of the enrollment and petition services

This project models, in Dafny, the parts of a privacy-preserving petition system
where correctness rests on algebra, loops or state, and proves what they promise:

- **The Grumpkin and ristretto255 oblivious PRF.** `PrimeField`, `SvdwMap`: the
  Shallue-van de Woestijne map of the Grumpkin curve (section 6.6.1 and Appendix
  F.1 of RFC 9380). `PrimeGroup`, `Lagrange`, `Threshold`: combining threshold
  partials, their epoch-bound proofs, blinding and unblinding. `Voprf`: the
  single-node verifiable OPRF (sections 2.2.1, 2.2.2 and 3.3.2 of RFC 9497) with
  its octet encodings. The field is the integers modulo an arbitrary prime; the
  curve group is any group of prime order, given by its laws; hashes are arbitrary
  functions. What the code knows about its constants (48 is a square, ZETA is not)
  is a hypothesis; that a product of two non-squares is a square is proved.
- **The zero-padded Merkle tree.** `MerkleTree`, `MerkleIndex`: the stored, cut-off
  layers against the perfect tree of depth d, paths, direction bits, binding, and
  the index that is rebuilt on every append.
- **The enrollment service.** `Store`, `HexText`, `Service`: table, index, signed
  root chain and handlers, with an invariant over every run of serialised handlers
  and restarts. `Overlap`: two registrations that interleave at their awaits in
  every possible way, where the invariant does not always survive, with the exact
  condition on the schedule; and a path request overtaken by a registration. `Crowd`:
  any number of registrations, with what every schedule keeps and a sufficient condition.
  `Gates`, `BlindEval`: replay cache, per-subject counter, age gate.
- **The relayer.** `PromiseQueue`: the queue of writes as a chain of promises with two
  callbacks each, refining `NonceQueue`: sends in order with a cached nonce, over every
  interleaving with a chain that may accept a write and still report an error.
  `RateLimiter`: a pruned table that answers like an unpruned one.
- **Octets and dates.** `Int32`, `Der`, `P7b`: DER reading with 32-bit shifts and the walk
  over certificate bundles. `Bytes`, `Packing`: the 34 key fields and the two OPRF limbs.
  `Calendar`: dates of birth and ages.

Code that changes state step by step is modelled by methods and classes, each proved
against a specification function; the lemmas are about those functions.

Where the code and its documentation disagree, the model follows the code:

- The code inverts with `Fp.inv`, which throws on zero; RFC 9380 uses inv0. The inputs
  concerned are exactly the failures of `SvdwMap.MapToCurve`.
- The proof transcript leaves out the composite step of RFC 9497.
- `multiply` of the curve library refuses the scalar 0. Honest proofs are therefore
  accepted except when a challenge or response is zero, where verification throws.
- `verifyPartialDleq` is documented as true only if the share is k M for the key k G. It
  is not: the challenge is compared modulo p and multiplied modulo the order, and is not
  tested to be reduced (`Threshold.AcceptanceBindsNoShare`). With the test
  (`Threshold.InRangeAcceptance`) only a lucky hash lets a false share pass
  (`Threshold.FalseShareNeedsOneChallenge`). `Voprf.VerifyProof` has one modulus for both.
- `MerkleIndex.append` is documented as safe, and the handler documents its failed insert
  as the answer to a race. Serialised, that branch is unreachable; interleaved, it can
  leave the refused leaf in the tree (`Overlap.RefusedLeafStays`), and two accepted
  requests can sign updates that do not chain (`Overlap.ChainOutOfOrder`).
- Commitments are unique as texts, not as numbers (`Service.OtherCasingEnrollsAgain`).
- The bits of an inclusion proof are the digits of the index only below 2^31
  (`MerkleTree.BitsSpellIndex`).

Hypotheses: a hash of two field elements fits in 32 octets (`Service.FieldHash`); the clock
does not go back (`Gates`, `RateLimiter`); the relayer's key is used nowhere else, the
pending count is exact, and a write is accepted, if at all, before its promise settles
(`NonceQueue`, `PromiseQueue`; `NonceQueue.LateAcceptanceRepeatsNonce` shows that the last is
needed); a point that `pointFromHex` returns lies in the group, although the code only asks the
library to build it from its coordinates (`Threshold`). Random scalars, times, hash functions,
square roots, text readers and the verdicts of libraries are parameters. `Instances` exhibits a
small field, a small group, two small suites, a false share with an accepted proof, a race that
meets the hypotheses, and an output whose two halves matter; `Sets` and `Wrappers` are helpers.

Run `dafny verify dfyconfig.toml` to check everything.

## Model

| member | source | states |
|---|---|---|
| PrimeField.Inv | packages/web/src/lib/grumpkin.ts:92 | the inverse of a nonzero residue exists, lies in the field and multiplies back to 1; zero is excluded, as the library throws on it |
| PrimeField.NonSquareProduct | packages/web/src/lib/grumpkin.ts:98-103 | modulo every odd prime the product of two non-squares is a square, so ZETA g(x) has a root whenever g(x) has none; derived from primality alone by counting |
| SvdwMap.LoadConstants | packages/web/src/lib/grumpkin.ts:61-74 | the four module constants, reduced: c1 = -16, 2 c2 = -1, c3 the root of 48 that sqrt returns, 3 c4 = 64 modulo the prime |
| SvdwMap.KeyProduct | packages/web/src/lib/grumpkin.ts:89-106 | for every admissible u, (x3 - 1) (x1^2 + x1 + 1) = 16 in the field |
| SvdwMap.Factorisations | packages/web/src/lib/grumpkin.ts:95-106 | g(x1), g(x2), g(x3) factor through h = x1^2 + x1 + 1, x3 - 1 and the differences x3 - x1, x3 - x2 |
| SvdwMap.ThirdMinusOneIsSquare | packages/web/src/lib/grumpkin.ts:64-73 | x3 - 1 is a square, because c3^2 = 48 makes 3 a square |
| SvdwMap.CurveProduct | packages/web/src/lib/grumpkin.ts:95-106 | g(x3) h^2 = (x3 - 1) g(x1) g(x2) |
| SvdwMap.SomeCandidateIsSquare | packages/web/src/lib/grumpkin.ts:88-113 | for every admissible u at least one of g(x1), g(x2), g(x3) is a square |
| SvdwMap.TrailCandidates | packages/web/src/lib/grumpkin.ts:89-106 | the three values the code computes are the candidates of section 6.6.1 of RFC 9380 for Z = 1, with denominators cleared |
| SvdwMap.CandidateHint | packages/web/src/lib/grumpkin.ts:96-103 | w is the root that sqrt returns of g(x) when the flag is 1 and of ZETA g(x) when it is 0, and the flag says whether g(x) is a square |
| SvdwMap.NegatedRoot | packages/web/src/lib/grumpkin.ts:114-115 | the other square root lies in the field and has the other parity unless it is zero |
| SvdwMap.MapToCurve | packages/web/src/lib/grumpkin.ts:88-121 | fails exactly when (1 - c1 u^2)(1 + c1 u^2) is zero; otherwise x is the first of x1, x2, x3 that has a point, y^2 = x^3 - 17, y is the root that sqrt returns or, if its parity is not that of u, its negative, and every hint is correct: the inverse, both flags and roots, and the root before the sign is chosen |
| SvdwMap.ExceptionalInputs | packages/web/src/lib/grumpkin.ts:89-92 | modulo every prime above 3 the map fails exactly on the u with 4u = 1, 4u = -1 or 16 u^2 = -1, which a caller can test |
| SvdwMap.SomeInputIsExceptional | packages/web/src/lib/grumpkin.ts:89-92 | the inverse of 4 is such an input, so the map fails somewhere in every field |
| Lagrange.LagrangeCoeff | packages/web/src/lib/grumpkin.ts:322-331 | the product formula modulo the order; fails exactly when the product of differences is zero modulo the order |
| Lagrange.NumZero | packages/web/src/lib/grumpkin.ts:325-329 | the numerator is zero exactly when another index is zero modulo the order |
| Lagrange.DenZero | packages/web/src/lib/grumpkin.ts:325-330 | the denominator is zero exactly when another index is congruent to this one |
| Lagrange.Interpolates | packages/web/src/lib/grumpkin.ts:317-331 | for every list of distinct indices and every polynomial with at most as many coefficients, the weighted sum of its values is its value at 0 |
| Lagrange.SumOfCoeffs | packages/web/src/lib/grumpkin.ts:317-331 | the step of that induction: the coefficients of a longer list add up to 1 |
| Threshold.CombineThreshold | packages/web/src/lib/grumpkin.ts:336-351 | succeeds exactly on a nonempty list of indices that differ modulo the order and, when there are several, are nonzero; returns the sum of the coefficients times the shares; a repeated index and the empty list have errors of their own |
| Threshold.ReconstructsSecret | packages/web/src/lib/grumpkin.ts:333-351 | with shares f(i) M and at least as many of them as f has coefficients, the combination is f(0) M |
| Threshold.QuorumsAgree | packages/web/src/lib/grumpkin.ts:333-351 | any two large enough quorums combine to the same point |
| Threshold.TranscriptLayout | packages/web/src/lib/grumpkin.ts:304-313 | which coordinate each of the 13 hashed fields is, the epoch last |
| Threshold.HonestPartialAccepted | packages/web/src/lib/grumpkin.ts:286-315 | a proof over the 13 fields with the epoch last is accepted, except that a zero challenge or response makes the library throw; its challenge is a reduced field element |
| Threshold.VerdictIs | packages/web/src/lib/grumpkin.ts:294-315 | the verdict on every proof, written out: zero scalars throw; otherwise the 13 coordinates, in order, are hashed and compared modulo p |
| Threshold.AcceptanceBindsNoShare | packages/web/src/lib/grumpkin.ts:286-315 | acceptance does not show that B = k M for Kpub = k G: the challenge multiplies modulo the order and is compared modulo p, so for every key, M, share and epoch, and for any two nonzero residues, a proof with these residues modulo the order is accepted |
| Threshold.MultiplierIsHashed | packages/web/src/lib/grumpkin.ts:298-314 | the challenge that multiplies is the hashed one modulo the order exactly when the quotient of the given challenge by p is a multiple of the order |
| Threshold.InRangeAcceptance | packages/web/src/lib/grumpkin.ts:298-314 | for a challenge in [0, p), which a caller can test, a proof is accepted exactly when its challenge is the hashed one, and that quotient is 0 |
| Threshold.FalseShareNeedsOneChallenge | packages/web/src/lib/grumpkin.ts:286-315 | for challenges in [0, p) and a false share: at any commitments all values of the hash for which some proof is accepted are congruent modulo the order |
| Threshold.ReadPartialWhen | packages/web/src/lib/v3enroll.ts:220-225 | a partial is read exactly when its five texts are, each into its own field; otherwise the first unreadable text is the error |
| Threshold.TwoAnswersExtract | packages/web/src/lib/grumpkin.ts:300-303 | two answers to challenges that differ modulo the order, for the same commitments, determine one k with Kpub = k G and B = k M |
| Threshold.DecodePartials | packages/web/src/lib/v3enroll.ts:220-225 | the partials in order, or the error of the first text that cannot be read |
| Threshold.ReadPartialsAt | packages/web/src/lib/v3enroll.ts:220-225 | all partials are read exactly when each of them is, and each is read in its place |
| Threshold.VerifyPartials | packages/web/src/lib/v3enroll.ts:228-234 | reports no error exactly when the proof of every partial is accepted at the given epoch, and otherwise the error of the first that is not |
| Threshold.Sorted | packages/web/src/lib/v3enroll.ts:236-239 | the published keys, rearranged into ascending order of their indices |
| Threshold.SortedIsStable | packages/web/src/lib/v3enroll.ts:236-239 | keys with one index keep their order |
| Threshold.SortedAscends | packages/web/src/lib/v3enroll.ts:237-239 | readable indices ascend in the sorted list |
| Threshold.SortedKeys | packages/web/src/lib/v3enroll.ts:236-239 | succeeds exactly when the points decode and, when there are several keys, their indices do; returns the points in index order |
| Threshold.ReceivedWhen | packages/web/src/lib/v3enroll.ts:206-225 | an answer is read exactly when it is a body with at least two partials whose epoch and partials can be read; otherwise which error it gives |
| Threshold.WrittenIsReceived | packages/web/src/lib/v3enroll.ts:212-225 | for a reader that inverts a writer of numbers and points, any two or more partials and epoch that are written are received |
| Threshold.HonestAnswerPasses | packages/web/src/lib/v3enroll.ts:206-239 | the written answer of honest nodes with nonzero scalars is read back, passes every proof check, and its published keys can be sorted and decoded |
| Threshold.BlindEval | packages/web/src/lib/v3enroll.ts:206-244 | from the answer of the service on: an error status, too few partials or an unreadable text give that error; otherwise it succeeds exactly when every proof is accepted, the published keys can be sorted and decoded and the indices can be combined, and returns the partials, the epoch, the keys in index order and the combination |
| Threshold.UnblindingCancels | packages/web/src/lib/v3enroll.ts:325-333 | from k (r H) the derived commitment is that of k H, and it fails exactly when r is zero modulo the order |
| Threshold.EnrollIdentity | packages/web/src/lib/v3enroll.ts:206-333 | reading, checking, combining and unblinding together: over shares of f the commitment is that of f(0) H, whatever the blinding scalar and whichever quorum answered |
| Threshold.EnrollWithHonestNodes | packages/web/src/lib/v3enroll.ts:206-333 | nodes and client together: if at least two honest nodes, and as many as f has coefficients, answer with nonzero scalars and combinable indices, the client always derives the commitment of f(0) H |
| PrimeGroup.ExtractLogarithm | packages/web/src/lib/grumpkin.ts:302-303 | the algebra of special soundness: Y = ((z - z') / (c - c')) X |
| Voprf.SerializeScalar | packages/oprf/src/oprf.ts:58-67 | writes the 32 little-endian octets of the scalar reduced modulo the order, also for a negative scalar |
| Voprf.ReadLE | packages/oprf/src/oprf.ts:72-73 | the accumulating loop computes the little-endian value of octets of any number; the reader of the service key (app.ts) has the same loop |
| Voprf.DeserializeScalar | packages/oprf/src/oprf.ts:70-75 | reads 32 little-endian octets and reduces; any other length is an error |
| Voprf.ScalarRoundTrip | packages/oprf/src/oprf.ts:58-75 | a reduced scalar survives its encoding |
| Voprf.TranscriptLayout | packages/oprf/src/oprf.ts:166-173 | the 179 octets of the transcript of 32-octet elements, position by position |
| Voprf.TranscriptBinds | packages/oprf/src/oprf.ts:166-173 | the length-prefixed transcript determines all five elements in it |
| Voprf.HonestProofAccepted | packages/oprf/src/oprf.ts:132-215 | for every key, input and nonce the 64 octets are the challenge and the response, and they decode and verify, except that a zero challenge or response makes the library throw |
| Voprf.HonestChallengeIs | packages/oprf/src/oprf.ts:150-175 | what the prover hashes, in which order |
| Voprf.VerdictIs | packages/oprf/src/oprf.ts:183-214 | the verdict on every proof, written out: what is rejected, what throws, which points are combined and what is hashed in which order |
| Voprf.ProofIsSound | packages/oprf/src/oprf.ts:202-214 | two answers to different challenges for the same commitments determine one k with K = k G and Y = k M |
| Voprf.AcceptedProof | packages/oprf/src/oprf.ts:183-214 | an accepted proof has 64 octets, its inputs decode, and the challenge that it encodes modulo the order is the one hashed at its commitments |
| Voprf.FalseEvaluationNeedsOneChallenge | packages/oprf/src/oprf.ts:183-214 | for a false evaluation: at any commitments there is at most one value of the hash for which some proof is accepted |
| Voprf.BlindingRoundTrip | packages/oprf/src/oprf.ts:222-235 | the blinded input is the encoding of r H, its evaluation that of k (r H), and unblinding gives the encoding of k H, whatever the blinding scalar |
| Voprf.RefusedWhen | packages/oprf/src/oprf.ts:132-235 | blinding and evaluation succeed exactly for scalars in 1 .. order - 1 and decodable inputs, unblinding exactly for an invertible scalar and a decodable input |
| Bytes.ToLEOctet | packages/oprf/src/oprf.ts:58-67 | octet i of the encoding is the i-th digit to the base 256 |
| Bytes.LEConcat | packages/oprf/src/oprf.ts:70-75 | the little-endian value weighs later octets more |
| MerkleTree.ZeroHashes | packages/lotl-flattener/src/tree/merkle.ts:22-29 | entry l is the root of the empty tree of depth l |
| MerkleTree.BuildTree | packages/lotl-flattener/src/tree/merkle.ts:36-65 | layer l holds the nodes of the perfect tree over the padded leaves up to the last one that covers a leaf, the root is the root of the perfect tree, and both errors are as in the code |
| MerkleTree.RootOfHalves | packages/lotl-flattener/src/tree/merkle.ts:36-65 | the root over two halves is the hash of the left root and the right root, the root of height 0 is the leaf, missing leaves are zero |
| MerkleTree.LayerLenIsCeiling | packages/lotl-flattener/src/tree/merkle.ts:50-60 | layer l has ceil(n / 2^l) nodes |
| MerkleTree.ProveInclusion | packages/lotl-flattener/src/tree/merkle.ts:72-98 | the loop returns, per level, the stored sibling or the zero hash and the parity of the position, for any layers and any index |
| MerkleTree.ProofIsTruePath | packages/lotl-flattener/src/tree/merkle.ts:72-98 | for an index below 2^31 the returned path is the list of true siblings in the perfect tree and the bits are the digits of the index |
| MerkleTree.InclusionFolds | packages/lotl-flattener/src/tree/merkle.ts:72-98 | for every depth, every leaf list and every index below 2^depth and 2^31, the path folds the leaf (0 beyond the list) to the root |
| MerkleTree.BitsSpellIndex | packages/lotl-flattener/src/tree/merkle.ts:87-95 | the bits spell the index exactly when it is below 2^31: the shift is a 32-bit one |
| MerkleTree.WhatBitsSpell | packages/lotl-flattener/src/tree/merkle.ts:87-95 | what the bits spell for every index: its low 32 bits if they are below 2^31, else its lowest bit alone |
| MerkleTree.FindClash | packages/lotl-flattener/src/tree/merkle.ts:72-98 | from two different openings of one root along the same bits it computes two different pairs with the same hash |
| MerkleTree.OpeningIsUnique | packages/lotl-flattener/src/tree/merkle.ts:72-98 | if the hash is injective, whatever folds to the root along the digits of i is the padded leaf i with the true path |
| MerkleTree.RootDeterminesLeaves | packages/lotl-flattener/src/tree/merkle.ts:36-65 | if the hash is injective, two lists of nonzero leaves with the same root at one depth are equal |
| MerkleIndex.MerkleIndex.Rebuild | packages/oprf/src/merkle.ts:72-84 | the fields become those of the tree over the given leaves, also for the empty list; beyond 2^20 leaves nothing changes |
| MerkleIndex.MerkleIndex.FromLeaves | packages/oprf/src/merkle.ts:66-70 | a new index over the given leaves, or the overflow error |
| MerkleIndex.MerkleIndex.Append | packages/oprf/src/merkle.ts:93-115 | the new fields and the whole reply are those of the specification on the old fields; an overflow changes nothing |
| MerkleIndex.MerkleIndex.ProofAt | packages/oprf/src/merkle.ts:118-131 | the reply or the range error of the specification |
| MerkleIndex.AppendWitness | packages/oprf/src/merkle.ts:86-115 | one path folds the new leaf to newRoot and the zero leaf to oldRoot, and its bits spell the leaf index |
| MerkleIndex.InclusionWitness | packages/oprf/src/merkle.ts:117-131 | the path served for a stored leaf folds it to the root |
| MerkleIndex.RefusedWhen | packages/oprf/src/merkle.ts:93-131 | an append fails exactly on 2^20 leaves, an inclusion proof exactly for an index that is not that of a leaf, each with its own error |
| MerkleIndex.AppendsBuild | packages/oprf/src/merkle.ts:58-115 | after any run of appends the index is the one built from all leaves at once, as far as they fit; later appends change nothing |
| Store.EnrollmentStore.Insert | packages/oprf/src/db.ts:14-20 | the row is added exactly when both the commitment text and the leaf index are new; otherwise the table is unchanged |
| Store.EnrollmentStore.AllInOrder | packages/oprf/src/db.ts:92-100 | lists exactly the stored commitments by ascending leaf index |
| Store.OrderIsUnique | packages/oprf/src/db.ts:92-100 | there is only one such list |
| Store.EnrollmentStore.KvSet | packages/oprf/src/db.ts:121-128 | sets the one key |
| Store.EnrollmentStore.RecordP7sHashIfFresh | packages/oprf/src/db.ts:140-147 | true exactly for a new hash; a known hash keeps its time |
| Store.EnrollmentStore.IncrementBlindEvalCount | packages/oprf/src/db.ts:164-189 | counts up one row, or opens it with count 1 and the time of the call, and returns it |
| Store.EnrollmentStore.PruneReplayCache | packages/oprf/src/db.ts:150-155 | drops exactly the rows seen before the cutoff |
| Store.EnrollmentStore.PruneBlindEvalCounts | packages/oprf/src/db.ts:192-197 | drops exactly the rows first seen before the cutoff |
| HexText.Hex32 | packages/oprf/src/app.ts:452-459 | the text of a number below 2^256 passes the validator |
| HexText.ValidatorIs | packages/oprf/src/app.ts:44-46 | the validator, character by character |
| HexText.DigitTable | packages/oprf/src/app.ts:44-46 | the 22 digits and what each is worth |
| HexText.NumberConcat | packages/oprf/src/app.ts:452-463 | the digits on the left weigh more |
| HexText.BytesSpellValue | packages/oprf/src/app.ts:333-335 | the 32 octets decoded from a text, read big-endian, are the number of the text |
| HexText.HexRoundTrip | packages/oprf/src/app.ts:452-463 | reading a formatted number gives it back |
| HexText.SameValue | packages/oprf/src/app.ts:44-46 | two validated texts name one number exactly when they differ at most in case |
| Service.DriveAppends | packages/oprf/src/app.ts:320-394 | run without interruption, the stretches of the handler between its awaits add up to one call of append followed by insert, signature and stamp |
| Service.DerivedIs | packages/oprf/src/app.ts:333-336 | the derived leaf is the hash of the upper and the lower 128 bits of the output, in this order |
| Service.AdmissibleWhen | packages/oprf/src/app.ts:320-350 | the two checks of the body pass exactly when its three texts validate and the commitment is that hash |
| Service.RegisterKeeps | packages/oprf/src/app.ts:320-411 | in a consistent world a registration enrolls the commitment exactly when the body validates, the commitment is the hash of the two halves of the output, its text is new and there is room; then it adds one row, one signature and the stamp, keeps the world consistent and returns one path for the old and the new root; otherwise nothing changes, and the answer tells which check failed. The failed insert is never what answers |
| Service.UpdatesChain | packages/oprf/src/app.ts:380-387 | each signed update starts at the root where the one before it ended, the first at the empty root, and the last ends at the current root |
| Service.PathFoldsToRoot | packages/oprf/src/app.ts:413-438 | every enrolled commitment is served a path whose texts fold its number to the stamped root; every other request is refused |
| Service.RebootIsIdentity | packages/oprf/src/app.ts:95-107 | a restart lists the commitments in order of enrollment, rebuilds the same tree and stamps the same root |
| Service.StopAfterInsert | packages/oprf/src/app.ts:357-387 | a stop between insert and signature leaves a row that the next start puts into the tree and stamps, without a signature: the invariant is lost |
| Service.FirstBoot | packages/oprf/src/app.ts:95-107 | a start on an empty table is consistent |
| Service.ActKeeps | packages/oprf/src/app.ts:95-438 | every registration, path request or restart keeps the invariant |
| Service.EveryRunKeeps | packages/oprf/src/app.ts:95-438 | after every run of serialised handlers and restarts from an empty table: rows in leaf order are the leaves of the tree, indices are dense, current_root is the root, signed updates chain |
| Service.EqualLeaves | packages/oprf/src/app.ts:344-355 | two enrolled commitments are equal leaves exactly when their texts differ only in case |
| Service.CanonicalLeavesDiffer | packages/oprf/src/app.ts:344-355 | if the texts are in lower case, no number is enrolled twice |
| Service.OtherCasingEnrollsAgain | packages/oprf/src/app.ts:344-369 | any other casing of a commitment is enrolled a second time, as an equal leaf |
| Service.EnrollmentService.Start | packages/oprf/src/app.ts:95-107 | the start of the service refines Boot: it succeeds exactly when the stored leaves fit, and then has that state |
| Service.EnrollmentService.Register | packages/oprf/src/app.ts:320-411 | the handler as a method on the store and the index: new state and reply are those of the uninterrupted handler on the old state, in every branch |
| Service.EnrollmentService.Path | packages/oprf/src/app.ts:413-438 | the reply of the specification, in every branch |
| Overlap.TurnTicks | packages/oprf/src/app.ts:320-394 | from any time on, one stretch of either of two overlapping registrations moves the world as the clock of the race says: leaves, table, signatures, stamp and what both handlers have captured |
| Overlap.OverlapOutcome | packages/oprf/src/merkle.ts:93-115 | for every schedule of two overlapping registrations, from before either begins until both have answered: both answers, who is in the table, and the exact condition on the schedule under which the invariant survives, also for equal texts, equal numbers, room for one leaf only and roots that coincide |
| Overlap.OverlapPlainly | packages/oprf/src/merkle.ts:93-115 | for different numbers, room for two and roots that differ: if both copied the leaves before either assigned the tree, the invariant survives exactly when the last to assign is the first to be enrolled; otherwise exactly when the one that was ahead read its root before the other assigned and is enrolled first. Both are enrolled exactly when they read different leaf indices |
| Crowd.EveryScheduleRecords | packages/oprf/src/app.ts:320-394 | for any number of overlapping registrations and every schedule: table, stamp and signatures are what the accepted replies say, in their order; each accepted reply has one row, with a text and a leaf index of its own, and one signature; nothing else has either |
| Crowd.CalmSchedulesKeep | packages/oprf/src/merkle.ts:93-115 | for any number of registrations: if each assigns the tree only while no other is between its copy of the leaves and its insert, and only if its text is still new, then, once none is between assignment and insert, the world is consistent with the old commitments followed by the accepted ones in order |
| Crowd.ApartSchedulesKeep | packages/oprf/src/merkle.ts:93-115 | for different texts the first of these conditions is enough for the invariant |
| Crowd.PairIsCrowd | packages/oprf/src/app.ts:320-394 | the race of two registrations is the case of two requests |
| Overlap.RefusedLeafStays | packages/oprf/src/app.ts:357-369 | a schedule that leaves the leaf of the refused registration in the tree in place of the enrolled one |
| Overlap.ChainOutOfOrder | packages/oprf/src/app.ts:357-387 | a schedule on which both registrations are accepted and their signed updates do not chain |
| Overlap.OvertakenPath | packages/oprf/src/merkle.ts:118-131 | a path request that is overtaken between its two stretches is served the path of the old tree with the root of the new one, and the path folds to that root exactly when both roots are one |
| Overlap.PathOvertakenByRegistration | packages/oprf/src/app.ts:413-438 | if a whole registration runs in between, the served root is the stamped one and the served path folds to it exactly when the two roots coincide |
| Gates.PassGates | packages/oprf/src/app.ts:257-288 | the two gates: new tables and verdict are those of the step function on the old tables |
| Gates.CleanUp | packages/oprf/src/app.ts:117-127 | the timer prunes both tables by one cutoff |
| Gates.VerdictIs | packages/oprf/src/app.ts:257-288 | the verdict on every request from the tables before it; with the counter off every new envelope is admitted |
| Gates.CacheMeaning | packages/oprf/src/app.ts:117-127 | over every history: an envelope is in the cache exactly when a request with it has passed and no cleanup since was more than the TTL later |
| Gates.PassesAgain | packages/oprf/src/app.ts:117-127 | after such a cleanup the envelope passes the replay check again |
| Gates.RowMeaning | packages/oprf/src/app.ts:117-127 | over every history: a subject has a row exactly when one was opened and not pruned since; it counts every request from then on, throttled ones too, and keeps the time at which it was opened |
| Gates.ReplaysAreSpaced | packages/oprf/src/app.ts:250-267 | two requests that pass the replay check with one envelope are more than the TTL apart, however the cleanups fall |
| Gates.RowAdmitsAtMostCap | packages/oprf/src/app.ts:269-288 | a counter row admits at most cap evaluations |
| Gates.WindowBound | packages/oprf/src/app.ts:117-132 | any closed window of TTL seconds holds at most 2 cap - 1 evaluations for one subject |
| Gates.WindowBoundIsReached | packages/oprf/src/app.ts:117-132 | for every cap of at least 1 and every TTL some history has 2 cap - 1 evaluations in one window |
| BlindEval.Handle | packages/oprf/src/app.ts:161-316 | the handler: new tables and answer are those of the specification on the old tables, in every branch; an attestation error answers with its code, any other exception is rethrown |
| BlindEval.EvaluatedVerifies | packages/oprf/src/app.ts:290-316 | when the evaluation is the one of the OPRF module, an evaluated reply holds k times the input and a proof that the client's check accepts, except that a zero challenge or response makes the library throw |
| BlindEval.AnswerIs | packages/oprf/src/app.ts:161-316 | the answer to every call from the tables before it, in the order of the checks |
| BlindEval.TablesAre | packages/oprf/src/app.ts:250-288 | what every call leaves of the tables: a new envelope is recorded and counted even if the call is then throttled or not evaluated, the timer prunes, nothing else changes them |
| BlindEval.EvaluatedExactly | packages/oprf/src/app.ts:161-316 | a call is evaluated exactly when it is well-formed and attested, the gate is off, the certificate has no date of birth or the threshold birthday has come, its envelope is not cached, its subject is below the cap or the cap is off, and its input evaluates |
| BlindEval.TooYoungExactly | packages/oprf/src/app.ts:221-248 | a call is refused for age exactly when it is well-formed and attested, the gate is on, and the certificate has a date of birth whose threshold birthday is still to come |
| BlindEval.RunIsHistory | packages/oprf/src/app.ts:161-316 | the tables after any run of calls are those of the history that the gates see |
| BlindEval.EvaluatedAreOfAge | packages/oprf/src/app.ts:221-248 | nobody is evaluated before the threshold birthday, unless the certificate has no date of birth or the gate is off |
| BlindEval.RefusalsLeaveNoTrace | packages/oprf/src/app.ts:161-267 | a request refused for form, attestation or age, one that crashes in the attestation, and a replayed one change no table |
| BlindEval.OneEvaluationPerEnvelope | packages/oprf/src/app.ts:250-267 | two evaluations with one envelope are more than the TTL apart |
| BlindEval.EvaluationsPerWindow | packages/oprf/src/app.ts:269-288 | any closed window of TTL seconds grants one subject at most 2 cap - 1 evaluations |
| NonceQueue.StepInv | packages/relayer/src/chain.ts:60-97 | if sends run in order, every event, including a write that fails after being accepted, keeps the invariant |
| NonceQueue.NonceSafety | packages/relayer/src/chain.ts:60-97 | if sends run in order, then after every interleaving: one run at a time, accepted nonces without gap or repeat and from different runs, every reported success among them, a cached nonce equal to the number of accepted transactions |
| NonceQueue.OutcomeIs | packages/relayer/src/chain.ts:72-87 | after every run of events a run has succeeded exactly when its write has resolved, and failed exactly when its write or its count has failed |
| NonceQueue.StartsWith | packages/relayer/src/chain.ts:65-71 | a run that starts with a cached nonce writes with it, one that starts without reads the count |
| NonceQueue.CachedAfterSuccess | packages/relayer/src/chain.ts:80-81 | after a write with nonce n has resolved, and until the next write settles, n + 1 is cached and a run that starts writes with it without reading a count |
| NonceQueue.ForgottenAfterFailure | packages/relayer/src/chain.ts:82-87 | after a write has failed, and until a count is read, no nonce is cached and nothing is written |
| NonceQueue.LateAcceptanceRepeatsNonce | packages/relayer/src/chain.ts:65-87 | from every state of rest without a cached nonce: a write reported failed and accepted only later leads to two transactions with one nonce |
| PromiseQueue.Sender.SendTx | packages/relayer/src/chain.ts:63-97 | a send makes its result promise, hung on the queue with the run as both callbacks, and the next queue promise, hung on the result with both callbacks |
| PromiseQueue.Sender.CallBack | packages/relayer/src/chain.ts:64-71 | a settled promise calls one of its two callbacks: a run uses the cached nonce or asks the chain, a tail is fulfilled |
| PromiseQueue.Sender.CountArrives | packages/relayer/src/chain.ts:65-71 | the pending count is cached and used, or its failure rejects the result and leaves no nonce |
| PromiseQueue.Sender.WriteSettles | packages/relayer/src/chain.ts:72-87 | success caches the next nonce and fulfils the result, failure forgets the nonce and rejects it |
| PromiseQueue.QueueNeverRejects | packages/relayer/src/chain.ts:91-95 | no promise that queue ever holds is rejected, and one that is fulfilled means that the run before it has settled, either way |
| PromiseQueue.StartsInTurn | packages/relayer/src/chain.ts:89-95 | the callback of a run fires only in its turn, after the run before it has settled, either way |
| PromiseQueue.StepRefines | packages/relayer/src/chain.ts:60-97 | every event of the promises keeps the chain linked and is an event of the ordered specification, or none |
| PromiseQueue.QueueIsSafe | packages/relayer/src/chain.ts:60-97 | hence nonce safety and the order of sends after every interleaving of sends, callbacks, chain answers and errors |
| PromiseQueue.ResultIs | packages/relayer/src/chain.ts:63-97 | after every run of events the promise that sendTx returned is fulfilled exactly when the write has resolved, and rejected exactly when the write or the count has failed |
| PromiseQueue.NeverBlocked | packages/relayer/src/chain.ts:89-95 | while some run has not settled, the oldest such run or the callback it waits for can move, whatever happened to earlier ones |
| PromiseQueue.QuietMeansSettled | packages/relayer/src/chain.ts:89-95 | nothing can happen without a new send exactly when all sends have settled and all callbacks were called |
| PromiseQueue.WorkShrinks | packages/relayer/src/chain.ts:63-97 | every event other than a new send lowers the remaining work |
| PromiseQueue.QuietsDown | packages/relayer/src/chain.ts:63-97 | without new sends the number of further events is bounded by that work |
| RateLimiter.Limiter.Take | packages/relayer/src/rateLimit.ts:11-24 | answer and new table are those of the specification on the old table |
| RateLimiter.Limiter.Prune | packages/relayer/src/rateLimit.ts:19-21 | deleting in any order leaves exactly the entries not older than the cutoff |
| RateLimiter.PruningIsInvisible | packages/relayer/src/rateLimit.ts:8-26 | on every run with a clock that does not go back, for any window, the answers are those of a limiter that never deletes |
| RateLimiter.AcceptedExactly | packages/relayer/src/rateLimit.ts:11-26 | a call is accepted exactly when no earlier accepted call from its address is less than a window before it |
| RateLimiter.AcceptedAreSpaced | packages/relayer/src/rateLimit.ts:11-14 | two accepted calls from one address are at least a window apart |
| Der.ReadDerLength | packages/sdk/src/asn1.ts:9-33 | the loop reads the length of the specification, with the same errors and 32-bit shifts |
| Der.ReadElement | packages/lotl-flattener/src/fetch/p7b.ts:44-83 | the element of the specification, with the same errors |
| Der.LengthErrors | packages/lotl-flattener/src/fetch/p7b.ts:50-75 | a length field is refused exactly when the input ends within it, or when it is 0x80 or has more than four octets, each with its own error |
| Der.ElementErrors | packages/lotl-flattener/src/fetch/p7b.ts:45-82 | an element is refused exactly past the end, for its length field, or when its declared length is below 2^31 and reaches past the end |
| Der.LengthMeaning | packages/lotl-flattener/src/fetch/p7b.ts:67-75 | the number read is the declared length below 2^31, and 2^32 less from there on |
| Der.AdvancesWhen | packages/lotl-flattener/src/fetch/p7b.ts:77-82 | an element ends behind its start exactly when the declared length is below 2^31 or within five of 2^32, and behind its header exactly when it is below 2^31 |
| Der.ReadEncoded | packages/lotl-flattener/src/fetch/p7b.ts:44-83 | an element encoded with the shortest length (sections 8.1.3 and 10.1 of X.690) is read back with its tag and bounds, wherever it stands |
| P7b.CollectCertificates | packages/lotl-flattener/src/fetch/p7b.ts:153-165 | the loop collects what the specification of the walk says, in every terminating case |
| P7b.ParseP7b | packages/lotl-flattener/src/fetch/p7b.ts:99-166 | for every input on which the loop ends, the result or the error of the specification |
| P7b.SignedDataWhen | packages/lotl-flattener/src/fetch/p7b.ts:100-125 | where the SignedData is, and otherwise which error the first fault gives |
| P7b.LocateWhen | packages/lotl-flattener/src/fetch/p7b.ts:127-151 | where the certificates field is, when there is none, and otherwise which error the first fault gives |
| P7b.RefusedWhen | packages/lotl-flattener/src/fetch/p7b.ts:99-151 | a bundle with such a fault is refused with its error, one without the field has no certificates |
| P7b.ShortLengthsAdvance | packages/lotl-flattener/src/fetch/p7b.ts:153-165 | lengths below 2^31 make every step advance by at least two octets |
| P7b.AdvancesExactly | packages/lotl-flattener/src/fetch/p7b.ts:153-165 | a walk advances at every step exactly when every element met declares a length below 2^31 or within five of 2^32 |
| P7b.EndsInTimeOrNever | packages/lotl-flattener/src/fetch/p7b.ts:155-164 | the loop ends at all exactly when it has ended within |der| + 1 steps |
| P7b.WalkableParses | packages/lotl-flattener/src/fetch/p7b.ts:153-165 | a walk that advances ends and returns the slices of the elements with tag 0x30 |
| P7b.WalkCanBeEndless | packages/lotl-flattener/src/fetch/p7b.ts:68-75 | a concrete bundle with a four-octet length whose top bit is set, on which the loop stands still for ever |
| P7b.WalkCanStepBack | packages/lotl-flattener/src/fetch/p7b.ts:68-75 | a concrete bundle on which the walk steps back and ends, with an empty result and one that overlaps the fields before the certificates |
| P7b.CollectedAreRead | packages/lotl-flattener/src/fetch/p7b.ts:153-165 | on every walk that ends each result is a tag-0x30 element that was read from the input |
| P7b.SliceIs | packages/lotl-flattener/src/fetch/p7b.ts:158-161 | the octets of each result, also of one that ends before it starts or before the input |
| P7b.ProperWhen | packages/lotl-flattener/src/fetch/p7b.ts:153-165 | such a result is a nonempty part of the input that ends behind its start exactly when its declared length is below 2^31 or within five of 2^32 |
| P7b.SpansAreElements | packages/lotl-flattener/src/fetch/p7b.ts:153-165 | the results are ascending, disjoint, tag-0x30 elements inside the input, complete when their declared length is below 2^31 |
| P7b.ShortLengthsParse | packages/lotl-flattener/src/fetch/p7b.ts:99-166 | if the certificates field, when there is one, holds lengths below 2^31 only, the parse ends, and a result is the list of slices of ascending, disjoint, complete tag-0x30 elements of the input |
| P7b.ParseInvertsEncode | packages/lotl-flattener/src/fetch/p7b.ts:99-166 | any list of elements encoded into the certificates field of a SignedData (section 5.1 of RFC 5652) is parsed to exactly its SEQUENCEs, octet for octet and in order |
| P7b.NoFieldNoCertificates | packages/lotl-flattener/src/fetch/p7b.ts:148-151 | without a certificates field the result is empty |
| Packing.PackBE | packages/lotl-flattener/src/ca/spkiCommit.ts:47-53 | the big-endian value |
| Bytes.BEConcat | packages/lotl-flattener/src/ca/spkiCommit.ts:47-53 | the big-endian value weighs earlier octets more |
| Packing.SpkiFields | packages/lotl-flattener/src/ca/spkiCommit.ts:55-76 | the 34 fields are the values of the chunks of the padded key, with both length errors |
| Packing.FieldIs | packages/lotl-flattener/src/ca/spkiCommit.ts:55-76 | which octets of the key each field spells, in which order, and zeros beyond its end |
| Packing.FieldsAreSmall | packages/lotl-flattener/src/ca/spkiCommit.ts:46-76 | every field is below 2^248 |
| Packing.UnpackInverts | packages/lotl-flattener/src/ca/spkiCommit.ts:65-76 | unpacking the first k fields gives exactly the octets they cover; all 34 give all 1024 |
| Packing.SameFieldsIff | packages/lotl-flattener/src/ca/spkiCommit.ts:65-76 | two keys get the same fields exactly when one is the other with zero octets appended |
| Packing.KeysDetermined | packages/lotl-flattener/src/ca/spkiCommit.ts:55-76 | two keys that are each exactly one DER element and get the same fields are equal |
| Packing.SplitOprfOutput | packages/oprf/src/pedersen.ts:35-46 | the two 128-bit limbs, or the length error |
| Packing.LimbsMeaning | packages/oprf/src/pedersen.ts:35-46 | hi 2^128 + lo is the big-endian value and both limbs are below 2^128 |
| Packing.LimbsInjective | packages/oprf/src/pedersen.ts:35-46 | equal limbs come from equal outputs |
| Calendar.DateIsUnique | packages/oprf/src/dob.ts:114-122 | a real Gregorian date is read back from its day number |
| Calendar.OverflowIsNextMonth | packages/oprf/src/dob.ts:112-122 | a day beyond the end of its month is read back as a day of the next month |
| Calendar.ParsesRealDates | packages/oprf/src/dob.ts:103-124 | the parser accepts exactly the texts that begin with eight digits naming a real Gregorian date of 1900 to 2100, and returns that date |
| Calendar.ParsesWritten | packages/oprf/src/dob.ts:103-124 | a text is parsed to a date exactly when the date is real, of 1900 to 2100, and the text starts with the four decimal digits of its year, two of its month and two of its day |
| Calendar.LeapYears | packages/oprf/src/dob.ts:112-122 | in that range every fourth year is a leap year, except 1900 and 2100 |
| Calendar.NextDay | packages/oprf/src/dob.ts:112-122 | day numbers are consecutive over months and years, from 1970-01-01 as day 0 |
| Calendar.AgeInYears | packages/oprf/src/dob.ts:135-142 | the method computes the age of the specification |
| Calendar.NotAfterIsDayOrder | packages/oprf/src/dob.ts:135-142 | comparing year, month and day compares the days |
| Calendar.AgeIsLastBirthday | packages/oprf/src/dob.ts:126-142 | the age is the largest n whose n-th birthday is not in the future, and 0 if there is none |
| Calendar.AgeIsMonotone | packages/oprf/src/dob.ts:126-142 | the age does not fall when the day advances |

## Left out

- P7b.ParseP7b: requires that the loop ends, because Dafny methods must; on the inputs excluded by this the code does not return. `P7b.EndsInTimeOrNever` makes the condition decidable and `P7b.WalkCanBeEndless` shows that it is needed.
- P7b.SpansAreElements: is stated for walks that advance; on the others its claims can fail (`P7b.WalkCanStepBack`) and `P7b.CollectedAreRead` says what remains.
- MerkleTree.InclusionFolds: requires an index below 2^31, which the 32-bit shift needs; `MerkleTree.WhatBitsSpell` says what happens from there on.
- MerkleTree.RootDeterminesLeaves: assumes an injective hash, which no compressing hash is; `MerkleTree.FindClash` is the form without the assumption.
- Overlap.OverlapOutcome: two overlapping registrations, each of which alone would be accepted.
- Crowd.CalmSchedulesKeep: a sufficient condition; the exact one is proved for two registrations only.
- Service.RegisterKeeps: assumes that handlers do not overlap (see `Overlap`, `Crowd`) and that the process does not stop in the middle of one (see `Service.StopAfterInsert`).
- BlindEval.Handle: the verdicts of the attestation libraries and the evaluation are parameters of a call; `BlindEval.EvaluatedVerifies` puts `Voprf.BlindEvaluate` in.
- Threshold.BlindEval: the request that is sent, and a body that is not JSON or lacks fields, are not modelled.
- PromiseQueue.Sender.SendTx: a run and the result promise that adopted its promise settle in one event; the microtasks in between are not modelled.
- Voprf.ProofIsSound: special soundness only; zero knowledge and the random-oracle argument are not modelled.
- The `dleqProve` helper of grumpkin.ts, which hashes 12 fields: it is no counterpart of the 13-field check.
- `expandXmd`, `hashToField2`, `hashToCurve`, `scalarLimbs`: hashing and limb splitting around the map.
- The witness objects of v3enroll.ts: plumbing into the circuits.
- The octet locators of p7sWitness.ts and p7s.ts, and `indexOf` of asn1.ts: linear searches, easier than the walk that is modelled.
- Attestation checks, certificate selection and the extraction of the date-of-birth attribute: library objects; they enter as parameters.
- The signature and digest of a root update: the update is recorded as the three numbers signed.
- The rows `oprf_pubkey` and `attester_addr` of the key-value table, and the health route: written once or read-only.
- The registration fields chainId, enrollmentRegistry and attesterSig of the reply: copied from the configuration or the signer.
- Elliptic-curve arithmetic, Pedersen, SHA-2, ECDSA, SQLite, Fastify, viem, circuits, contracts, the web pages and the trust-list parsers.
