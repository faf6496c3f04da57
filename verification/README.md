# ZeroAudit: a verified model

ZeroAudit commits to every transaction amount with a lattice commitment, links the
commitments into a signed hash chain, and publishes them to an external verifier.
This project models that path in Dafny and proves what it promises. `dafny verify
dfyconfig.toml` checks everything.

The model keeps the branches, edge cases, error results and constants of the code.
Ring degree, module rank, modulus, ring size, buffer size, window length and limits are
parameters, so the theorems hold for every value; `LweCommit.ZEROAUDIT` and
`Authorship.Deployed` are the deployed instances. The store, the verifier, the report
table, the ring buffer, the velocity tracker and the durable ledger are classes whose
methods are proved against state-transition functions, and the theorems are about whole
runs of those functions.

## What is proved

**Lattice commitment** (`Sums`, `Modular`, `Negacyclic`, `PolyRing`, `RingArithmetic`,
`ModuleLwe`, `Samplers`, `Packing`, `Encoding`, `LweCommit`, `CommitReadings`). Vectors of n residues form a
commutative ring with X^n = -1. The nested loops and the convolution-and-fold compute the
same product for all inputs, and the convolution stays inside 64-bit integers, even for a
public key of arbitrary 16-bit words. Subtracting `<s, u>` from a published `v` leaves the
encoded amount plus a residual of size at most 2kn*eta^2 + eta. For the deployed parameters
that bound is 4098, above q, so the identity does not promise that the key holder can decode
an amount, and no such claim is made. A key published as bytes comes back exactly when its
seed has the published length, and a commitment opens for the committed amount and for no
other integer at that blinding seed. `CommitReadings` says which nonce every polynomial is read
from, that no two share an input, and what every published word amounts to.
`Authorship.DisclosureEndToEnd` carries this through record, signature, verifier and auditor.

**Hash chain** (`Decimal`, `Records`, `Sorting`, `ChainWalk`, `HonestRuns`). Hashes are
uninterpreted total functions into 64-character strings; a result that needs more names the
two colliding pre-images, or the record that hashes to the starting head.

**Online verifier** (`Verifier`, `VerifierCounts`, `VerifierNode`, `Buffers`, `Authorship`). When a
record is verified, in terms of its fields; what every counter counts; what every stream keeps, honest
or not, and which deliveries of an honest ledger pass.

**Ledger** (`Store`, `RingRuns`, `Restart`, `DayLedger`, `DurableWalk`). What the hot ring, the
status counters, the durable head and the durable rows hold after any run, and exactly which
interruptions separate them.

**Transport** (`Forks`, `Pipeline`, `AnomalyTopic`). Prover, its durable tier, FIFO partitions and verifier as one
machine whose steps interleave in any order, with failing saves and loads and restarts of the prover
between any two of them. A ledger written across restarts is a tree, and the two chain checks are
characterised on trees.

**Scores** (`RocAuc`, `Velocity`). The rank algorithm equals counting all pairs; the trimmed
deques count the window exactly at the latest time so far, and otherwise exactly under a stated
condition on the arrival order.

## Where the code and its own words differ

The model follows the code. Six remarks of the repository do not hold as they stand.

- Pruning "bounds memory" in the velocity tracker (verifier/anomaly_detector.py:228-231): only
  accounts with an empty deque are dropped, and no stored deque is ever empty
  (`Velocity.SeenAccountsHaveEvents`, `Velocity.VelocityTracker.Prune`).
- The trailing hour is counted from event time, so replays are not undercounted
  (verifier/anomaly_detector.py:234-239): eviction follows arrival order, and the count falls short
  exactly when an event already gone from the deque lies in the window asked about
  (`Velocity.CountExactIff`, `Velocity.LateEventUndercounts`; `Velocity.LateEventExample` has numbers).
- A chain hash seals the whole record (prover/crypto/commitment.py:49-57): its parts are joined
  without a separator and no width is checked, so characters can move between binding hash and id of
  every record, and digits between id and timestamp of every record whose timestamp is ten or more
  (`Records.BoundaryMoveUndetected`, `Records.DigitShiftUndetected`); either way an intact chain stays
  intact (`ChainWalk.BoundaryMoveInChain`, `ChainWalk.EditUndetected`). Behind one predecessor only a
  record with empty binding hash and id has a single reading (`Records.SingleBody`); at a fixed
  binding hash, `Records.SingleReading` and `Records.SingleSignedReading` say exactly which do. What
  the head does fix is `ChainWalk.TamperEvidence`. The binding check excludes the first move
  (`Authorship.CheckedChainsAgree`); timestamps of equal width, or equal signing payloads, the second
  (`Records.EqualWidthSplit`, `ChainWalk.SignedLinksAgree`).
- Distinct field splits cannot share a signing payload (prover/crypto/signature.py:60-61): true
  exactly for records whose id and binding hash contain no separator byte
  (`Records.PayloadReadsOnce`). The other four checks make up for it
  (`Authorship.VerifiedIsAuthentic`).
- A repeated write is "idempotent on txn_id" (prover/cassandra_store.py:279): the partition table is
  keyed by timestamp too, so a second write of a transaction replaces the first exactly when both
  carry one timestamp (`DayLedger.RewriteReplaces`, `DayLedger.WriteIdempotentIff`). In the hot ring a
  redelivered transaction gets a new number in an old place, and the walk over the ring stays clean
  exactly when it was the oldest record there (`RingRuns.RedeliveryBreaksWalk`).
- The two chain checks agree (prover/crypto/commitment.py:327-367, verifier/verify.py:164-183): a
  first record without `prev_chain_hash` passes online and breaks the walk
  (`Verifier.OnlineAgreesWithWalk`, `Verifier.MissingPredecessorDisagrees`).

## Model

| member | source | states |
|---|---|---|
| Negacyclic.ExtMul | prover/crypto/lwe.py:93-106 | The product of two vectors, continued to every exponent with a sign change per degree n, is the coefficient sum at that exponent |
| PolyRing.AdditiveGroup | prover/crypto/lwe.py:89-90 | Canonical vectors form an abelian group under coefficientwise addition modulo q |
| PolyRing.MulCommutative | prover/crypto/lwe.py:93-106 | The negacyclic product is commutative for any integer coefficients |
| PolyRing.MulAssociative | prover/crypto/lwe.py:93-106 | The negacyclic product is associative |
| PolyRing.MulDistributive | prover/crypto/lwe.py:89-106 | The product distributes over the addition |
| PolyRing.MulUnit | prover/crypto/lwe.py:93-106 | The constant 1 is a two-sided unit on canonical vectors |
| PolyRing.PowerOfX | prover/crypto/lwe.py:93-106 | X^e for e < n is the monomial itself |
| PolyRing.XToTheNIsMinusOne | prover/crypto/lwe.py:93-106 | X^n reduces to -1 |
| RingArithmetic.SchoolbookIsMul | prover/crypto/lwe.py:93-106 | The loop states, skipped zero coefficients and stepwise reductions included, end in the ring product |
| RingArithmetic.PolyMulSchoolbook | prover/crypto/lwe.py:93-106 | The nested loops over the result vector return the ring product |
| RingArithmetic.FoldIdentity | prover/crypto/lwe.py:109-124 | Coefficient k of the product is conv[k] - conv[k + n], and nothing folds onto the last one |
| RingArithmetic.PolyMulNumpy | prover/crypto/lwe.py:109-124 | Convolve, fold and reduce once: the same product as the nested loops for all inputs |
| RingArithmetic.ConvolutionBound | prover/crypto/lwe.py:109-124 | Every partial sum and folded difference is at most n * alpha * beta in size |
| RingArithmetic.PolyMul | prover/crypto/lwe.py:127-128 | The result does not depend on the backend |
| RingArithmetic.InnerProduct | prover/crypto/lwe.py:142-147 | The accumulator loop returns the inner product over R_q |
| RingArithmetic.ModuleMulAdd | prover/crypto/lwe.py:131-139 | The double loop returns A.s + e over R_q^k |
| ModuleLwe.Adjoint | prover/crypto/lwe.py:131-147 | Over the integers, A.s against r equals s against the transpose of A times r, in every coefficient |
| ModuleLwe.Cancellation | prover/crypto/lwe.py:288-304 | Over the integers the two terms that contain A cancel |
| ModuleLwe.ModuleLweIdentityZ | prover/crypto/lwe.py:288-304 | v - s.u is congruent to the message plus e.r + e2 - s.e1 |
| ModuleLwe.ModuleLweIdentity | prover/crypto/lwe.py:288-304 | The same identity as an equality in R_q |
| ModuleLwe.ResidualBounded | prover/crypto/lwe.py:152-170 | With noise of size eta the residual lifts to integers of size at most 2kn*eta^2 + eta |
| Samplers.Cbd | prover/crypto/lwe.py:152-170 | The nibble loop returns the noise polynomial of the seed and nonce: exactly n canonical residues, whose bits and inputs CommitReadings spells out |
| Samplers.CbdSmall | prover/crypto/lwe.py:155-159 | The residues stand for integers of [-2, 2] |
| Samplers.SampleUniform | prover/crypto/lwe.py:183-191 | Rejection sampling returns the first n candidates below q, padded with zeros only if the buffer ran out |
| Samplers.GenMatrixA | prover/crypto/lwe.py:173-193 | The matrix of a seed: k by k polynomials of n canonical residues |
| Packing.PackUnpack | prover/crypto/lwe.py:211-214 | Little-endian 16-bit packing and unpacking are inverse in both directions |
| Packing.CutFlat | prover/crypto/lwe.py:239-246 | Cutting the flattened vector gives back its polynomials |
| Encoding.EncodeAmount | prover/crypto/lwe.py:260-278 | Succeeds exactly on 0 <= m < 2^bits and puts floor(q/2) at the positions of the set bits |
| Encoding.BitIsShift | prover/crypto/lwe.py:276 | Shifting and masking is the recursive binary digit |
| Encoding.DecodeEncode | prover/crypto/lwe.py:260-278 | Reading the nonzero positions as binary digits gives the amount back |
| Encoding.EncodeInjective | prover/crypto/lwe.py:263-266 | Distinct amounts have distinct encodings |
| Encoding.ErrorsCannotBridge | prover/crypto/lwe.py:263-266 | No two errors of size eta make the encodings of distinct amounts congruent |
| LweCommit.SampleVector | prover/crypto/lwe.py:207-208 | k noise polynomials with consecutive nonces |
| LweCommit.Generate | prover/crypto/lwe.py:205-209 | Key generation is the function of the seed that the theorems speak about |
| LweCommit.PublishedKeyRoundTrip | prover/crypto/lwe.py:211-246 | The published bytes parse exactly when the seed has the published length, and then give back seed, A and t |
| LweCommit.CommitCore | prover/crypto/lwe.py:288-304 | Fails exactly outside the amount domain; otherwise u and v as 16-bit words |
| LweCommit.OpenCommitment | prover/crypto/lwe.py:328-349 | True exactly when both inputs decode, the amount is in the domain and the recomputed bytes match |
| LweCommit.BlobParses | prover/crypto/lwe.py:303-304 | The published bytes contain exactly u and v |
| LweCommit.KernelIdentity | prover/crypto/lwe.py:288-304 | For every key seed, blinding seed and amount: published v minus s.u is the encoded amount plus a bounded residual, modulo q |
| LweCommit.FixedSeedBinding | prover/crypto/lwe.py:288-304 | At one blinding seed two commitments are equal exactly when their amounts are, for every matrix and vector t |
| LweCommit.OpeningExact | prover/crypto/lwe.py:328-349 | With only the published key bytes, a commitment opens for the committed amount and for no other integer |
| LweCommit.BindingHashBinds | prover/crypto/lwe.py:322 | At one blinding seed two binding hashes are equal exactly when the amounts are, or the two commitments themselves collide |
| LweCommit.DeployedParameters | prover/crypto/lwe.py:75-86 | The deployed parameters are admissible and the convolution stays within 64-bit integers, also for keys of arbitrary 16-bit words |
| CommitReadings.LittleEndian | prover/crypto/lwe.py:214 | A packed word is its low byte plus 256 times the byte behind it |
| CommitReadings.NonceIsRead | prover/crypto/lwe.py:158-160 | The noise input is the seed, then the nonce as one little-endian word |
| CommitReadings.NoncesDistinct | prover/crypto/lwe.py:158-160 | Two nonces read one input exactly when they are equal |
| CommitReadings.MatrixInputsDistinct | prover/crypto/lwe.py:179-181 | The matrix input is the seed, then row, then column; two entries share one only if they are the same entry |
| CommitReadings.KeyInputs | prover/crypto/lwe.py:205-208 | Secret and error of a key are read from the nonces 0 .. k-1 and k .. 2k-1, all inputs distinct, and entry (i, j) of the matrix from its own stream of 3n + 64 bytes |
| CommitReadings.BlindingInputs | prover/crypto/lwe.py:290-292 | r, e1 and e2 are read from the nonces 0 .. k-1, k .. 2k-1 and 2k, all inputs distinct |
| CommitReadings.NoiseFromBits | prover/crypto/lwe.py:163-169 | The low half of byte j gives coefficient 2j and the high half coefficient 2j + 1: its two low bits minus its two high bits |
| CommitReadings.TwelveBits | prover/crypto/lwe.py:185 | A candidate is the low byte plus 256 times the low half of the high byte |
| CommitReadings.AcceptedInOrder | prover/crypto/lwe.py:184-188 | Rejection sampling keeps exactly the words whose candidate is below q, in their order |
| CommitReadings.UniformReads | prover/crypto/lwe.py:184-191 | A sampled polynomial is what was accepted first, then zeros if the buffer ran out |
| CommitReadings.DotIsSum | prover/crypto/lwe.py:142-147 | The inner product is the sum of the k ring products |
| CommitReadings.KeyEquation | prover/crypto/lwe.py:131-139 | Every coefficient of t is that of row of A times s, plus e, modulo q |
| CommitReadings.KeyBytesRead | prover/crypto/lwe.py:211-214 | A published key is the seed, then the words of t polynomial by polynomial |
| CommitReadings.CommitEquationU | prover/crypto/lwe.py:294-304 | The first words of a commitment are column j of A times r, plus e1_j, modulo q |
| CommitReadings.CommitEquationV | prover/crypto/lwe.py:298-304 | The words behind them are <t, r> plus e2, plus floor(q/2) wherever the amount has a binary one, modulo q |
| CommitReadings.OpensOnlyRecomputed | prover/crypto/lwe.py:328-349 | An opening holds only for decodable inputs, an amount of the domain, and bytes that amount and blinding seed reproduce |
| CommitReadings.AmountRange | prover/crypto/lwe.py:269-271 | The deployed domain ends at 2^64, and the signed 64-bit range one below 2^63 |
| CommitReadings.DeployedSizes | prover/crypto/lwe.py:303-304 | The deployed keys have 1056 bytes and commitments 1536 |
| Decimal.DecInjective | prover/crypto/commitment.py:56 | Decimal text determines the integer |
| Decimal.DecDenotes | prover/crypto/commitment.py:56 | The text is a minus sign exactly for negative numbers, then the digits of the number without leading zeros |
| Records.PreimageReads | prover/crypto/commitment.py:49-57 | The hashed text is the predecessor, the binding hash, the id and the decimal timestamp, in this order and with nothing between or behind |
| Records.PayloadReads | prover/crypto/signature.py:52-64 | The signed text is id, binding hash, decimal timestamp and chain hash, separated by the control character 31 |
| Records.EmptyRecordReads | verifier/verify.py:125-166 | Missing fields read as empty texts and zeros |
| Records.GenesisIsZeros | prover/crypto/commitment.py:45 | The chain starts at 64 zeros |
| Records.PreimageDetermines | prover/crypto/commitment.py:49-57 | With equal hash widths, equal pre-images mean equal prev, binding hash and id-then-timestamp text, and nothing more |
| Records.EqualWidthSplit | prover/crypto/commitment.py:55-56 | For two timestamps of equal width, equal id-and-timestamp text means equal id and equal timestamp |
| Records.DigitShiftUndetected | prover/crypto/commitment.py:49-57 | For every record with a timestamp of at least ten, moving all its digits but the last into the id keeps the chain hash, under every hash function |
| Records.SingleReading | prover/crypto/commitment.py:55-56 | At a fixed predecessor and binding hash, over non-negative timestamps, the text has a single reading exactly when the timestamp is one digit and the digits before it, if any, are zeros |
| Records.SingleSignedReading | prover/crypto/commitment.py:55-56 | The same over all timestamps: additionally the id must not end in a minus sign before a nonzero digit |
| Records.TextAfterPrev | prover/crypto/commitment.py:49-57 | Behind predecessors of equal width the pre-image determines the predecessor and the joined text of binding hash, id and timestamp |
| Records.SingleBody | prover/crypto/commitment.py:49-57 | Behind one predecessor, with no width assumed, that text has a single reading exactly when binding hash and id are empty and the timestamp is one digit |
| Records.BoundaryMoveUndetected | prover/crypto/commitment.py:49-57 | Moving the front of any id to the end of the binding hash keeps the chain hash, under every hash function |
| Records.PayloadInjective | prover/crypto/signature.py:52-64 | A payload whose record contains no separator equals the payload of another record exactly when all four fields are equal, whatever that record contains |
| Records.PayloadReadsOnce | prover/crypto/signature.py:58-64 | With a digest as chain hash, a payload has a single reading exactly when neither the id nor the binding hash contains the separator |
| Records.PayloadOfLink | prover/crypto/signature.py:58-64 | With binding hash and chain hash known, the payload determines id and timestamp, for any id |
| Records.PayloadFromRight | prover/crypto/signature.py:58-64 | Between records whose hashes contain no separator, equal payloads mean equal fields, whatever the ids contain |
| Sorting.SortSorts | prover/crypto/commitment.py:329 | The library sort yields an ordered permutation |
| Sorting.SortStable | prover/crypto/commitment.py:329 | Elements with equal keys keep their order |
| Sorting.SortOf | prover/crypto/commitment.py:329 | A list with distinct keys is what every reordering of it sorts to |
| ChainWalk.CheckRecord | prover/crypto/commitment.py:337-357 | The breaks of one record, in the order of the three tests |
| ChainWalk.WalkSorted | prover/crypto/commitment.py:337-359 | The loop collects the breaks of the whole sorted window and ends with its last hash |
| ChainWalk.WalkChain | prover/crypto/commitment.py:327-367 | Count, verdict, the first twenty breaks, the numbers at both ends and the head of the sorted window |
| ChainWalk.WalkReportsFaults | prover/crypto/commitment.py:337-357 | A break is reported exactly when some record has the fault that its reason names - predecessor field, recomputed hash, or number - under that record's number and id |
| ChainWalk.WalkCleanIffIntact | verifier/dashboard.py:300-334 | The verdict is clean exactly when the window is linked, recomputing, gap-free and its first record carries its fields, in either walker's wording |
| ChainWalk.HashCleanIffLinked | prover/crypto/commitment.py:337-352 | No hash-type break exactly when the window is linked and recomputing |
| ChainWalk.TamperEvidence | prover/crypto/commitment.py:327-367 | Two equally long linked chains with one head, whose first records embed equally wide predecessors, agree at every position in predecessor, chain hash and the joined text of binding hash, id and timestamp - and in the whole link exactly when the binding hashes are equally wide - or a position exhibits a collision |
| ChainWalk.HeadDeterminesLedger | prover/crypto/commitment.py:129-130 | Chains rooted at genesis need not be equally long: the head fixes the length and that agreement, up to a collision or a preimage of genesis |
| ChainWalk.EditUndetected | prover/crypto/commitment.py:337-357 | Replacing a record by one with the same pre-image, predecessor, chain hash and number changes no verdict |
| ChainWalk.BoundaryMoveInChain | prover/crypto/commitment.py:337-357 | In any record of any chain the front of the id can move into the binding hash: another binding hash, the same verdict, the same head |
| ChainWalk.SignedLinksAgree | prover/crypto/signature.py:52-64 | On equal links, signing payloads are equal exactly when id and timestamp are, whatever the ids contain |
| HonestRuns.HeadsDistinct | prover/crypto/commitment.py:175-182 | A head repeated within one run exhibits a hash failure |
| HonestRuns.DeliveryPassesIffContiguous | verifier/verify.py:164-183 | Records of one run, in any order and with repetitions, all pass CHAIN_LINK exactly when they are a contiguous ascending segment |
| HonestRuns.HoleIsPermanent | verifier/verify.py:164-183 | After a hole no later record of that run passes, and the tracked head stays |
| HonestRuns.WindowIntactIffContiguous | prover/crypto/commitment.py:327-367 | A window of one run is intact exactly when no number is missing, under every hash function |
| HonestRuns.ShuffledSliceIntact | prover/crypto/commitment.py:327-367 | Any reordering of a contiguous slice walks clean |
| Verifier.ExternalVerifier.constructor | verifier/verify.py:60-75 | A fresh verifier: no head, no key but the given one, zero counters |
| Verifier.ExternalVerifier.SetPublicKey | verifier/verify.py:77-84 | Only the key changes |
| Verifier.ExternalVerifier.ResetChain | verifier/verify.py:231-235 | Only the tracked head and number are forgotten |
| Verifier.ExternalVerifier.CheckSignature | verifier/verify.py:112-136 | Skip without a key, fail without a signature, else the scheme's answer, each with its own counter |
| Verifier.ExternalVerifier.CheckBinding | verifier/verify.py:138-162 | Recomputed from the commitment, or a format check that counts nothing |
| Verifier.ExternalVerifier.CheckChain | verifier/verify.py:164-183 | The head advances exactly when the link recomputes and names the expected predecessor |
| Verifier.ExternalVerifier.CheckProfile | verifier/verify.py:185-199 | The agreed lattice profile and the zero-PII assertion, with their counters |
| Verifier.ExternalVerifier.CountOutcome | verifier/verify.py:201-206 | One record counted, as failed or as verified |
| Verifier.ExternalVerifier.VerifyEnvelope | verifier/verify.py:92-217 | Five checks in order; verified exactly when none failed; the whole new state |
| Verifier.CountersConserved | verifier/verify.py:92-123 | In every reachable state verified + failed, chain_ok + chain_broken and the three signature counters each equal records |
| Verifier.AcceptedIsChain | verifier/verify.py:164-183 | On every stream, what was accepted since the last reset is one linked recomputing chain, and the tracked head and number are those of its last record |
| VerifierCounts.VerifiedIff | verifier/verify.py:107-206 | A record is verified exactly when its fields meet five conditions: the signature over its payload if a key is installed, the hash of its commitment or else 64 lower-case hexadecimal characters, the recomputed link, every agreed lattice parameter, no personal data and no forbidden field |
| VerifierCounts.SwappedCommitmentFails | verifier/verify.py:141-153 | A commitment that does not hash to the advertised binding hash fails, whatever that looks like, and is counted as binding_failed |
| VerifierCounts.DowngradeFails | verifier/verify.py:185-191 | One lattice parameter missing or different fails the record and is counted as lwe_failed |
| VerifierCounts.CountersCountVerdicts | verifier/verify.py:60-75 | In every reachable state each of the fourteen counters is the number of deliveries with the verdict it is named for |
| VerifierCounts.CountTrueIsCardinality | verifier/verify.py:60-75 | Counting marks one by one is the cardinality of the marked positions |
| Verifier.NoBreakCounted | verifier/verify.py:183 | chain_broken stays put exactly when every link of the delivery passed, and the head is then its last record |
| Verifier.OnlineAgreesWithWalk | verifier/verify.py:164-183 | A fresh verifier fed the sorted window passes every link, and the first record carries its predecessor, exactly when the walk has no hash-type break |
| Verifier.MissingPredecessorDisagrees | verifier/dashboard.py:308-315 | Without that field the two chain checks disagree |
| Authorship.HonestExportVerifies | prover/crypto/commitment.py:175-214 | An exported record passes all five checks of a verifier that stands at its predecessor, or at no record |
| Authorship.VerifiedIsAuthentic | verifier/verify.py:92-217 | Under an unforgeable scheme, an installed key and digests without separators, any arriving record that passes the five checks agrees with one signed record in all four signed fields, whatever the ids contain |
| Authorship.SignatureIsAuthentic | prover/crypto/signature.py:120-140 | For a log of separator-free ids the signature check alone gives the same, with nothing assumed of the arriving record |
| Authorship.CheckedChainsAgree | verifier/verify.py:138-183 | Two equally long linked chains with one head whose records all pass the binding check agree in every link, or a position exhibits a collision |
| Authorship.DowngradeOrLeakFails | verifier/verify.py:185-199 | A record with one agreed parameter missing or different, a forbidden field, or personal data is never counted as verified |
| Authorship.UndecodableFails | verifier/verify.py:154-156 | A commitment that does not decode fails, whatever hash is advertised |
| Authorship.DeployedForbids | verifier/verify.py:45-48 | Each of the seven amount-bearing fields is enough to fail a record in the deployed verifier |
| Authorship.DisclosureEndToEnd | prover/crypto/lwe.py:307-349 | For every key, blinding seed and amount the exported record passes all checks and the auditor opens it for that amount and no other |
| Store.CommitmentStore.constructor | prover/crypto/commitment.py:119-148 | Start at genesis or behind the persisted head |
| Store.CommitmentStore.EvictOldest | prover/crypto/commitment.py:217-218 | The eviction loop keeps the newest entries up to the ring bound |
| Store.CommitmentStore.Link | prover/crypto/commitment.py:175-214 | The signed record behind the current head, which becomes the head |
| Store.CommitmentStore.Add | prover/crypto/commitment.py:152-228 | A rejected amount changes nothing; otherwise the record, the head, the ring and the counters of one addition; the record is quarantined exactly when its score reaches the threshold, and only its status is counted |
| Store.ScoreDecides | prover/crypto/commitment.py:173-221 | The status of a new record and the counter that grows, in terms of score and threshold |
| Store.CutKeepsNewest | prover/crypto/commitment.py:268-277 | A limit keeps at most that many of the newest records, a negative one all but that many of the oldest |
| Store.AddConserves | prover/crypto/commitment.py:216-221 | One addition, evictions included, keeps the counters summing to the total and covering the hot records of every status |
| Store.MarkConserves | prover/crypto/commitment.py:371-377 | One status change keeps the same two facts: a unit moves between counters as the record moves between statuses |
| Store.CommitmentStore.SetStatus | prover/crypto/commitment.py:371-379 | The status change, and whether either tier knew the id |
| Store.CommitmentStore.AuditExport | prover/crypto/commitment.py:268-277 | A non-empty durable answer wins; otherwise the ring newest-first, cut at the limit |
| Store.CommitmentStore.VerifyChain | prover/crypto/commitment.py:327-367 | The store's verdict is intact exactly when the exported window is an intact chain; its breaks are the first of the walk, and range and head those of the window |
| Store.PutFinds | prover/crypto/commitment.py:216 | Storing keeps ids distinct, the record is found under its id, and no other entry moves |
| Store.MarkTouchesOne | prover/crypto/commitment.py:371-377 | A status change reaches exactly one record and nothing published about it |
| Store.RingIdsDistinct | prover/crypto/commitment.py:216-218 | After any run the ring holds one record per id and at most ring-size records |
| Store.ClampNeverActs | prover/crypto/commitment.py:375 | A hot record's counter is at least one, so the clamp at zero never changes a value |
| Store.DropStaysCounting | prover/crypto/commitment.py:375 | Leaving a status never makes a counter negative, lowers a positive one by one, and touches no other |
| Store.CountsConserved | prover/crypto/commitment.py:220-221 | In every reachable state, evictions and repeated ids included, the status counters sum to the total |
| RingRuns.LogIsHonest | prover/crypto/commitment.py:175-221 | Everything a run created is one honest chain behind its starting head, and head, number and total describe it |
| RingRuns.HotComesFromLog | prover/crypto/commitment.py:216-218 | Every hot record is a record of the run, up to its status |
| RingRuns.WindowIsSuffix | prover/crypto/commitment.py:268-277 | Exporting newest-first, cutting at any limit and sorting again gives the newest records in order |
| RingRuns.WalkExact | prover/crypto/commitment.py:327-367 | After any run, repeated ids included, the walk is clean exactly when the records it looks at have no missing number |
| RingRuns.RingHoldsTail | prover/crypto/commitment.py:216-218 | With fresh ids the ring holds exactly the last min(total, ring size) records in sequence order |
| RingRuns.FreshRunsVerify | prover/crypto/commitment.py:327-367 | With fresh ids the store's chain check reports intact for every limit |
| RingRuns.RedeliveryBreaksWalk | prover/crypto/commitment.py:216 | From any ring that walks clean, adding an id it holds keeps a walk clean exactly when its limit ends before the gap; over the whole ring, exactly when the record was the oldest |
| Restart.DurableHeadInStep | prover/crypto/commitment.py:138-148 | While saves and loads succeed, the head in memory is the saved head or exactly one record on top of it |
| Restart.LagIsExact | prover/crypto/commitment.py:223-225 | With saves that may fail, the durable head lags by exactly the records begun since it was last saved or loaded |
| Restart.RowsFormOneChain | prover/crypto/commitment.py:175-225 | Over every run, with any failed writes, saves and loads and restarts anywhere, the durable rows are one chain 1..n exactly when every row was written where it fits, up to a head of an unwritten record that equals a row's; without failed writes exactly |
| Restart.OnTopIffNothingLost | prover/crypto/commitment.py:138-148 | If writes and loads succeed, every row fits exactly when none is written after a restart that was taken while rows were unsaved |
| Restart.AttemptCleanIff | prover/crypto/commitment.py:223-225 | From a clean state one addition, with any failed write or save and any restart, leaves a clean state exactly when row and head both became durable, or a restart forgot an unwritten record |
| Restart.CutAfterWriteForks | prover/crypto/commitment.py:223-225 | A restart between write and save gives two rows one number and one predecessor |
| Restart.LostWriteLeavesGap | prover/crypto/commitment.py:223-225 | A failed write whose head is saved leaves a number that no row carries |
| Restart.FailedLoadRestarts | prover/cassandra_store.py:309-319 | A reboot that cannot load the head keeps in step exactly when nothing but genesis was saved |
| Buffers.RingBuffer.constructor | verifier/kafka_client/consumer.py:45-47 | An empty bounded buffer |
| Buffers.RingBuffer.Push | verifier/kafka_client/consumer.py:49-51 | The buffer is always the newest maxlen elements of everything pushed |
| Buffers.RingBuffer.Read | verifier/kafka_client/consumer.py:53-56 | The snapshot of n elements, with zero and negative n as the slice treats them |
| Buffers.SnapshotIsNewest | verifier/kafka_client/consumer.py:53-56 | That is everything for 0, at most n of the newest for a positive n, all but the -n oldest for a negative one |
| Buffers.RetainBounds | verifier/dashboard.py:86-94 | The report table never exceeds its cap by more than one, and the entry found under the id of the newest report is that report |
| Buffers.ReportsAreTail | verifier/dashboard.py:86-94 | With fresh ids the table is a tail of all reports that covers the newest cap - prune + 1 |
| Buffers.RetainedExactly | verifier/dashboard.py:86-94 | With fresh ids the table holds all reports up to cap + 1, then cycles between cap - prune + 2 and cap + 1 |
| Buffers.DeployedTable | verifier/dashboard.py:90-92 | The deployed table holds every report up to 5001 and always the newest 4002 |
| Buffers.ReportsCoverBuffer | verifier/dashboard.py:86-94 | Every record of a ring buffer of that size still has its report |
| VerifierNode.Node.constructor | verifier/kafka_client/consumer.py:71-95 | A verifier process with empty buffers, table and counters |
| VerifierNode.Node.RecordVerification | verifier/dashboard.py:86-94 | Verify, then retain the report |
| VerifierNode.Node.Process | verifier/kafka_client/consumer.py:134-176 | A record that admits personal data is dropped before any buffer; the others reach the buffer of their topic, and committed ones the verifier |
| VerifierNode.NodeConserves | verifier/kafka_client/consumer.py:134-176 | Over every run each message is received once or dropped as an error, no buffer holds a record that admits personal data, and process and verifier agree on records and failures |
| VerifierNode.NewestReportIsServed | verifier/dashboard.py:86-94 | After any run the report found under the id of the newest committed record is what the verifier said of that record |
| VerifierNode.Node.ChainVerify | verifier/dashboard.py:300-334 | The dashboard's verdict is intact exactly when the sorted snapshot of its buffer is an intact chain; its breaks are the first of the walk, and range and head those of the snapshot |
| Forks.EchoMeans | prover/crypto/commitment.py:175-182 | Two records of a ledger written across restarts that share a chain hash repeat one link, behind one head and with the same texts, or collide |
| Forks.DeliveryPassesIffUnbroken | verifier/verify.py:164-183 | Its records, in any order and with repetitions, all pass CHAIN_LINK exactly when each was chained on the one delivered before it; the "only" half up to two records, or a record and a starting head, with one chain hash |
| Forks.WindowIntactIffStraight | prover/crypto/commitment.py:327-367 | The walk over any reordering of a stretch of it is intact exactly when every record there was chained on its neighbour, up to the same |
| Pipeline.ActionKeepsInv | prover/consumer.py:116-207 | Every step of prover, broker and verifier keeps the protocol invariant, restarts after failed saves or loads included |
| Pipeline.InvHolds | prover/consumer.py:168-207 | The invariant holds in every reachable state |
| Pipeline.HolesAreLosses | prover/consumer.py:186-207 | The received records are contiguous exactly when no lost record lies between the first and the last of them |
| Pipeline.EndToEnd | prover/consumer.py:156-207 | With the constant key, any interleaving, failed publishes, saves and loads, and restarts between any two steps, the verifier has an ascending selection of the records, and chain_broken is 0 exactly when each received record was chained on the one received before it; the "only" half up to two records, or a record and a starting head, with one chain hash |
| Pipeline.SafeRestartsAreStraight | prover/crypto/commitment.py:138-148 | If every restart loads the head and follows a successful save, every record is chained on the newest one |
| Pipeline.LossesAreBreaks | prover/consumer.py:186-207 | While the ledger has not forked, chain_broken is 0 exactly when no record between the first and last received one was lost to a failed publish or to a restart between save and publish, up to a hash failure |
| Pipeline.RestartWithoutSavesForks | prover/crypto/commitment.py:138-148 | If no save succeeds, as without a durable tier, every restart between two records forks the ledger |
| Pipeline.NoFalseBreaks | prover/consumer.py:186-207 | With the constant key, if no publish fails and no restart falls between a save and its publish, the verifier has a prefix of the records in order; chain_broken is 0 exactly when that prefix does not fork, and the dashboard walk over any snapshot is intact exactly when the snapshot does not; the "only" halves up to records with one chain hash |
| Pipeline.RefinesRestart | prover/crypto/commitment.py:175-225 | The prover inside the pipeline takes exactly the steps of the write path, so the results on rows and heads hold for it |
| Pipeline.KeyIsLastInstalled | verifier/verify.py:77-84 | In every reachable state the verifier holds the key installed last |
| Pipeline.UnsentIsNeverPublished | prover/consumer.py:168-207 | A record whose committed message still waited at a restart, or whose publish failed, is never published, whatever happens later |
| AnomalyTopic.OnlyHighScoresPublished | prover/consumer.py:168-173 | In every reachable state, keyed or not, whatever was received or waits on the anomaly topic is the export of a record whose score reached its threshold |
| AnomalyTopic.HighScoresArePublished | prover/consumer.py:168-173 | With the constant key and no copy dropped, received, queued and unsent anomaly copies together are exactly the records whose score reached the threshold, in order, even if their committed messages failed |
| Pipeline.KeylessFalseBreak | prover/consumer.py:188-202 | Without the constant key an honest ledger of two records raises a break |
| RocAuc.SetPositions | ml/evaluate.py:91 | The scatter assignment gives every observation its sorted position |
| RocAuc.GroupEnd | ml/evaluate.py:96-98 | The inner loop finds the last member of the tie group |
| RocAuc.SetGroup | ml/evaluate.py:100 | The slice assignment changes the group and nothing else |
| RocAuc.AverageGroup | ml/evaluate.py:95-101 | One round of the outer loop gives the whole group its final rank |
| RocAuc.AverageTies | ml/evaluate.py:94-101 | The outer loop turns sorted positions into final ranks, group by group |
| RocAuc.TieAveragedRanks | ml/evaluate.py:88-101 | For every sorting permutation, the in-place algorithm gives each observation its tie-averaged rank |
| RocAuc.RocAuc | ml/evaluate.py:84-104 | Not a number exactly when a side is empty; otherwise (pairs won + ties/2) / (n_pos * n_neg) |
| RocAuc.GroupRank | ml/evaluate.py:95-101 | The members i..j of a maximal tie group share the mean rank (i + j + 2) / 2 |
| RocAuc.ScoreCounts | ml/evaluate.py:85 | The pair score counts wins plus half the ties |
| RocAuc.MannWhitney | ml/evaluate.py:103-104 | The rank sum of the positives is the pair score plus n_pos(n_pos + 1)/2 |
| RocAuc.TotalRankSum | ml/evaluate.py:89-101 | Tie averaging keeps the total rank sum n(n + 1)/2 |
| RocAuc.ScoreComplement | ml/evaluate.py:84-104 | Every pair is counted once from either side |
| RocAuc.AucComplement | ml/evaluate.py:84-104 | Exchanging the samples complements the AUC, which lies in [0, 1] |
| RocAuc.UnguardedIsZeroOverZero | ml/train_autoencoder.py:329-349 | The copy without a guard divides zero by zero on an empty side |
| Velocity.CountIsCardinality | verifier/anomaly_detector.py:244 | The count of a list is the number of its events behind the cutoff |
| Velocity.CountExact | verifier/anomaly_detector.py:233-244 | Asked no earlier than any recorded time, the trimmed deque counts exactly the events of the window, in whatever order they came |
| Velocity.DequeExact | verifier/anomaly_detector.py:222-227 | The deque holds exactly the events from the first one that no later arrival has put past the window |
| Velocity.CountExactIff | verifier/anomaly_detector.py:233-244 | For any time asked about the count never exceeds the events of the window, and equals them exactly when no event gone from the deque lies in it |
| Velocity.LateEventUndercounts | verifier/anomaly_detector.py:225-227 | Whenever an event gone from the deque lies in the window of a late arrival, the count at that arrival is too low |
| Velocity.SeenAccountsHaveEvents | verifier/anomaly_detector.py:228-231 | The deque of an account ever seen is never empty |
| Velocity.VelocityTracker.constructor | verifier/anomaly_detector.py:214-218 | An empty tracker |
| Velocity.VelocityTracker.Evict | verifier/anomaly_detector.py:226-227 | Front eviction up to the first time inside the window |
| Velocity.VelocityTracker.Append | verifier/anomaly_detector.py:222-227 | One event joins the deque of its account, the others stay |
| Velocity.VelocityTracker.Prune | verifier/anomaly_detector.py:228-231 | The pruning step changes nothing |
| Velocity.VelocityTracker.Record | verifier/anomaly_detector.py:220-231 | The tables stay the function of everything ever recorded; a missing or zero time is the clock |
| Velocity.VelocityTracker.Count | verifier/anomaly_detector.py:233-244 | Never above the recorded events of the window, equal to them exactly when none of them is gone, and always equal at the latest time so far |
| DayLedger.UtcDaysAreACalendar | prover/cassandra_store.py:140-142 | A day has 24 * 60 * 60 * 10^9 nanoseconds; UTC day numbers are monotone and shift by one per day |
| DayLedger.TextLessMeans | prover/cassandra_store.py:92-93 | The order of ids is lexicographic |
| DayLedger.ReachIsFirstFailure | prover/cassandra_store.py:362-369 | The scan reads the partitions before the first failing query, or all |
| DayLedger.UpsertClustered | prover/cassandra_store.py:92-93 | A partition stays ordered by time descending and id ascending, one row per key |
| DayLedger.UpsertContents | prover/cassandra_store.py:278-288 | After a write exactly the new row and the rows with other keys remain |
| DayLedger.RewriteReplaces | prover/cassandra_store.py:278-288 | After writing a transaction again with another record, the new row is there and the old one is gone exactly when both carry one timestamp |
| DayLedger.WriteIdempotentIff | prover/cassandra_store.py:278-288 | The second of two writes of a transaction leaves what it would have left alone exactly when both carry one timestamp, or the first row was there before |
| DayLedger.FileKeepsFiled | prover/cassandra_store.py:251-276 | Each partition holds rows of its own day only |
| DayLedger.WindowClustered | prover/cassandra_store.py:355-371 | Consecutive partitions, newest day first, are one strictly ordered list |
| DayLedger.WindowMembers | prover/cassandra_store.py:355-371 | A row is in the window exactly when its day is one of the days read |
| DayLedger.RecentIsNewest | prover/cassandra_store.py:370-371 | Every row left out comes after every row returned |
| DayLedger.Ledger.constructor | prover/cassandra_store.py:148-161 | An available ledger with empty tables |
| DayLedger.Ledger.Write | prover/cassandra_store.py:278-295 | Both tables, the counters and the answer, for success and for a failure at either insert |
| DayLedger.Ledger.SaveHead | prover/cassandra_store.py:321-331 | On success, and only then, the head joins the saved heads |
| DayLedger.Ledger.LoadHead | prover/cassandra_store.py:309-319 | The last head that was saved, exactly when one was and the ledger can read it |
| DayLedger.Ledger.Scan | prover/cassandra_store.py:362-369 | The loop collects whole partitions, or the last one up to the limit, until the limit is reached or a query fails |
| DayLedger.Ledger.Recent | prover/cassandra_store.py:355-371 | Per-partition limits, early break, stable sort and final cut return the first rows of the whole window, fewer than the limit only if there are no more; a failing query ends the scan |
| DurableWalk.WindowIsReversed | prover/cassandra_store.py:355-371 | Rows written with ascending times come back in reverse |
| DurableWalk.DurableScanIntact | prover/crypto/commitment.py:268-277 | The chain check over any durable scan of a completely written honest ledger is intact |

## Left out

- Cryptographic primitives: SHA3, SHAKE, HMAC, Ed25519, base64 and hex are function parameters with the facts needed (digest width, sign and verify agree, codec round trip, no forged payload).
- Hardness: computational hiding, Module-LWE hardness and binding across different blinding seeds are not statements about the code.
- Records are values: the store replaces an entry where the code changes `status` inside the stored object, so a caller holding a returned record does not see later changes in the model.
- Record fields that no check reads (account hash, type, scores, flags, fingerprints, size) are dropped from records and exports.
- Wrongly typed JSON fields (a text where a number is expected, an explicit null) are not modelled; missing fields are.
- Text of log lines and of check details, and the metrics derived from wall-clock time.
- Times are integers in one unit: the code divides nanoseconds by 1e9 into floating point before it compares or buckets them.
- Scores are reals: rounding of sums and quotients, and not-a-number inputs to the AUC, are not modelled.
- Locks and threads: one ingest thread and atomic steps; the additions of the store are serialised as by its lock, and durability has a single writer.
- Broker and database drivers: connections, retries, timeouts and producer-side reordering; partitions are FIFO queues, tables are clustered lists.
- Status columns of the durable tables: only the lookup table is updated by the code, and no agreement of the two is claimed.
- Pipeline.EndToEnd: the ingest statistics of the prover are left out, and the verifier process is not restarted.
- Key and seed loading from the environment, the random seed of a key created without one, blinding-seed derivation, and the recomputation trace of the audit terminal.
- Typology rules, severity tables, novelty scores, graph proximity, model training and calibration: branch tables and floating point.
- HTTP endpoints, streaming, charts, simulator, certificates, settings and deployment.
