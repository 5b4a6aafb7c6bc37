# Bee, verified

A Dafny model of the hard parts of Bee, an IOTA node: the tangle and its solidifier as a concurrent
protocol, Curl and its bit-sliced form, hash-based signatures and bundle sealing, the ternary and wire
codecs, and the node's bookkeeping. `dafny verify dfyconfig.toml` checks all of it.

| files | what they model |
|---|---|
| `TangleGraph`, `Solidification`, `SolidificationProgress` | the inductive notion of a complete past; inserts, solidifier and milestone task as interleaved atomic steps; soundness, completeness and progress over all runs |
| `TangleWalks`, `Tangle` | the recursive walks and their exact meaning; the tangle object with its stack-based loops |
| `Ternary`, `Curl`, `PearlDiver` | balanced ternary; the Curl sponge; 64 Curl hashes at a time on hi/lo words |
| `Normalization`, `Wots`, `Mss`, `Sealing` | hash normalisation, Winternitz one-time signatures, the Merkle scheme, sealing a bundle |
| `NumConversions`, `BigInt`, `PackedTrits` | `i64` and ternary, 384 bits to 243 trits, two to five trits per byte |
| `TransactionCodec`, `Compression`, `Framing` | transaction layout and its way over the wire; type-length-value framing |
| `Ledger`, `WaitQueue`, `HashCache` | validation, balance changes and the ledger; the waker queue of the requesters; the deduplication cache |

A loop of the source is a loop here, proved against a recursive function or a state predicate, and the
promised properties are proved of that function. An object is a class; the concurrent protocols are state
machines whose steps are the critical sections of the code.

## How the code is read

- A hash or an address is used by the tangle and the ledger only as an identity and is an integer there.
  A `u64` word of the search is 64 booleans. The table of 730 indices is its closed form 364 j mod 729.
- The sponge of the signatures is any function of what was absorbed that yields as many trits as asked for;
  `Wots.CurlSpongeLawful` shows that Curl is one.
- `calculate_hash` and `validate_signatures` of an incoming bundle are stubs in the source; their outcomes
  are parameters. So are the callbacks' results of the walks, whose calls are recorded as events.
- Solid entry points are fixed before inserts begin, as the node sets them up, and a hash is inserted once;
  what a second insert does is stated by `InsertTransaction`.
- The sealing loop ends only if some tag is accepted; `Seal` assumes that (and only that) where it reaches
  the loop.
- Where the code overflows, the model has an outcome of its own, which stands for the panic where overflow is
  checked.

## Where the code does something else than it says

- `CurlP::transform` swaps once more for even round counts, with the comment that the result would otherwise
  be in the work buffer. It is the other way round: `state` then holds one round too few, and on the zero state
  this always shows (`AllRoundsIffOdd`, `LastRoundShows`). 27 and 81 are odd.
- Decoding trits to `i64` lets -2^63-1 through and returns 2^63-1 for it: `DecodeWrongWitness`, and
  `DecodeExactIff` for the exact condition.
- `seal` subtracts one from the number of builders before it could report that there are none, which overflows
  for an empty builder and panics where overflow is checked.
- `apply_diff` casts a balance to `i64`, skips a change that would make it negative, and casts a negative change
  of an unknown address to `u64`. `ChangedIff` and `AppliedExactIff` say exactly when a change takes effect as it
  should; `TokensCreated` and `TokensLost` are ledgers on which tokens appear and vanish. Within the supply and
  without conflicts neither happens (`SupplyConserved`).
- The Merkle key generator accepts depth 0, for which it subtracts one from zero, and panics where overflow is
  checked (`AcceptedDepthGeneratesIff`, `Generate`).
- Re-inserting a stored transaction clears its SOLID flag and sends no message, so it may stay unflagged
  (`ReinsertValidIff`, `ReinsertedStaysUnflagged`).
- The post-order walk takes a `follow` predicate and never calls it (`FollowIgnoredIff`).
- The essence of a transaction does not commit to its timestamp: one that is larger by 3^27 leaves no trace where
  the index overwrites it (`EssenceForgetsTimestamp`). Among numbers that fit, it commits to all (`EssenceCommits`).
- A number of a transaction that does not fit its field is written over the next one, and then the transaction
  does not read back (`LayoutRoundTripIff`).
- The wake-up queue is safe for one consuming task and not for two: `SafeIffOneConsumer`.
- Building a transaction takes the absolute value of its value, which overflows for the smallest `i64` and
  panics where overflow is checked. A broadcast can carry it: `PanicsIff`, `ReceivedPanicsIff`, `PanicWitness`.

## Model

| member | source | states |
|---|---|---|
| `Solidification.CompleteAtQuiescence` | bee-tangle/src/tangle.rs:79-117 | In every interleaving of any number of inserts of distinct hashes with the solidifier, once no insert is in flight, the channel is empty and the solidifier idles, a hash answers solid if and only if its whole past has been inserted down to solid entry points, a vertex is flagged if and only if this holds of both its approvees, and the stored hashes are the inserted ones |
| `Solidification.StoredIsInserted` | bee-tangle/src/tangle.rs:103-108 | In every run each vertex carries the very transaction its insertion began with, and once no insertion is in flight the stored hashes are exactly the ones begun |
| `Solidification.SoundOverRuns` | bee-tangle/src/tangle.rs:140-146 | At every point of every run what answers solid has its whole past stored, and both the answer and the past stay for the rest of the run |
| `Solidification.MilestoneAdvancesAreSolid` | bee-protocol/src/worker/solidifier/milestone.rs:93-109 | Over every run the solid milestone index moves one by one, each time to a milestone that some action registered under that index, whose whole past is stored and stays stored |
| `Solidification.MilestonesKnown` | bee-tangle/src/tangle.rs:149-160 | After every run the milestones known are those the actions registered last under each index and did not remove |
| `Solidification.SolidMilestoneReached` | bee-protocol/src/worker/solidifier/milestone.rs:93-109 | Wherever its task stands, a known next milestone that answers solid is reached within seven of its steps |
| `Solidification.NextKeepsInv` | bee-tangle/src/solidifier.rs:39-61 | Every atomic step of every task keeps the invariant: indexed approvers, justified flags, no ready vertex forgotten, milestone bookkeeping; vertices and flags only grow |
| `Solidification.RunKeepsInv` | bee-tangle/src/solidifier.rs:39-73 | The invariant and the growth hold over runs of any length |
| `Solidification.StillExamined` | bee-tangle/src/solidifier.rs:39-61 | No step of the solidifier loses a vertex that is ready to be flagged: it stays queued, stacked, under examination or an approver about to be pushed |
| `Solidification.InsertKeepsInv` | bee-tangle/src/tangle.rs:79-114 | Each of the four steps of an insertion keeps the invariant, because approvers are indexed before the vertex is stored and the vertex is stored before its hash is sent |
| `SolidificationProgress.EventuallyExact` | bee-tangle/src/solidifier.rs:64-73 | From every point of every run, on every infinite continuation that begins no new insert and does not pass over the enabled tasks for ever, with milestone steps in between, there is a point from which on nothing is in flight and all answers and flags are exact |
| `SolidificationProgress.FinitelyManyTaskSteps` | bee-tangle/src/solidifier.rs:39-73 | Every infinite run without new inserts, fair or not, holds finitely many steps of insertions and solidifier |
| `SolidificationProgress.InsertsSettle` | bee-tangle/src/tangle.rs:79-117 | Whatever transactions are inserted under distinct hashes, some run inserts them all and comes to rest with exactly these stored and all answers exact |
| `SolidificationProgress.DrainedIsExact` | bee-tangle/src/solidifier.rs:64-73 | Under a scheduler that looks at the state only, the point where the tasks run dry is exact |
| `SolidificationProgress.DrainedIsARun` | bee-tangle/src/solidifier.rs:39-73 | Draining under a scheduler is a run of task steps that ends with nothing in flight |
| `SolidificationProgress.SolidifierStepIsProgress` | bee-tangle/src/solidifier.rs:39-61 | Every solidifier step leaves less work in a well-founded measure, on cyclic graphs too |
| `TangleGraph.PastCompleteUnfolds` | bee-tangle/src/tangle.rs:140-146 | The past of a hash is complete if and only if it is an entry point or stored with two approvees of complete past |
| `TangleGraph.SettledIsExact` | bee-tangle/src/solidifier.rs:39-61 | In a sound graph with no ready vertex left, solid answers and flags are exactly those with a complete past |
| `TangleGraph.SoundExtends` | bee-tangle/src/solidifier.rs:39-61 | Adding vertices and flags keeps soundness when each new flag has two solid approvees |
| `TangleObject.Tangle.InsertTransaction` | bee-tangle/src/tangle.rs:79-117 | The whole new state of an insertion; a new hash keeps the tangle valid; re-inserting a stored transaction keeps it valid exactly when it is still queued or not ready |
| `TangleObject.Tangle.Propagate` | bee-tangle/src/solidifier.rs:39-61 | Propagation terminates, adds only justified SOLID flags, and leaves ready only other vertices that were ready before |
| `TangleObject.Tangle.RunSolidifier` | bee-tangle/src/solidifier.rs:64-73 | Working off the channel leaves every solidity answer exact |
| `TangleObject.Tangle.WalkApproveesDepthFirst` | bee-tangle/src/tangle.rs:315-354 | On every graph the explicit-stack walk terminates with exactly the callbacks, in order, of the recursive trunk-first depth-first walk |
| `TangleObject.Tangle.WalkApproversPostOrderDfs` | bee-tangle/src/tangle.rs:357-401 | On every acyclic graph the explicit-stack walk terminates with exactly the callbacks of the recursive trunk, branch, vertex post-order |
| `TangleObject.Tangle.Solidify` | bee-protocol/src/worker/solidifier/transaction.rs:38-60 | Requests each absent hash reachable over unflagged vertices exactly once; on an acyclic sound tangle storing no entry point, answers true if and only if the whole past is stored |
| `TangleObject.Tangle.SolidifyMilestone` | bee-protocol/src/worker/solidifier/milestone.rs:93-109 | The index moves, by one, exactly when the next milestone is known and solid, and then its past is stored; a known milestone that is not solid is handed on |
| `TangleObject.ReinsertValidIff` | bee-tangle/src/tangle.rs:79-117 | Re-inserting a stored transaction keeps the tangle valid if and only if it is still queued or has an approvee that is not solid |
| `TangleObject.ReinsertedStaysUnflagged` | bee-tangle/src/tangle.rs:79-117 | A concrete tangle in which a flagged transaction, inserted again, stays unflagged with nothing queued although its past is complete |
| `TangleObject.FlaggingReady` | bee-tangle/src/solidifier.rs:39-61 | Flagging a vertex makes ready at most its indexed approvers |
| `TangleWalks.DepthFirstWalkExact` | bee-tangle/src/tangle.rs:315-354 | Cycles included, each followed-reachable vertex is mapped once, each reachable absent hash that is no entry point is reported once, nothing else is |
| `TangleWalks.PostOrderWalkExact` | bee-tangle/src/tangle.rs:357-401 | Each stored ancestor is mapped once, after both its approvees are settled; each absent one that is no entry point is reported once; nothing else is |
| `TangleWalks.FollowIgnoredIff` | bee-tangle/src/tangle.rs:357-401 | That the post-order walk ignores its follow predicate makes no difference, from any root, if and only if every vertex the predicate rejects approves only entry points that are not stored |
| `TangleWalks.NothingMissingDecidesPast` | bee-protocol/src/worker/solidifier/transaction.rs:38-60 | On an acyclic sound tangle storing no entry point, nothing missing along unflagged vertices is equivalent to a complete past |
| `PearlDiver.Transform` | bee-pow/src/pearldiver.rs:175-221 | For every state of valid codes each of the 64 lanes holds 81 reference rounds at positions 0..242 and 80 rounds at the others, although the last round works in place |
| `PearlDiver.TransformFullRounds` | bee-pow/src/pearldiver.rs:182-204 | After n swapping rounds the current buffers, those of the first state for even n, hold n reference rounds in every lane |
| `PearlDiver.TransformLastRound` | bee-pow/src/pearldiver.rs:206-220 | The in-place round yields a full round of the old state at the hash positions and leaves the others alone |
| `PearlDiver.WordSbox` | bee-pow/src/pearldiver.rs:187-196 | On valid codes the word formula is the substitution box in each lane and yields valid codes |
| `PearlDiver.PowCurlState.BitAdd` | bee-pow/src/powcurlstate.rs:38-46 | Adds one to the trit of every lane at that position only; carries exactly when some lane wrapped |
| `PearlDiver.InnerIncrement` | bee-pow/src/pearldiver.rs:121-133 | Where lanes agree adds one to the counter of every lane, and reports exhaustion exactly when it wrapped; touches no position outside |
| `PearlDiver.OuterIncrement` | bee-pow/src/pearldiver.rs:112-119 | Where lanes agree adds one to the outer counter of every lane; touches no position outside |
| `Curl.SboxIsTruthTable` | bee-crypto/src/sponge/curlp.rs:60-63 | The substitution box is the table lookup of the code, always in range and never on a non-trit entry |
| `Curl.IndexIsMultipleOf364` | bee-pow/src/constants.rs:41-73 | The positions read by the reference round are 364 j mod 729, the contents of the index table of the bit-sliced form |
| `Curl.CurlP.ApplySubstitutionBox` | bee-crypto/src/sponge/curlp.rs:65-97 | The filling loop computes one round, whatever the output buffer held |
| `Curl.CurlP.Transform` | bee-crypto/src/sponge/curlp.rs:59-111 | Both buffers after the rounds, the swaps and the closing swap, for every number of rounds |
| `Curl.AllRoundsIffOdd` | bee-crypto/src/sponge/curlp.rs:59-111 | The transformation performs all its rounds, whatever the buffers hold, if and only if their number is odd |
| `Curl.LastRoundShows` | bee-crypto/src/sponge/curlp.rs:99-110 | From the zero state every round shows, so the round that an even count loses is never harmless there |
| `Curl.EvenRoundsFall` | bee-crypto/src/sponge/curlp.rs:99-110 | For every even count a fresh sponge, or without rounds one that has absorbed a trit, is transformed to a wrong state |
| `Curl.TransformedState` | bee-crypto/src/sponge/curlp.rs:59-111 | An even positive count leaves one round less in the state; no round at all swaps the scratch buffer in |
| `Curl.AbsorbedState` | bee-crypto/src/sponge/curlp.rs:127-133 | A sponge with an even number of rounds absorbs as the one with a round less, independently of the scratch buffer |
| `Curl.DigestOfReset` | bee-crypto/src/sponge/sponge.rs:45-50 | The digest of a sponge with zero state depends on the input only; nothing of an earlier message reaches it |
| `Curl.CurlP.Absorb` | bee-crypto/src/sponge/curlp.rs:127-133 | The buffers after absorbing are the fold over the input pieces, a short last piece leaving the rest of the state, for every number of rounds |
| `Curl.CurlP.SqueezeInto` | bee-crypto/src/sponge/curlp.rs:145-151 | Output and buffers after squeezing, one transformation per piece handed out, for every number of rounds |
| `Curl.CurlP.DigestInto` | bee-crypto/src/sponge/sponge.rs:45-50 | From any buffers: the trits of absorbing and squeezing, and a zero state left behind |
| `Curl.AbsorbedConcat` | bee-crypto/src/sponge/curlp.rs:127-133 | Absorbing whole pieces one call at a time is absorbing them at once |
| `Mss.SignRun` | bee-signing/src/mss.rs:175-206 | In a run of any number of signing calls the k-th uses the k-th leaf, each leaf once, every signature is accepted under the one root, and the run stops only when the leaves are used up |
| `Mss.SignaturesAccepted` | bee-signing/src/mss.rs:229-265 | Every signature of every leaf, at every depth 1 to 20, is accepted under the root |
| `Mss.GenuineAcceptedIff` | bee-signing/src/mss.rs:229-265 | The signature of a leaf is accepted if and only if the root is that of the tree |
| `Mss.OneRoot` | bee-signing/src/mss.rs:264 | A signature is accepted under at most one root |
| `Mss.AcceptedIsGenuineOrCollides` | bee-signing/src/mss.rs:229-265 | A signature with full siblings accepted under the root of a tree recovers the one-time public key of its leaf, or at some level of the path hashes another pair than the tree to the same hash |
| `Mss.ClimbIsGenuineOrCollides` | bee-signing/src/mss.rs:241-262 | A climb that ends at the root of a tree started from the node of the tree, or collides at some level |
| `Mss.ClimbReachesRoot` | bee-signing/src/mss.rs:241-262 | Climbing from any node along its sibling path, with sides chosen by the index bits, reaches the root, whatever follows the path |
| `Mss.SiblingPathLength` | bee-signing/src/mss.rs:189-201 | A sibling path has one node per level |
| `Mss.Generate` | bee-signing/src/mss.rs:109-157 | For every depth the builder accepts generation succeeds if and only if the depth is positive, and then yields the Merkle tree over the one-time public keys of the seed |
| `Mss.AcceptedDepthGeneratesIff` | bee-signing/src/mss.rs:81-95 | The builder accepts depth 0, for which the number of leaves underflows; every other accepted depth has one |
| `Mss.BuildGenerator` | bee-signing/src/mss.rs:81-95 | Accepts exactly depths up to 20 with a generator |
| `Mss.MssPrivateKey.Sign` | bee-signing/src/mss.rs:175-206 | Signs with the next leaf, moves the index by one, keeps the key valid; the signature is accepted; none exactly when no leaf is left |
| `Mss.BuildSignature` | bee-signing/src/mss.rs:175-206 | One-time signature, sibling path, zeros up to a fragment |
| `Mss.GenerateLevels` | bee-signing/src/mss.rs:131-148 | Every inner node becomes the hash of its two children; the leaves stay |
| `Mss.CollectSiblings` | bee-signing/src/mss.rs:189-201 | The sibling loop collects the recursive sibling path |
| `Mss.Verify` | bee-signing/src/mss.rs:229-265 | The running mask and offset compute the recursive climb |
| `Wots.WotsRoundTrip` | bee-signing/src/wots.rs:215-247 | Recovering from any signature gives the public key of the signing key |
| `Wots.ChainAdds` | bee-signing/src/wots.rs:145-155 | Hashing a chunk i then j times is hashing it i + j times |
| `Wots.AdvancedAdds` | bee-signing/src/wots.rs:141-162 | Advancing every chunk by f and then by g is advancing by their sum |
| `Wots.Sign` | bee-signing/src/wots.rs:141-162 | Chunk i of the signature is chunk i of the key hashed 13 minus the i-th tryte of the message times, for every i |
| `Wots.RecoverPublicKey` | bee-signing/src/wots.rs:215-247 | The public key is the digest of the digests of all fragments of the chunks of the signature, chunk i hashed the i-th tryte plus 13 times |
| `Wots.GeneratePublicKey` | bee-signing/src/wots.rs:108-139 | The public key is the digest of the digests of all fragments of the key, every chunk hashed 26 times |
| `Wots.AdvancedChunk` | bee-signing/src/wots.rs:141-162 | Every chunk is advanced by its own number of steps |
| `Wots.KeyDigestIsDigestOfEnds` | bee-signing/src/wots.rs:124-132 | The digest of a key takes in the digest of every fragment at its place |
| `Wots.Generate` | bee-signing/src/wots.rs:87-100 | The key of an index: the seed plus the index modulo 3 to the length, hashed, and stretched to the security level |
| `Wots.IncrementInPlace` | bee-signing/src/iota_seed.rs:80-87 | The carry loop is the successor on balanced ternary counters |
| `Wots.IncrementedValue` | bee-signing/src/iota_seed.rs:78-88 | Counting up n times adds n modulo 3 to the length |
| `Wots.SubseedsDistinct` | bee-signing/src/iota_seed.rs:74-88 | Different indices within 3 to the length count to different strings, so leaves never share a counter |
| `Wots.CurlSpongeLawful` | bee-crypto/src/sponge/curlp.rs:145-151 | Curl meets what is asked of the sponge: as many trits as requested |
| `Normalization.NormalizeHash` | bee-signing/src/normalize.rs:18-58 | Terminates; every fragment of the re-encoded result is the adjusted fragment of the hash |
| `Normalization.BalancedIsZeroSum` | bee-signing/src/normalize.rs:30-50 | An adjusted fragment sums to zero, and a fragment that does is left alone |
| `Normalization.BalancedShape` | bee-signing/src/normalize.rs:30-50 | The adjustment saturates trytes from the front, moves at most one further tryte in the same direction, leaves the rest alone, and sums to zero |
| `Normalization.LowerFirst` | bee-signing/src/normalize.rs:32-37 | The inner search lowers the first adjustable tryte, and finds one whenever the sum is positive |
| `Normalization.RaiseFirst` | bee-signing/src/normalize.rs:42-47 | The inner search raises the first adjustable tryte, and finds one whenever the sum is negative |
| `Normalization.NormalizationIdempotent` | bee-signing/src/normalize.rs:18-58 | Normalised fragments sum to zero and normalising again changes nothing |
| `Normalization.NormalizedAntichain` | bee-signing/src/wots.rs:145-148 | Of two normalised hashes neither is below the other everywhere unless they are equal |
| `Sealing.Seal` | bee-bundle/src/bundle/outgoing_bundle_builder.rs:164-206 | Succeeds exactly on sealable builders: non-empty, fields present, every partial sum within the supply, total zero, essences well-formed; panics exactly on no builder, on a sum out of range before any error, or on an essence that cannot be put together; every error reports what is the case |
| `Sealing.CalculateBundleHash` | bee-bundle/src/bundle/outgoing_bundle_builder.rs:69-145 | Stops at the least accepted number of tag increments and stores that hash in every builder |
| `Sealing.Attempt` | bee-bundle/src/bundle/outgoing_bundle_builder.rs:83-112 | Hashes the essences and rejects exactly when the normalised hash has a tryte 13 |
| `Sealing.SealedHash` | bee-bundle/src/bundle/outgoing_bundle_builder.rs:69-145 | Every bundle field is the hash of the list of all final essences, and its normal form has no tryte 13 |
| `Sealing.EssenceReads` | bee-bundle/src/transaction/builder.rs:45-86 | Address and tag stand at their places in the essence, the value decodes from its place, and where timestamp and index fit 27 trits so do they and the last index |
| `Sealing.EssenceCommits` | bee-bundle/src/transaction/builder.rs:45-86 | Where timestamps and indices fit, equal essences mean equal fields |
| `Sealing.EssenceForgetsTimestamp` | bee-bundle/src/transaction/builder.rs:45-86 | Every builder whose numbers fit shares its essence with one that differs in a timestamp that does not fit |
| `Sealing.CompleteHasEssence` | bee-bundle/src/transaction/builder.rs:45-86 | A builder with the six fields in place and of their sizes has an essence |
| `Sealing.SealedBuilder` | bee-bundle/src/bundle/outgoing_bundle_builder.rs:174-193 | Index and last index of every sealed builder, and its untouched fields |
| `Sealing.SealedFields` | bee-bundle/src/bundle/outgoing_bundle_builder.rs:164-206 | Indices run from 0 to the last, values sum to zero, nothing else moved but the first obsolete tag |
| `Sealing.SealedTag` | bee-bundle/src/bundle/outgoing_bundle_builder.rs:113-137 | The first obsolete tag moved by the number of rejected attempts modulo 3^81 |
| `Sealing.RejectedIsRejected` | bee-bundle/src/bundle/outgoing_bundle_builder.rs:83-138 | Every smaller number of increments was rejected |
| `Sealing.EveryChunkHashed` | bee-signing/src/wots.rs:145-155 | Without a tryte 13 every signature chunk is hashed at least once |
| `NumConversions.MinTrits` | bee-ternary/src/num_conversions.rs:25-35 | The least n with room for the magnitude, without leaving a u64 |
| `NumConversions.FromI64` | bee-ternary/src/num_conversions.rs:40-82 | The shortest balanced ternary string of the number, for every i64, without overflow |
| `NumConversions.TryFromTrits` | bee-ternary/src/num_conversions.rs:84-134 | Exact value when it fits, error when empty or out of range; -2^63-1 comes out as the largest i64 |
| `NumConversions.SupplyIsThirtyThreeTrits` | bee-bundle/src/constants.rs:66 | The supply is the largest number of 33 trits |
| `NumConversions.DecodeEncoded` | bee-ternary/src/num_conversions.rs:40-134 | Decoding undoes encoding for every i64, also with zero trits appended |
| `NumConversions.DecodeExactIff` | bee-ternary/src/num_conversions.rs:105-120 | Decoding is exact on a string if and only if its number is not -2^63-1 |
| `NumConversions.DecodeWrongWitness` | bee-ternary/src/num_conversions.rs:105-120 | A concrete 41-trit string that decodes to the wrong number |
| `NumConversions.TritsOfUnique` | bee-ternary/src/num_conversions.rs:40-82 | A string is what encoding yields if and only if it is the shortest for its number |
| `BigInt.FromU384` | bee-ternary/src/bigint/t243/mod.rs:48-79 | 243 digits 0, 1 or 2 whose base-three value is the 384-bit input, with nothing left over |
| `BigInt.DivideByThree` | bee-ternary/src/bigint/t243/mod.rs:67-72 | One in-place pass: old digits are three times the new plus the remainder; every quotient fits a u32 |
| `BigInt.SkipLeadingZeros` | bee-ternary/src/bigint/t243/mod.rs:57-65 | Only zero digits are skipped |
| `BigInt.DigitsFitTrits` | bee-ternary/src/bigint/t243/mod.rs:48-79 | 2^384 <= 3^243, through 2^19 < 3^12 |
| `PackedTrits.InsertExact` | bee-ternary/src/t5b1.rs:45-54 | Inserting a trit keeps the byte within its bound and changes no other trit |
| `PackedTrits.ByteIsValue` | bee-ternary/src/t5b1.rs:37-43 | A byte is the number its trits stand for, least significant first |
| `PackedTrits.CodeFormulas` | bee-ternary/src/t5b1.rs:37-54 | Extraction and insertion as computed in fixed width, with every intermediate in range |
| `PackedTrits.PutTritExact` | bee-ternary/src/t5b1.rs:91-95 | Writing a position changes that trit alone |
| `PackedTrits.SliceStart` | bee-ternary/src/t5b1.rs:97-103 | A slice of a slice starts at the sum of the starts |
| `PackedTrits.PackedBuf.Push` | bee-ternary/src/t5b1.rs:138-147 | The sequence with the trit appended |
| `PackedTrits.PackedBuf.Pop` | bee-ternary/src/t5b1.rs:149-160 | The last trit and the sequence without it; nothing from an empty buffer |
| `PackedTrits.PackedBuf.Get` | bee-ternary/src/lib.rs:119-125 | The trit of the sequence at that place of the slice, or nothing outside |
| `PackedTrits.PackedBuf.Set` | bee-ternary/src/lib.rs:127-137 | The sequence with that one trit replaced |
| `PackedTrits.PackedBuf.CopyFrom` | bee-ternary/src/lib.rs:153-160 | The sequence with exactly the slice replaced |
| `PackedTrits.PackedBuf.Encode` | bee-ternary/src/lib.rs:186-192 | The same sequence with another number of trits per byte |
| `TransactionCodec.IntoTritsAllocated` | bee-bundle/src/transaction/transaction.rs:137-225 | The fifteen writes in order, also where a number runs into the next field; where all fit, each field holds its data followed by what the buffer had there |
| `TransactionCodec.FieldsInOrder` | bee-bundle/src/constants.rs:81-95 | In the order of the format each field starts where the one before it ends, from 0 to 8019 |
| `TransactionCodec.ReadsAtPlaces` | bee-bundle/src/transaction/transaction.rs:54-135 | Every trit field is read from its literal place, trunk from 7290..7533, branch from 7533..7776 and so on |
| `TransactionCodec.ReadsNumbersAtPlaces` | bee-bundle/src/transaction/transaction.rs:54-135 | Every number decodes from its literal place |
| `TransactionCodec.WritesAtPlaces` | bee-bundle/src/transaction/transaction.rs:137-174 | Every trit field is written to its literal place |
| `TransactionCodec.WritesNumbersAtPlaces` | bee-bundle/src/transaction/transaction.rs:176-225 | Every number is written to its literal place, followed by what the buffer had there |
| `TransactionCodec.TimestampOverruns` | bee-bundle/src/transaction/transaction.rs:196-202 | A timestamp longer than its field is written whole, over the front of the index written before it |
| `TransactionCodec.ReadingDecided` | bee-bundle/src/transaction/transaction.rs:54-135 | What reading answers, by the number in the value field and the last trit of the address |
| `TransactionCodec.BuildDecided` | bee-bundle/src/transaction/builder.rs:162-172 | Exactly when the builder panics, rejects the value, rejects the address, or accepts |
| `TransactionCodec.SignedByte` | bee-protocol/src/worker/transaction/transaction.rs:93-95 | Bytes and packed trits are congruent modulo 256 |
| `TransactionCodec.PayloadBytes` | bee-protocol/src/message/compression.rs:14-15 | The sizes of the compression are those of the payload field and the whole transaction, five trits to a byte |
| `TransactionCodec.LayoutReadsBack` | bee-bundle/src/transaction/transaction.rs:54-225 | Where the numbers fit, reading the layout over zeros is validating the transaction |
| `TransactionCodec.LayoutRoundTripIff` | bee-bundle/src/transaction/transaction.rs:54-225 | The layout of an accepted transaction reads back as that transaction if and only if every number, cast to i64, fits its field |
| `TransactionCodec.LargeTimestampLost` | bee-bundle/src/transaction/transaction.rs:196-202 | An accepted transaction, with a timestamp one above (3^27 - 1) / 2, that does not read back |
| `TransactionCodec.FitsIff` | bee-bundle/src/transaction/transaction.rs:176-225 | The numbers fit exactly when each cast 27-trit number is within plus or minus (3^27 - 1) / 2 |
| `TransactionCodec.WireRoundTripIff` | bee-protocol/src/worker/transaction/transaction.rs:90-124 | Laying out, packing, compressing, uncompressing, unpacking and reading gives an accepted transaction back if and only if its numbers fit |
| `TransactionCodec.EncodeForBroadcast` | bee-bundle/src/transaction/transaction.rs:137-225 | The bytes sent are received as the builder validates the transaction where its numbers fit, and for an accepted one as itself if and only if they do |
| `TransactionCodec.PanicsIff` | bee-bundle/src/transaction/builder.rs:162-168 | Reading trits panics if and only if their value field holds the smallest i64 |
| `TransactionCodec.ReceivedPanicsIff` | bee-protocol/src/worker/transaction/transaction.rs:90-124 | A received broadcast makes its reader panic if and only if its bytes are packed trits with that value |
| `TransactionCodec.PanicWitness` | bee-protocol/src/worker/transaction/transaction.rs:90-124 | Such a broadcast of allowed size |
| `TransactionCodec.DecodeBroadcast` | bee-protocol/src/worker/transaction/transaction.rs:90-124 | What the worker makes of received bytes: nothing if some byte is no packed trits, else the transaction or its error |
| `Compression.CompressTransactionBytes` | bee-protocol/src/message/compression.rs:18-34 | Cuts exactly the zero bytes at the end of the payload part |
| `Compression.UncompressTransactionBytes` | bee-protocol/src/message/compression.rs:36-44 | Pads the payload part with zeros |
| `Compression.CompressionRoundTrip` | bee-protocol/src/message/compression.rs:18-44 | Uncompressing undoes compressing; what is sent has an allowed size |
| `Compression.UncompressionRoundTripIff` | bee-protocol/src/message/compression.rs:18-44 | Compressing undoes uncompressing if and only if the payload part does not end in a zero byte |
| `Framing.MessageHandler` | bee-protocol/src/worker/peer/peer.rs:202-258 | One call parses the old buffer plus the new bytes as the reference parser does; terminates on empty messages |
| `Framing.FragmentationIndependence` | bee-protocol/src/worker/peer/peer.rs:202-258 | However a stream is cut, frames and leftover are those of parsing it at once |
| `Framing.MessagesArrive` | bee-protocol/src/message/tlv/tlv.rs:35-72 | Encoded messages, cut in any way, are handed over and decoded in order with nothing left |
| `Framing.HandleAll` | bee-protocol/src/worker/peer/peer.rs:202-258 | Calling the handler on piece after piece hands over the frames of the whole stream |
| `Framing.ParseAccounts` | bee-protocol/src/worker/peer/peer.rs:202-258 | Frames, pending header and leftover are all the bytes received, in order, and every frame has the length of its header |
| `Framing.ParseConcat` | bee-protocol/src/worker/peer/peer.rs:202-258 | Feeding more bytes to the leftover is parsing the concatenation |
| `Framing.OnTheWire` | bee-protocol/src/message/tlv/tlv.rs:59-72 | The bytes of each message: its type number, its length with the high byte first, its fields in order |
| `Framing.DecodingDecided` | bee-protocol/src/message/tlv/tlv.rs:35-57 | What the decoder of each type answers, with its type number and sizes, in the order of its checks |
| `Framing.DispatchDecided` | bee-protocol/src/worker/peer/peer.rs:93-200 | Frames of types 3 to 6 go to their decoder, all others are ignored |
| `Framing.HeaderBigEndian` | bee-protocol/src/message/tlv/header.rs:28-41 | Type first, then the length with the high byte first |
| `Framing.U32BigEndian` | bee-protocol/src/message/v2/heartbeat.rs:52-71 | Indices have the high byte first |
| `Framing.TlvDecodeEncode` | bee-protocol/src/message/tlv/tlv.rs:35-72 | Decoding succeeds exactly on matching type, length and size, and then encoding gives the input back |
| `Framing.PayloadRoundTrip` | bee-protocol/src/message/tlv/tlv.rs:35-72 | Every well-sized message decodes from its own payload |
| `Framing.HeaderRoundTrip` | bee-protocol/src/message/tlv/header.rs:28-41 | Headers round-trip both ways |
| `Ledger.SupplyConserved` | bee-ledger/src/worker.rs:38-51 | On a ledger within the supply, applying the changes of any number of validated bundles of any length without conflict keeps the total, and no balance exceeds it |
| `Ledger.BalancedStep` | bee-ledger/src/worker.rs:38-51 | Within the supply, changes that cancel out without conflict all take effect exactly, without overflow |
| `Ledger.ChangedIff` | bee-ledger/src/worker.rs:41-49 | For every u64 balance and i64 change, casts included: a balance moves by its change if and only if the address is new and the change not negative, or the change is zero, or balance and result are both in 0..2^63-1 |
| `Ledger.ChangedCases` | bee-ledger/src/worker.rs:41-49 | What happens otherwise: an ignored change leaves the balance, a negative new balance wraps, a huge balance counts as negative, a sum out of range is none |
| `Ledger.AppliedExactIff` | bee-ledger/src/worker.rs:38-51 | On every ledger: nothing overflows and every address moves by its change if and only if that holds of every change |
| `Ledger.AppliedTotal` | bee-ledger/src/worker.rs:38-51 | Where balances and sums fit an i64, applying never loses tokens, and keeps the total up to the changes if and only if nothing conflicts |
| `Ledger.TokensCreated` | bee-ledger/src/worker.rs:38-51 | A ledger and changes that cancel out, of which one lowers an unknown address, with 2^64 tokens afterwards |
| `Ledger.TokensLost` | bee-ledger/src/worker.rs:38-51 | On the ledger this leaves behind the opposite changes, which cancel out and do not conflict, make all 2^64 tokens vanish |
| `Ledger.DiffMeaning` | bee-bundle/src/bundle/bundle.rs:58-68 | The change of an address is the sum of its values, with an entry exactly when some value is not zero; the changes total the values of the bundle |
| `Ledger.ValidatedIsValid` | bee-bundle/src/bundle/incoming_bundle_builder.rs:106-163 | What validation accepts is covered by supply conservation if and only if its sums fit an i64 |
| `Ledger.ConflictFreeUnfolds` | bee-ledger/src/worker.rs:38-51 | Free of conflicts means that no balance goes below zero at any change when its turn comes |
| `Ledger.ValidBundleIsBalanced` | bee-bundle/src/bundle/incoming_bundle_builder.rs:106-163 | The changes of a validated bundle of any length whose sums fit an i64 cancel out |
| `Ledger.Validate` | bee-bundle/src/bundle/incoming_bundle_builder.rs:106-163 | Accepts exactly consistent bundles; every error is justified by what it reports |
| `Ledger.LedgerDiff` | bee-bundle/src/bundle/bundle.rs:58-68 | The accumulated changes of a bundle of any length; none exactly when a partial sum of an address leaves an i64 |
| `Ledger.ShortSumsFit` | bee-bundle/src/bundle/bundle.rs:58-68 | No sum of a bundle of up to 3317 transactions leaves an i64 |
| `Ledger.LedgerWorker.ApplyDiff` | bee-ledger/src/worker.rs:38-51 | For any balances and any order in which the map hands out its entries: the result, and exactly when it panics |
| `Ledger.LedgerWorker.Run` | bee-ledger/src/worker.rs:59-82 | Serving messages in order: final balances, every answer, and the total conserved |
| `WaitQueue.SafeIffOneConsumer` | bee-protocol/src/util/wait_priority_queue.rs:39-70 | Over all interleavings no wake-up is lost if and only if at most one task consumes from the queue |
| `WaitQueue.RunKeepsOneConsumer` | bee-protocol/src/worker/requester/transaction.rs:81-95 | With one consumer, a parked task faced with entries has a wake outstanding, after every run |
| `WaitQueue.ConsumerProgress` | bee-protocol/src/worker/requester/transaction.rs:81-95 | After any run with entries queued the consumer can pop a maximal one by itself within two steps |
| `WaitQueue.TwoConsumersLoseAWake` | bee-protocol/src/util/wait_priority_queue.rs:39-70 | With two consumers a reachable state has a parked task, a queued entry and no wake outstanding |
| `WaitQueue.Conservation` | bee-protocol/src/util/wait_priority_queue.rs:39-70 | Over every run the entries its steps insert are the popped plus the queued ones |
| `WaitQueue.DrainsInOrder` | bee-protocol/src/util/wait_priority_queue.rs:62-63 | Between insertions entries leave by descending index |
| `WaitQueue.WaitPriorityQueue.Insert` | bee-protocol/src/util/wait_priority_queue.rs:40-47 | Adds the entry and wakes the task waiting longest, if any |
| `WaitQueue.WaitPriorityQueue.Poll` | bee-protocol/src/util/wait_priority_queue.rs:59-69 | Hands out a maximal entry, or leaves the waker when there is none |
| `HashCache.TinyHashCache.Insert` | bee-protocol/src/worker/transaction/tiny_hash_cache.rs:67-83 | For any cache that is the window over what it accepted: refuses exactly the last capacity accepted hashes, panics exactly without capacity, and stays their window, set and deque holding the same distinct hashes |
| `HashCache.RunIsWindow` | bee-protocol/src/worker/transaction/tiny_hash_cache.rs:67-83 | Over every run set and deque are the sliding window over what the reference accepts |
| `HashCache.RunAnswers` | bee-protocol/src/worker/transaction/tiny_hash_cache.rs:67-83 | After every run a hash is refused if and only if it is among the last accepted ones |
| `HashCache.AcceptedIsSpaced` | bee-protocol/src/worker/transaction/tiny_hash_cache.rs:67-83 | A hash is accepted twice only with capacity acceptances in between |
| `HashCache.OfferedIsAccepted` | bee-protocol/src/worker/transaction/tiny_hash_cache.rs:67-83 | The accepted hashes are exactly the offered ones |
| `HashCache.LastOfferInWindow` | bee-protocol/src/worker/transaction/tiny_hash_cache.rs:67-83 | A hash offered again right away is refused |
| `HashCache.WindowSlides` | bee-protocol/src/worker/transaction/tiny_hash_cache.rs:74-80 | Accepting pushes the oldest hash out of a full window |

## Left out

- The search driver of the proof of work (`search_sync`, `make_prestate`, `find_nonce`, `extract_nonce`): the transformed state is reused as the counter, so no clean promise ties the nonce to a hash.
- Kerl, Keccak, the `T242` and `I384` conversions, Ed25519: they rest on code outside the repository or on modules not modelled.
- The two trunk walks: easier forms of the depth-first walk.
- Raw-pointer layout of trit slices (`make`, transmutes, `as_i8_slice`): a slice is a byte position, an offset and a length.
- Network, storage, snapshots, configuration, handshakes, peer and broadcast workers, metrics, shutdown (also the `None` message that stops the solidifier): plumbing.
- Memory ordering and the internals of the concurrent maps: each access is one atomic step.
- The contents of messages beyond their payload bytes, and the hash and proof-of-work check of a received transaction.
- Solidification.CompleteAtQuiescence: removing solid entry points and inserting a hash twice are not steps of the protocol.
- Curl.CurlP.Transform: buffers are sequences that are swapped, not slices of memory.
- TransactionCodec.IntoTritsAllocated: works on a sequence instead of in place; the caller's buffer is the argument and the result.
- Wots.Sign: the cloned buffer is a sequence; rehashing a chunk replaces it in the sequence.
- PearlDiver.Transform: the two states are distinct objects with distinct buffers, as the borrow checker guarantees.
- Sealing.Seal: assumes that the search for a tag ends; nothing in the code bounds it.
- WaitQueue.WaitPriorityQueue.Poll: the heap is a multiset; which of several maximal entries it hands out is left open.
- HashCache.TinyHashCache.Insert: the 64-bit hash function is a parameter; collisions of different bytes count as the same hash, as in the code.
