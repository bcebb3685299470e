# Proof-of-work node: a verified model

A model, in Dafny 4.11, of the proof-of-work parts of a Substrate node: the seal and its
verifier, the mining loop, the era of benchmark extrinsics, and the template pallet.
`dafny verify dfyconfig.toml` checks the whole project.

## What is modelled

- `LittleEndian`, `Primitives`: positional numbers, and on them the two 256-bit types. A `U256` is four
  64-bit limbs, least significant first; an `H256` is 32 raw bytes. SCALE writes a `U256` little-endian;
  a hash is read as a number big-endian; the miner's nonce is the last 8 bytes of an `H256`, big-endian.
- `Multiplication`: 256-bit multiplication with an overflow flag, by a loop over limbs with carries.
- `Sha3Pow`, `Acceptance`: the seal codec, the difficulty test, `compute`, `verify`, and exactly what they
  accept. SHA3-256 (section 6.1 of FIPS 202) is a parameter: every statement holds for every total
  function from byte strings to 32 bytes. Where a claim needs collision resistance it says instead
  "or these two different strings have the same hash".
- `MineBlock`: one mining attempt, and chains of blocks mined with it.
- `MiningLoop`, `MiningSafety`, `MiningProgress`: the mining loop as a state machine with one action per
  read, attempt, check and submission, interleaved with an environment that may replace or remove the
  template between any two of them.
- `StaleSubmissions`: which runs of it exist, undisturbed ones and ones that submit a stale seal.
- `Miner`: the loop as a class over a shared worker handle, with the nonce updated in place. Its ghost
  field `run` records the state-machine run that the execution follows; every method keeps it up to date.
- `Era`: the period, the mortal era, and the window of kept block hashes.
- `TemplatePallet`: the pallet's calls on its stored value and event log.

The worker handle belongs to a library that is not part of this model. Assumed of it: the version strictly
increases whenever the template changes (`MiningLoop.MayReplace`), each call takes effect at one moment, and
`submit` answers with an arbitrary bool. Versions are unbounded numbers.

`nonce += 1` on a `u64` wraps in the model, as in a release build. The statements about nonces are exact
modulo 2^64; those that speak of a least nonce or of distinct preimages give the no-wrap range as a hypothesis.

The pruning of old block hashes belongs to the runtime library too. Assumed of it (`Era.HashKept`): a block can look up
at least the hashes of the `BlockHashCount` blocks before it. Whatever it keeps beyond that is not part of this model.

## Results that contradict an expectation

- The comment on the minimal algorithm gives a difficulty of 1_000_000; its code returns 2. The model follows the code.
- The version check does not stop stale submissions. `SubmitWindow` says exactly when a submission is stale, and which
  comparison of versions tells that nothing was replaced since the metadata read: the version then, which the loop does not
  read, against the version at the submission. `StalePossibleExactly` shows that a stale submission for a template is
  possible if and only if some u64 nonce solves it, and `StaleSubmissionsHappen` gives the runs, one for each window.
- `verify` ignores bytes after the first 96, so one seal has many accepted byte strings (`TrailingBytesIgnored`).
- For every block hash count above 8192 and up to 2^31 the signed hash is that of the wrong block at block 1
  (`LargeCountSignsWrongBlock`); `SignsBirthBlockExactly` gives the exact counts and blocks, and
  `RuntimeAgreesWithSigner` the exact blocks of inclusion. The runtime's count is 2400, where it is always right.

## Model

| member | source | states |
|---|---|---|
| Primitives.FromLowU64Value | node/src/service.rs:273 | The nonce hash, read big-endian, is the nonce; so different nonces give different hashes. |
| Primitives.IntegerWidths | sha3pow/src/lib.rs:6 | The bounds of the 32-, 64- and 256-bit types are 2^32, 2^64 and 2^256. |
| Primitives.LimbsKeepValue | sha3pow/src/lib.rs:16 | Grouping 32 bytes into four limbs keeps the number, which is what makes reading a hash as a U256 faithful. |
| Primitives.HashOfNatRoundTrip | sha3pow/src/lib.rs:16 | Every number below 2^256 is the big-endian reading of some hash. |
| Primitives.HashIsHashOfNat | sha3pow/src/lib.rs:16 | No two hashes read as the same number. |
| Multiplication.FullMul | sha3pow/src/lib.rs:17 | The limb-by-limb product with carries, for operands of any length, is the mathematical product. |
| Multiplication.OverflowingMul | sha3pow/src/lib.rs:17 | The low limbs are the product modulo 2^256 and the flag is set exactly when the product reaches 2^256. |
| Sha3Pow.TestHashMeetsDifficulty | sha3pow/src/lib.rs:15-20 | The test by overflow flag is true exactly when hash times difficulty, as mathematical numbers, is below 2^256. |
| Sha3Pow.EncodeU256IsLittleEndian | sha3pow/src/lib.rs:26 | The 32 bytes of an encoded difficulty are its little-endian digits. |
| Sha3Pow.BytesOfU256 | sha3pow/src/lib.rs:26 | Of all 32-byte strings only the encoding stands for a given U256. |
| Sha3Pow.SealLayout | sha3pow/src/lib.rs:24-29 | The raw seal is 96 bytes: the difficulty little-endian, then the work, then the nonce. |
| Sha3Pow.ComputeLayout | sha3pow/src/lib.rs:33-42 | The hashed preimage is 96 bytes: the difficulty little-endian, then the header hash, then the nonce. |
| Sha3Pow.SealRoundTrip | sha3pow/src/lib.rs:24-29 | Decoding an encoded seal followed by anything gives the seal back and leaves exactly what followed. |
| Sha3Pow.DecodeExact | sha3pow/src/lib.rs:75-78 | Decoding fails exactly below 96 bytes; otherwise re-encoding the result gives the first 96 bytes and the rest is left over. |
| Sha3Pow.EncodeSealInjective | sha3pow/src/lib.rs:24-29 | Different seals have different bytes. |
| Sha3Pow.EncodeComputeInjective | sha3pow/src/lib.rs:33-38 | Different attempts have different preimages. |
| Acceptance.AcceptedWorkIsInterval | sha3pow/src/lib.rs:15-20 | Accepted work is exactly the hashes up to floor((2^256 - 1) / d), and all of them for difficulty zero. |
| Acceptance.AcceptedHashCount | sha3pow/src/lib.rs:15-20 | There are exactly floor((2^256 - 1) / d) + 1 accepted hashes, for every difficulty, and all 2^256 at zero. |
| Acceptance.MinimalDifficultyIsTopBit | sha3pow/src/lib.rs:61-64 | At the minimal algorithm's difficulty a hash passes exactly when its top bit is zero; half of all hashes do. |
| Acceptance.AcceptanceNested | sha3pow/src/lib.rs:15-20 | Work good enough for a difficulty is good enough for every lower one. |
| Acceptance.VerifyExact | sha3pow/src/lib.rs:66-97 | The verifier accepts exactly the strings of at least 96 bytes whose first 96 are the computed seal of a nonce whose work meets the difficulty. |
| Acceptance.PreimageIsEncoding | sha3pow/src/lib.rs:40-42 | A byte string has the layout of the preimage exactly when it is the encoding of the attempt. |
| Acceptance.VerifyOnBytes | sha3pow/src/lib.rs:66-97 | The verifier on bytes and numbers alone: bytes 0-31 are the given difficulty, little-endian; bytes 32-63 are the hash of difficulty, header hash and bytes 64-95; and that hash, big-endian, times the difficulty is below 2^256. Both directions. |
| Acceptance.TrailingBytesIgnored | sha3pow/src/lib.rs:75-78 | Appending bytes to a string of at least 96 bytes, or cutting them off, does not change whether the verifier accepts it. |
| Acceptance.AcceptedSealsAreNonces | sha3pow/src/lib.rs:66-97 | Accepted 96-byte seals and qualifying nonces are in bijection. |
| Acceptance.SealBinds | sha3pow/src/lib.rs:85-94 | A raw seal accepted under two header hashes and difficulties has equal difficulties, and equal header hashes or two explicit colliding 96-byte preimages. |
| Acceptance.AlgorithmsShareWorkNotSeals | sha3pow/src/lib.rs:61-175 | The two difficulties are 2 and 1_000_000; work for the second is work for the first, yet no raw seal is accepted by both algorithms, for any header hashes. |
| MineBlock.MineSucceedsExactly | node/src/service.rs:318-354 | An attempt returns a seal exactly when the work meets the difficulty: the second check never rejects what the first passed; the seal carries the given difficulty and nonce and is accepted by the verifier. |
| MineBlock.MineOnBytes | node/src/service.rs:318-354 | On bytes and numbers: there is a preimage of difficulty, header hash and nonce; the attempt succeeds exactly when its hash, big-endian, times the difficulty is below 2^256, and its seal is that difficulty, hash and nonce. |
| MineBlock.VerifiedIsMined | node/src/service.rs:318-354 | A string is accepted by the verifier exactly when it starts with the bytes of a seal that some attempt returns. |
| MineBlock.MinedBlockVerifies | sha3pow/src/lib.rs:66-97 | A block's seal was mined for it exactly when it is 96 bytes long and the verifier accepts it; the parent does not matter, as the verifier ignores it. |
| MineBlock.MinedChainsVerify | sha3pow/src/lib.rs:66-97 | Corollary for sequences of any length: those of 96-byte seals that verify at every block, on every node sharing an algorithm, are exactly those in which every seal was mined. |
| MineBlock.LongestIsHeaviest | node/src/service.rs:78-96 | Summed difficulty orders chains as length does, which is what the longest-chain rule uses; under the minimal algorithm the sum is twice the length. |
| MiningSafety.VersionsIncrease | node/src/service.rs:267-289 | Along every run versions never decrease; equal versions at two moments mean that nothing was replaced in between. |
| MiningSafety.SubmitWindow | node/src/service.rs:259-290 | In every interleaving a submitted seal is for the template of the iteration's metadata read and nothing changed between the two version reads. The version at the submission is the one at the first version read exactly when nothing was replaced after the second, and the one at the metadata read exactly when nothing was replaced in either unguarded window. The seal is stale exactly when the last replacement in those windows installed another template. |
| MiningSafety.CheckPassesExactly | node/src/service.rs:288-297 | An iteration that found a seal goes on to submit exactly when nothing was replaced between its two version reads; otherwise it ends with the nonce unchanged. |
| MiningSafety.SubmittedSealVerifies | node/src/service.rs:273-290 | In every run every submitted seal passes the verifier for the template it was mined for. |
| MiningSafety.SubmittedSealIsBound | node/src/service.rs:288-290 | If a submitted seal also passes for another template, the templates are equal or two explicit preimages collide. |
| MiningProgress.NonceCountsFailures | node/src/service.rs:254-297 | Along every run the nonce is the number of failed attempts and rejected submissions since the last accepted one, modulo 2^64; nothing else moves it. |
| MiningProgress.AttemptHashesPreimage | node/src/service.rs:272-284 | An attempt in a run hashes the template's difficulty and header hash and the current nonce, succeeds exactly when that hash meets the difficulty, and then holds a seal with that hash. |
| MiningProgress.AttemptsHashSameBytes | node/src/service.rs:259-297 | Since the last accepted submission any two attempts, however they end, hash the same bytes exactly when the template is the same and the failure counts agree modulo 2^64. |
| MiningProgress.FailuresHashDistinctPreimages | node/src/service.rs:273-295 | Between accepted submissions two failing iterations hash the same bytes exactly when the template is the same and a multiple of 2^64 failures lies between; fewer than 2^64 apart they never do. |
| MiningProgress.SubmittedSealsDistinct | node/src/service.rs:288-297 | Between accepted submissions no seal is submitted twice within 2^64 failures, the accepted one included. |
| MiningProgress.NothingSubmittedBefore | node/src/service.rs:254-297 | With a fixed template a run of any length submits nothing before the step that the first solving nonce reaches. |
| MiningProgress.FirstSubmission | node/src/service.rs:254-302 | With a fixed template every nonce before the first solving one is tried once, in turn, and fails; the first submission is the solving nonce's seal, at a step fixed by its distance. |
| MiningProgress.FirstSubmissionIsLeastNonce | node/src/service.rs:254-302 | Without wrapping, the first seal submitted is for the least solving nonce from the starting one on. |
| MiningProgress.SubmitsIffSolvable | node/src/service.rs:254-302 | With a fixed template, a run long enough to try all 2^64 nonces submits exactly when some nonce solves the puzzle. |
| StaleSubmissions.FixedTemplateRunsExist | node/src/service.rs:254-302 | With a fixed template the loop never gets stuck: there are runs of every length from every nonce, for either answer of `submit`. |
| StaleSubmissions.ReplacementAnywhere | node/src/service.rs:259-290 | Wherever the miner stands the template can be replaced or removed, and the miner goes on from where it stood. |
| StaleSubmissions.StaleSubmissionsHappen | node/src/service.rs:254-297 | Both windows are real: whenever any u64 nonce solves a template, two runs from the start try every nonce below the least solving one once, in turn and in vain, submit nothing, and in the next six steps submit the least solving nonce's seal after the template was replaced or removed. |
| StaleSubmissions.StalePossibleExactly | node/src/service.rs:254-297 | A stale submission for a template is possible if and only if some u64 nonce solves it. |
| StaleSubmissions.StaleAtMinimalDifficulty | node/src/service.rs:233-290 | At the difficulty the node mines at, under every hash function, it is possible if and only if some u64 nonce's hash has its top bit clear. |
| StaleSubmissions.StaleUnderZeroHash | node/src/service.rs:233-290 | Under one hash function, the constant zero, it is possible at that difficulty for every header. |
| Miner.WorkerHandle.Metadata | node/src/service.rs:259 | Gives the current template, after the worker may have replaced it with a higher version. |
| Miner.WorkerHandle.Version | node/src/service.rs:267 | Gives the current version, after the worker may have replaced the template. |
| Miner.WorkerHandle.Submit | node/src/service.rs:290 | Takes the bytes and answers with any bool. |
| Miner.NonceMiner.constructor | node/src/service.rs:254 | The loop starts with nonce 0 and an empty run. |
| Miner.NonceMiner.ReadTemplate | node/src/service.rs:259-267 | Reads metadata, then the version, as the state machine does; without metadata the pass ends. |
| Miner.NonceMiner.TryNonce | node/src/service.rs:272-284 | One attempt as the state machine makes it; the nonce moves on exactly when it fails, which ends the pass. |
| Miner.NonceMiner.SubmitIfCurrent | node/src/service.rs:288-297 | Re-reads the version and submits exactly when it is unchanged; the nonce restarts, moves on or stays with the outcome. |
| Miner.NonceMiner.Iterate | node/src/service.rs:255-302 | One pass of the loop extends the run by one complete pass of the state machine that ends as the outcome says, with the nonce and the submitted bytes of that run. |
| Miner.NonceMiner.Loop | node/src/service.rs:254-302 | Any number of passes extend the run, and follow the state machine; the nonce is the failures since the last accepted submission modulo 2^64, and all bytes submitted pass the verifier for a template that the worker held at some moment of the run. |
| Miner.SubmissionsVerify | node/src/service.rs:259-290 | The bytes submitted along any run all pass the verifier for a template that the worker held during the run. |
| Era.NextPowerIsLeast | node/src/benchmarking.rs:108-109 | The rounding used finds the least power of two that is at least its argument. |
| Era.PeriodIsLargestPowerBelow | node/src/benchmarking.rs:108-111 | For counts from 2 to 2^31 the period is the largest power of two strictly below the count; outside it is 0 or 2. |
| Era.EffectivePeriodExactly | node/src/benchmarking.rs:117-118 | For every requested period the era gets the least power of two at or above it, but at least 4 and at most 65536. |
| Era.QuantizeFactorIsLeast | node/src/benchmarking.rs:117-120 | The quantise factor is the least power of two that makes every phase of the period fit in 12 bits. |
| Era.EraPeriod | node/src/benchmarking.rs:117-118 | The era's own rounding leaves the period as it is and clamps it to 4..65536. |
| Era.BirthIsQuantizedBest | node/src/benchmarking.rs:105-120 | For every count and best block the birth block is the best block rounded down to the quantise factor; it is the best block exactly when that is a multiple. |
| Era.BirthExactly | node/src/benchmarking.rs:117-120 | From any block the birth is the latest block up to there at the era's phase modulo the period, or the first one at the phase if that is to come. |
| Era.DeathExactly | node/src/benchmarking.rs:117-120 | A later block is before the death exactly when it sees the same birth block. |
| Era.QuantizeFactorIsOne | node/src/benchmarking.rs:108-120 | At every best block the quantise factor is 1 exactly for counts up to 8192 or above 2^31. |
| Era.SignsBirthBlockExactly | node/src/benchmarking.rs:105-135 | The birth block is the block whose hash is signed at every best block if and only if the count is at most 8192 or above 2^31; for each count and block, if and only if the block is a multiple of the quantise factor. |
| Era.RuntimeAgreesWithSigner | node/src/benchmarking.rs:117-135 | From the best block on, the runtime recomputes the signed birth block exactly when the best block is a multiple of the quantise factor and the era still lasts; and it recomputes the signer's birth block exactly before the death. |
| Era.LargeCountSignsWrongBlock | node/src/benchmarking.rs:117-135 | For every count above 8192 and up to 2^31, at best block 1 the birth block is 0, not the block whose hash is signed. |
| Era.EraFitsHashWindow | node/src/benchmarking.rs:108-120 | The era is no longer than the count exactly for counts of at least 4. Under the assumed window, for counts of at least 3 all blocks that can include the extrinsic still know the birth block's hash; for smaller ones the assumption does not give it. |
| Era.RuntimeCount | runtime/src/configs/mod.rs:50 | With the runtime's count of 2400 the period is 2048 and the birth block is the best block, always. |
| TemplatePallet.Pallet.DoSomething | pallets/template/src/lib.rs:155-167 | A signed call stores the value and logs it with its signer; any other origin is refused without effect. |
| TemplatePallet.Pallet.CauseError | pallets/template/src/lib.rs:184-200 | A signed call increments a stored value below u32::MAX; without value, at the maximum or unsigned it fails without effect. |
| TemplatePallet.NothingBeforeFirstStore | pallets/template/src/lib.rs:155-200 | Over every sequence of calls nothing is stored or logged until the first successful do_something. |
| TemplatePallet.ValueIsLastEventPlusIncrements | pallets/template/src/lib.rs:155-200 | Afterwards the stored value is the last event's value plus the successful increments since, within u32::MAX. |
| TemplatePallet.FailedCallsLeaveNoTrace | pallets/template/src/lib.rs:155-200 | Along every run failed calls change neither value nor events; the log holds exactly the events of the successful stores, in order. |
| TemplatePallet.CallSucceedsExactly | pallets/template/src/lib.rs:155-200 | Along every run a do_something succeeds exactly when signed; a cause_error exactly when signed, a store came before, and the last stored event's value plus the increments since is below u32::MAX. |
| TemplatePallet.ErrorsExactly | pallets/template/src/lib.rs:155-200 | Along every run: BadOrigin exactly without a signature; NoneValue exactly for a signed cause_error before any successful store; StorageOverflow exactly for a signed one when the last stored value plus the increments since is u32::MAX. |

## Left out

- SHA3-256 itself: a parameter of every statement; no collision resistance is assumed.
- Miner.WorkerHandle.Submit: any bool may be answered, because the library that decides it is not part of this model.
- The proof-of-work library: block import, the worker that builds templates, stored total difficulty, and what `submit` does beyond answering; only the contract stated above is used.
- Sleeping, printing, logging, telemetry, networking, RPC, the transaction pool and service assembly: no effect on the modelled state.
- The panic on nonce overflow of a debug build: the model wraps, as a release build does.
- Miner.NonceMiner.Loop: runs any finite number of passes, where the source's loop never ends.
- The pre-digest and parent arguments of `verify`: the code ignores them.
- The two-byte encoding of an era, signing, and the other signed extensions of a benchmark extrinsic: library types.
- Events of calls in the genesis block, which the runtime does not deposit, and the reset of the event log between blocks.
- Call weights: constants.
- The reference tree under `pow_reference`: not used by the node.
