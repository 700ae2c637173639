# Giffy, verified

A Dafny model of the parts of Giffy where several independently written pieces of code have to
agree, with proofs of what they keep over every run:

* the **shielded pool**: a contract that keeps an O(depth) frontier instead of a tree, a circuit that
  folds a path, a browser that rebuilds the whole tree, an indexer that feeds it, and a verifier; from
  the emitted constraints to the pool's balance, and from a deposit's event to its withdrawal;
* **Poseidon2**, written out three times, and the **constraint system** that encodes it;
* the **gift escrow**: many gifts, one contract account per token;
* the **address check** in the browser: base32 without masking, and a bitwise CRC-16;
* the **cached gift status** in the backend, and the **note secret** on its way through a claim link.

`dafny verify dfyconfig.toml` checks everything.

## How the model is built

Each contract call is one atomic step: a call that panics leaves no trace, and the host forbids
re-entry. Contracts, services and in-place algorithms are classes and methods with loops
(`ShieldedPool.Pool`, `EscrowContract.Escrow`, `CircuitSynthesis.ConstraintSystem`, `AuthPath`,
`PoolIndexer.Store`, `GiftCache.GiftDocument`). Each is proved against a specification function or a
step function on values, and the run theorems are about those.

* *Tree depth* is a parameter everywhere (the code uses 8), and so is the 2-to-1 hash.
* *Raw values and field elements.* The contract stores, compares and burns 32-byte values; the circuit
  works on field elements. `Encoding.Scheme` relates the two by `decode` and `encode`, and decoding may
  identify several raw values. The contract and its runs (`ShieldedPool`, `PoolRuns`) are over raw
  values, the value theorems (`PoolSolvency`) over both, and `CircuitPool` instantiates the scheme with
  32-byte numbers, reduction modulo a prime that fits in them, and Poseidon2.
* *No assumption about the hash.* Agreement (frontier, paths, history) holds for an arbitrary hash. What
  rests on collision resistance says: the claim holds, or two different pairs that this run's trees and
  accepted witnesses hashed have one hash, or one of them hashes to the empty leaf (`Merkle.Collision`
  on `PoolSolvency.Hashed`). At Poseidon2 these are pairs of reduced field elements
  (`CircuitPool.FieldCollision`). Under a symbolic hash the alternative never occurs
  (`PoolSolvency.SymbolicPoolIsSolvent`, `PoolRuns.SymbolicRootIsKnown`). The root-history conditions ask for the absence of just such a collision
  among the trees of the deposits (`Merkle.IdealOn`).
* *Second encodings.* That withdrawals never exceed deposits holds as long as no two burnt values encode one
  field element (`PoolSolvency.Unaliased`), and the theorems say so in their conclusions. Calls that name the
  canonical encoding of their nullifier never burn two encodings; a caller can check that beforehand (a value
  below the modulus, `CircuitPool.CanonicalIff`), the contract does not. `PoolSolvency.NotesSpentOnce` is the
  exact statement for arbitrary calls, and `CircuitAlias.OneNoteTwoEncodings` shows that the exception is real.
* *Proofs.* Acceptance is a predicate. `PoolSolvency.Sound` says that what is accepted has a witness, as a
  function gives it, and `SealedGift.Complete` that what has a witness can be proved. At the circuit both are
  derived from "some assignment satisfies the emitted constraints" (`CircuitPool.CircuitVerifierIsSound`,
  `CircuitPool.CircuitProverIsComplete`). A verifier that traps counts as one that refuses: either way the call leaves no trace.
* *The modulus* is any prime where the proofs need one; `Poseidon2.ModulusFits` places the code's
  modulus among those the injectivity theorem covers, given that it is prime.
* *Tokens* follow the standard token interface (SEP-0041, Specification section) with i128 balances.
  Anybody may transfer tokens between any calls, except out of the contracts' own accounts.
* *What a call does, from outside.* Beside the step functions stand statements that do not mention them:
  which faults a call checks for and in which order (`PoolCalls.WithdrawDecided`, `EscrowCalls.CallDecided`:
  the outcome is the first fault that is there, or success), whose balance moves and by how much
  (`PoolCalls.RunPays`, `EscrowCalls.StepPays`), that nobody loses money without having signed for it
  (`NobodyElsePays` in both), what is remembered of a run (`PoolCalls.RunRemembers`, `EscrowCalls.RunOrigin`,
  `RunRecords`, `RunUnlocks`) and what is published (`PoolCalls.RunPublishes`).
* `require_auth` means: the address signed the call and is not the contract itself.

## Where code and documentation disagree

* The repository's README claims that the contract prevents double spends by its nullifiers
  (README.md:691). The contract burns 32-byte values (contracts/shielded-pool/src/lib.rs:198, 212) and the
  verifier sees what they decode to (contracts/groth16-verifier/src/lib.rs:84). Where decoding reduces
  modulo the field order, one note can be withdrawn under two encodings of one nullifier:
  `CircuitAlias.OneNoteTwoEncodings` gives the run, `CircuitAlias.SecondEncodingIff` says which nullifiers have
  a second encoding (all of them, with the code's modulus), `CircuitAlias.SecondEncodingPasses` that the
  Groth16 verifier lets it through, and `PoolSolvency.NotesSpentOnce` that withdrawals match notes one to one
  exactly when no two burnt values decode alike.
* The browser's address check is there so that a mistyped address is caught (frontend/src/lib/stellarAddress.ts:4-7).
  `StrKey.ThreeNeighbours` says exactly which changes of up to three neighbouring characters it misses: none
  of one or two characters and no swap among them, but four changes of three, at two places where the
  little-endian checksum meets the payload (`StrKey.NotEveryThree`).
* A page of events says that its `latestLedger` is exclusive of what was returned
  (chain/src/shieldedPool.ts:37). The next sync starts *at* that ledger. The model follows the code;
  the upserts make the overlap harmless.
* `isValidPublicKey` promises a well-formed Stellar public key (frontend/src/lib/stellarAddress.ts:44).
  It never looks at the low three bits of the version byte: `StrKey.EveryPayloadHasKey` gives an
  accepted string for each of the eight version bytes from 48 to 55, and `StrKey.VersionByteIff` says
  exactly when the version byte is the one of Stellar Strkeys (SEP-0023, Specification section).
* Both mixing matrices of Poseidon2 are meant to be invertible. That is false for small moduli;
  `Poseidon2.MixInjectiveIff` gives the exact condition, with colliding states for the others.
* Once the cache shows a gift as closed, a reconciliation that read the chain earlier can still write
  an older status back. `GiftCache.FinalIff` says exactly when the cached status is final.

## Model

| member | source | states |
|---|---|---|
| Merkle.PathFolds | zk-circuits/src/lib.rs:58-67 | for every hash and tree, siblings and bits read off the tree at any index fold, level by level, to the tree's nodes above that leaf |
| Merkle.AppendElsewhere | contracts/shielded-pool/src/lib.rs:144-155 | a new leaf changes no node off its own path to the root |
| Merkle.Locate | zk-circuits/src/lib.rs:58-67 | where no two pairs hashed by the tree and the fold collide, any path that folds to a node of the tree starts at one of its leaves, at a position below that node |
| AuthPath.ComputeZeros | frontend/src/lib/merkleTree.ts:38-45 | entry i is the hash of the empty subtree of height i |
| AuthPath.HashRow | frontend/src/lib/merkleTree.ts:70-74 | pairwise hashing of a whole row of tree nodes gives the whole row above |
| AuthPath.BuildAuthPath | frontend/src/lib/merkleTree.ts:52-79 | the rebuilt root is the recursive root of the zero-padded tree, and each sibling and bit is the one the tree has on the leaf's path |
| AuthPath.AuthPathFolds | frontend/src/lib/merkleTree.ts:65-78 | a path that matches the tree folds, as the prover folds it, to the root of the tree |
| ShieldedPool.LeftStep | contracts/shielded-pool/src/lib.rs:145-148 | at a left child everything to the right is still empty, and the node becomes the frontier's entry |
| ShieldedPool.RightStep | contracts/shielded-pool/src/lib.rs:149-152 | at a right child the frontier's entry is the completed left sibling, and it stays |
| ShieldedPool.Insert | contracts/shielded-pool/src/lib.rs:140-155 | from a frontier that remembers the last completed left children, the loop computes the recursive root of the extended full tree and the frontier of the extended tree |
| ShieldedPool.HistoryGrows | contracts/shielded-pool/src/lib.rs:160-165 | pushing the new root and dropping from the front leaves exactly the last min(n+1, 32) of the roots r_0 .. r_n |
| ShieldedPool.AppendRoot | contracts/shielded-pool/src/lib.rs:161-165 | the trimming loop keeps exactly the newest 32 roots |
| ShieldedPool.Pool.Initialize | contracts/shielded-pool/src/lib.rs:91-117 | stores the given configuration and key and sets up the empty tree's frontier, zeros and history, once; a second call is refused and changes nothing |
| ShieldedPool.Pool.Deposit | contracts/shielded-pool/src/lib.rs:121-173 | frontier, zeros, index and bounded root list behave as the list of all commitments: the outcome, error or new leaf with its event, is that of the step on values; a success moves the denomination from the depositor to the pool and no other balance, and a failure changes nothing |
| ShieldedPool.Pool.Append | contracts/shielded-pool/src/lib.rs:137-172 | once paid for, a commitment becomes the next leaf, its event is published with its index, and the bounded storage still describes all leaves |
| ShieldedPool.Pool.Withdraw | contracts/shielded-pool/src/lib.rs:177-221 | accepts against the history of the roots of the deposits so far, only if the configured verifier accepts the signals with the stored key; burns the raw nullifier, publishes it, and moves the denomination from the pool to the recipient and no other balance; every failure leaves storage, balances and events unchanged |
| ShieldedPool.Pool.CurrentRoot | contracts/shielded-pool/src/lib.rs:224-227 | the stored last root is the recursive root of all deposits |
| Encoding.NodeDecodes | contracts/shielded-pool/src/lib.rs:75-81 | the tree of raw values that the contract hashes, decoded, is the tree of field elements over the decoded leaves |
| PoolRuns.RunAnnounces | contracts/shielded-pool/src/lib.rs:168-171 | in every run the published deposit events are exactly the leaves of the tree, in order, each with its index |
| PoolCalls.DepositDecided | contracts/shielded-pool/src/lib.rs:121-137 | a deposit is refused for the first of: no signature, negative amount, too little money, overflow of the pool, full tree; and succeeds if none of them is there |
| PoolCalls.WithdrawDecided | contracts/shielded-pool/src/lib.rs:177-221 | a withdrawal is refused for the first of: not one of the roots after the last 31 deposits or now, burnt nullifier, refused proof, negative amount, too little money, overflow of the recipient; and succeeds if none of them is there |
| PoolCalls.RunPays | contracts/shielded-pool/src/lib.rs:121-221 | every successful call of every run moves one amount: from the depositor to the pool, from the pool to the recipient; no other balance of any token moves, and a failing call moves nothing |
| PoolCalls.RunKeepsSupply | contracts/shielded-pool/src/lib.rs:121-221 | no run changes the sum of the balances of any token |
| PoolCalls.NobodyElsePays | contracts/shielded-pool/src/lib.rs:121-136 | in every run, whoever signs no deposit and makes no transfer of their own loses nothing of any token |
| PoolCalls.RunPublishes | contracts/shielded-pool/src/lib.rs:168-220 | the log of a run is one event for each successful call, in order: a deposit publishes its commitment with its index, a withdrawal its nullifier |
| PoolCalls.RunRemembers | contracts/shielded-pool/src/lib.rs:137-213 | after every run the tree is the commitments of the successful deposits, in order, and the burnt set is the nullifiers of the successful withdrawals, all different |
| PoolSolvency.PassedIsDeposited | contracts/shielded-pool/src/lib.rs:191-209 | what passes the root and proof checks shows the nullifier of a deposited note, unless something hashed collides |
| PoolSolvency.SpentLeaves | contracts/shielded-pool/src/lib.rs:197-213 | the field elements that the burnt values stand for map injectively to deposited leaves, so there are at most as many |
| PoolSolvency.NotesSpentOnce | contracts/shielded-pool/src/lib.rs:197-213 | for the code as it is, in every run: decoded nullifiers have deposits of their own and never exceed them, and there are as many of them as withdrawals exactly when no two burnt values decode alike |
| PoolSolvency.PoolIsSolvent | contracts/shielded-pool/src/lib.rs:121-221 | in every run, unless something it hashed collides or two burnt values encode one field element (never, if the calls are canonical), every successful withdrawal has a deposited leaf of its own and withdrawals never exceed deposits; and in any case the pool's balance is exactly what it had plus denom times (deposits minus payouts) plus gifts from outside |
| PoolSolvency.PayoutNeverShort | contracts/shielded-pool/src/lib.rs:177-221 | at any point of any run, with the same two exceptions, a withdrawal that passes root, nullifier and proof checks does not fail for lack of funds |
| PoolSolvency.AliasPasses | contracts/shielded-pool/src/lib.rs:197-213 | where a withdrawal passes the root and proof checks, any other value that decodes to the same nullifier is refused exactly if that value itself is burnt, and is otherwise paid whenever the transfer goes through |
| PoolSolvency.SymbolicPoolIsSolvent | contracts/shielded-pool/src/lib.rs:121-221 | over the free term algebra, where nothing collides and nothing has two encodings, solvency holds of every run without exception |
| CircuitPool.CircuitVerifierIsSound | zk-circuits/src/lib.rs:85-131 | for a verifier that accepts only satisfiable constraint systems, witnesses made of reduced field elements can be extracted from whatever it accepts |
| CircuitPool.HashedInField | zk-circuits/src/lib.rs:52-81 | every pair that a run's trees and extracted witnesses hash consists of reduced field elements |
| CircuitPool.CircuitPoolIsSolvent | zk-circuits/src/lib.rs:85-131 | from constraints to money: for every prime modulus that fits in 32 bytes, every depth, such verifier and extracted witnesses, every run is solvent, or two different pairs of reduced field elements that it hashed have one Poseidon2 hash (or one hashes to 0), or two burnt values are equal modulo p, which calls with nullifiers below p exclude |
| CircuitPool.CircuitProverIsComplete | zk-circuits/src/lib.rs:52-131 | a prover for every satisfiable constraint system can prove whatever any integers open, reduced or not |
| CircuitPool.NoteInField | zk-circuits/src/lib.rs:52-81 | the raw commitment and nullifier of a redemption are the numbers that Poseidon2 gives for the secret with 0 and with 1 |
| CircuitPool.RedeemCircuitGift | frontend/src/lib/poolClient.ts:110-137 | the end-to-end theorem of a sealed gift at the circuit and Poseidon2, with the collision among reduced field elements |
| CircuitAlias.SecondEncodingIff | contracts/shielded-pool/src/lib.rs:75-77 | a canonical 32-byte value has a second encoding exactly when adding the modulus stays within 32 bytes |
| CircuitAlias.CodeModulusHasAliases | contracts/shielded-pool/src/lib.rs:197-213 | with the code's modulus every note's nullifier has a second encoding that the contract can receive |
| CircuitAlias.Groth16SeesDecoded | contracts/groth16-verifier/src/lib.rs:76-88 | a pool with the Groth16 verifier cannot tell two encodings of a nullifier apart |
| CircuitAlias.SecondEncodingPasses | contracts/shielded-pool/src/lib.rs:197-213 | with that verifier, where a withdrawal passes, the same call with the order added to its nullifier is refused exactly if that value itself is burnt, and is otherwise paid whenever the transfer goes through |
| CircuitAlias.OneNoteTwoEncodings | contracts/shielded-pool/src/lib.rs:197-213 | for every modulus with room for a second encoding, every depth and secret, a pool whose verifier accepts only what satisfies the circuit pays twice for one deposit, with the nullifier written as n and as n + p |
| PoolRuns.RootsAgreeIff | contracts/shielded-pool/src/lib.rs:141-166 | where nothing the trees hashed collides, two prefixes of the deposits have the same root exactly when only empty commitments separate them |
| PoolRuns.KnownRootIff | contracts/shielded-pool/src/lib.rs:160-195 | under the same condition the root after k deposits passes the known-root check exactly when only empty commitments separate it from the last 32 roots |
| PoolRuns.KnownForThirtyOneDeposits | contracts/shielded-pool/src/lib.rs:160-195 | followed by a nonempty commitment, a root stays known through exactly 31 deposits |
| PoolRuns.SymbolicRootIsKnown | contracts/shielded-pool/src/lib.rs:160-195 | over the free term algebra the 31 deposits hold of every list of deposits that fits the tree |
| Field.FifthPowerInjective | contracts/shielded-pool/src/poseidon.rs:58-62 | the S-box is injective modulo a prime p with p mod 5 not 1 |
| Poseidon2.ArkInBounds | contracts/shielded-pool/src/poseidon.rs:101-143 | every round reads its constants in bounds and the index ends at 81 |
| Poseidon2.ConstantsCountUp | contracts/shielded-pool/src/poseidon.rs:46-56 | the round constants count up from 1 and the diagonal from 2, modulo the prime |
| Poseidon2.FullRoundIs | contracts/shielded-pool/src/poseidon.rs:104-117 | a full round adds its three constants, takes fifth powers and applies the circulant matrix (2, 1, 1) |
| Poseidon2.PartialRoundIs | contracts/shielded-pool/src/poseidon.rs:119-128 | a partial round does that to the first lane only and applies the all-ones matrix with (2, 3, 4) added to its diagonal |
| Poseidon2.HashIsChain | contracts/shielded-pool/src/poseidon.rs:88-146 | the hash is the first lane at the end of the one chain of 66 states that starts with the mix of (a, b, 0) and follows 65 explicit formulas |
| Poseidon2.MixInjectiveIff | contracts/shielded-pool/src/poseidon.rs:64-85 | for a prime modulus the external mix is injective exactly when p is not 2, the internal one exactly when p is neither 2 nor 5 |
| Poseidon2.PermutationInjective | contracts/shielded-pool/src/poseidon.rs:88-146 | all 65 rounds together are injective on states, for every prime p above 5 with p mod 5 not 1 |
| Poseidon2.ModulusFits | frontend/src/lib/shieldedNote.ts:13-16 | the code's modulus is above 5 and not 1 modulo 5 |
| Poseidon2.HashReduces | contracts/shielded-pool/src/poseidon.rs:88-146 | the hash sees its inputs only modulo the prime |
| PoseidonCopies.BuildParams | contracts/shielded-pool/src/poseidon.rs:46-56 | the pushed vectors hold exactly the 81 round constants and the 3 diagonal entries of the specification |
| PoseidonCopies.Hash2Contract | contracts/shielded-pool/src/poseidon.rs:88-146 | the unrolled on-chain loops compute the specified permutation for all inputs |
| PoseidonCopies.Hash2Native | zk-circuits/src/poseidon2.rs:51-82 | the array loops compute the same function |
| R1cs.SelectValue | zk-circuits/src/lib.rs:115-117 | in every satisfying assignment a conditional selection is the branch its bit says |
| R1cs.BooleanValue | zk-circuits/src/lib.rs:112-114 | in every satisfying assignment a boolean witness is 0 or 1 |
| R1cs.EqualityMeaning | zk-circuits/src/lib.rs:120-124 | the emitted equality equation holds exactly when the two values agree |
| HashGadget.SboxValue | zk-circuits/src/poseidon2.rs:86-90 | three multiplications constrain their output to the fifth power |
| HashGadget.Hash2Gadget | zk-circuits/src/poseidon2.rs:105-138 | the emitted constraints force the output to the native hash in every satisfying assignment, and every assignment of the inputs extends to one |
| WithdrawCircuit.CircuitSound | zk-circuits/src/lib.rs:85-131 | from any satisfying assignment one reads off a secret, siblings and bits that open the public root and nullifier |
| WithdrawCircuit.CircuitComplete | zk-circuits/src/lib.rs:52-131 | from any opening one builds a satisfying assignment, for any recipient |
| WithdrawCircuit.CircuitMeaning | zk-circuits/src/lib.rs:52-131 | the emitted system is satisfiable for given public inputs exactly when some secret, siblings and bits make `assign` return that root and nullifier |
| WithdrawCircuit.RecipientIsBound | zk-circuits/src/lib.rs:126-128 | one witness satisfies the emitted system for one recipient signal only, or for its negative |
| CircuitSynthesis.ConstraintSystem.Hash | zk-circuits/src/poseidon2.rs:105-138 | the loops over a mutable array emit exactly the specified shape |
| CircuitSynthesis.ConstraintSystem.GenerateConstraints | zk-circuits/src/lib.rs:85-131 | what the loop emits into a shared system is satisfiable exactly for the statements `assign` can produce |
| CircuitSynthesis.Assign | zk-circuits/src/lib.rs:52-81 | the folding loop returns the root and nullifier that its secret and path open |
| Groth16.NegateByOrder | contracts/groth16-verifier/src/lib.rs:90-94 | multiplying by (0 - 1) in the scalar field negates a point |
| Groth16.CheckDecides | contracts/groth16-verifier/src/lib.rs:96-112 | the one-sided multi-pairing check holds exactly when the Groth16 equation does |
| Groth16.AcceptsModOrder | contracts/groth16-verifier/src/lib.rs:76-88 | signals that agree modulo the group order are accepted alike |
| Groth16.CombinedRaised | contracts/groth16-verifier/src/lib.rs:76-88 | raising signal i by one adds IC[i + 1] to the combination of the signals, in any commutative group |
| Groth16.CombinedOfZeros | contracts/groth16-verifier/src/lib.rs:76-88 | with all signals 0 the combination is IC[0] |
| Groth16.CombinedIsTheOne | contracts/groth16-verifier/src/lib.rs:76-88 | whatever has these two properties is the combination, on all signals |
| Groth16.AcceptsInExponents | contracts/groth16-verifier/src/lib.rs:76-112 | for key and proof written as multiples of generators, what is accepted is the equation ab = alpha beta + (IC[0] + sum of s[i] IC[i + 1]) gamma + c delta modulo the order |
| Groth16.Verify | contracts/groth16-verifier/src/lib.rs:70-113 | traps exactly when the key has the wrong length, and otherwise accepts exactly when the Groth16 equation holds, for any number of signals; what the combination in it computes is `CombinedIsTheOne` |
| PoolIndexer.DepositSplits | chain/src/shieldedPool.ts:71-93 | which deposits come before a ledger is decided by their own ledger |
| PoolIndexer.GetPoolDepositEvents | chain/src/shieldedPool.ts:58-97 | paging collects every deposit from the start ledger on, once and in leaf order, whatever other events fill the pages |
| PoolIndexer.Store.Sync | backend/src/services/poolIndexerService.ts:31-65 | a sync by itself indexes exactly the deposits of the stored cursor's ledger or later, on a first scan those of ledger latest minus look-back or later; it keeps what was there, counts the new ones and stores the latest ledger |
| PoolIndexer.SortSorts | chain/src/shieldedPool.ts:95-96 | in whatever order events come, they are put in leaf order, and none is lost or doubled |
| PoolIndexer.FirstScanFinds | backend/src/services/poolIndexerService.ts:38-41 | a first scan finds a deposit exactly when its ledger is at least latest minus look-back |
| PoolIndexer.FirstScanCompleteIff | backend/src/services/poolIndexerService.ts:38-41 | a first scan leaves nothing out exactly when there are no deposits or latest minus look-back is at most the ledger of the first one |
| PoolIndexer.GetOrderedCommitments | backend/src/services/poolIndexerService.ts:73-91 | whatever subset is indexed: an exact prefix of the on-chain leaves if there is no gap, and otherwise the first missing index |
| IndexerRuns.StepKeepsInv | backend/src/services/poolIndexerService.ts:35-59 | every read, page, upsert, cursor write, failure and new ledger keeps the indexing invariant |
| IndexerRuns.IndexIsComplete | backend/src/services/poolIndexerService.ts:31-65 | in every interleaving of any number of syncs, if first scans reach back far enough, the index is at all times a gap-free prefix of the true deposits that covers the stored cursor, even where the cursor moves backwards |
| IndexerRuns.LoneSyncCompletes | backend/src/services/poolIndexerService.ts:31-65 | from any point of any interleaving, a sync that nothing interrupts runs to its end, after which exactly the deposits on chain are indexed and the cursor is the latest ledger; only a first scan has to look back far enough |
| SealedGift.PrepareWithdraw | frontend/src/lib/poolClient.ts:110-137 | finds the first occurrence of the note or reports that it is missing; otherwise the path opens the root of the served list, and the sanity check on roots never fires for a list that fits the tree |
| SealedGift.LogListsLeaves | chain/src/shieldedPool.ts:76-87 | in every run the deposits read from a log of the contract's events are the commitments in the contract's tree |
| SealedGift.RedeemFromIndex | frontend/src/lib/poolClient.ts:110-137 | from any indexed subset of the deposits the recipient gets nothing, exactly when there is a gap or the note is not indexed, or else an opening of the root the contract had after exactly as many deposits as the list is long |
| SealedGift.RecipientCanWithdraw | contracts/shielded-pool/src/lib.rs:177-221 | in every run, whoever opens a list at most 31 deposits old with an unburnt nullifier has a proof whose withdrawal moves the denomination from the pool to the recipient, or fails only by overflow of the recipient's balance, unless something hashed collides or one field element is burnt in two encodings |
| SealedGift.RedeemSealedGift | frontend/src/lib/poolClient.ts:110-137 | end to end: the pool runs, its events are indexed by interleaved syncs, the recipient prepares a withdrawal from the served list, the pool runs on: refused exactly when the note is not indexed yet, and otherwise payable while the note is unspent and the list at most 31 deposits behind |
| GiftEscrow.ContributeNeverTraps | contracts/gift-escrow/src/lib.rs:70-91 | after the payment in, the additions of a contribution cannot overflow |
| GiftEscrow.ClaimNeverShort | contracts/gift-escrow/src/lib.rs:116-155 | a claim that passes its checks is never short of funds |
| GiftEscrow.PaidAllIsPaid | contracts/gift-escrow/src/lib.rs:178-181 | the refund's end state credits every contributor with exactly their share, debits the account with the total and touches nothing else |
| EscrowContract.Escrow.NextGiftId | contracts/gift-escrow/src/storage.rs:16-21 | ids count up from 1 and trap at the end of u64 |
| EscrowContract.Escrow.CreateGift | contracts/gift-escrow/src/lib.rs:23-68 | keeps the ledger invariant and has exactly the specified outcome, error or new state |
| EscrowContract.Escrow.ContributeTo | contracts/gift-escrow/src/lib.rs:70-91 | the same for a contribution |
| EscrowContract.Escrow.UnlockNextStep | contracts/gift-escrow/src/lib.rs:93-114 | the same for unlocking a step |
| EscrowContract.Escrow.ClaimGift | contracts/gift-escrow/src/lib.rs:116-155 | has exactly the specified outcome, with the record written before the transfer; on success the receiver signed in time and met the condition, and the total moved to them |
| EscrowContract.Escrow.PayShares | contracts/gift-escrow/src/lib.rs:178-181 | in whatever order the map is iterated, the loop pays everybody or fails exactly when some contributor's balance would overflow |
| EscrowContract.Escrow.RefundGift | contracts/gift-escrow/src/lib.rs:157-185 | has exactly the specified outcome and never runs short; on success a contributor signed at or after the expiry, and each got back what they paid in |
| EscrowCalls.CallDecided | contracts/gift-escrow/src/lib.rs:23-185 | at any point of any run, each entry point fails with the first of its faults that is there, in the order of its checks, and succeeds if none is |
| EscrowCalls.ClosedRightly | contracts/gift-escrow/src/lib.rs:116-185 | in every run, of a token whose supply fits in i128: a call turns an open gift into a claimed one exactly if its receiver signed it before the expiry and gave an answer with the right hash or all steps are done, as the condition asks; and into a refunded one exactly if somebody who paid in signed it at or after the expiry |
| EscrowCalls.StepPays | contracts/gift-escrow/src/lib.rs:23-185 | every successful call moves exactly what it says: a creation or contribution from its signer to the account, a claim the whole total to the receiver, a refund to each contributor what they paid in; no other balance of any token moves |
| EscrowCalls.NobodyElsePays | contracts/gift-escrow/src/lib.rs:23-91 | in every run, whoever signs no creation or contribution and makes no transfer of their own loses nothing |
| EscrowCalls.RunOrigin | contracts/gift-escrow/src/lib.rs:23-68 | every gift of every run was created by a call that its sender signed, with exactly the receiver, token, expiry, condition, unlocker and message it has |
| EscrowCalls.RunRecords | contracts/gift-escrow/src/lib.rs:23-91 | what a record says that somebody has paid in is exactly what their successful calls paid in |
| EscrowCalls.RunUnlocks | contracts/gift-escrow/src/lib.rs:93-114 | the recorded steps are exactly the successful calls that the gift's unlocker signed |
| EscrowRuns.StepConserves | contracts/gift-escrow/src/lib.rs:23-185 | no call changes what the account holds beyond its open gifts, except by what outsiders send |
| EscrowRuns.EscrowIsSolvent | contracts/gift-escrow/src/lib.rs:23-185 | in every run, per token, the account holds exactly the totals of the open gifts plus what it never owed |
| EscrowRuns.NeverShort | contracts/gift-escrow/src/lib.rs:70-185 | in every run no claim or refund fails for lack of funds and no contribution traps |
| EscrowRuns.RunKeepsSupply | contracts/gift-escrow/src/lib.rs:23-185 | no run changes the sum of all balances of a token |
| EscrowRuns.PayoutsSucceed | contracts/gift-escrow/src/lib.rs:116-185 | if a token's supply fits in i128, in every run a claim or refund in it succeeds exactly when it passes its checks |
| EscrowRuns.PayoutsAreTransfers | contracts/gift-escrow/src/lib.rs:144-181 | a recorded payout is exactly the movement of balances |
| EscrowRuns.RunEvolves | contracts/gift-escrow/src/lib.rs:70-198 | over any run a gift's terms never change, its steps only grow, and a closed gift stays as it is |
| EscrowRuns.PaidOnce | contracts/gift-escrow/src/lib.rs:116-198 | in every run a gift's money leaves at most once: all of it to the receiver strictly before expiry, or each contributor's own sum at or after expiry; and its total is always the sum of its contributions |
| Base32.ShiftIn | frontend/src/lib/stellarAddress.ts:20-24 | the bits that matter survive a shift whatever is left above them in the 32-bit word |
| Base32.FeedReads | frontend/src/lib/stellarAddress.ts:12-26 | after any number of groups the accumulator's waiting bits and the output are the right ones, although nothing is ever masked |
| Base32.Decode | frontend/src/lib/stellarAddress.ts:12-29 | null exactly for strings with a foreign character, and otherwise the floor(5n/8) bytes read off the groups |
| Base32Code.SameBitStream | frontend/src/lib/stellarAddress.ts:12-29 | bit i of the decoded bytes is bit i of the groups written one after the other |
| Base32Code.DecodeEncode | frontend/src/lib/stellarAddress.ts:12-29 | decoding inverts the encoding of section 6 of RFC 4648 on whole blocks |
| Base32Code.EncodeDecode | frontend/src/lib/stellarAddress.ts:12-29 | encoding inverts decoding on whole blocks |
| Crc16.Compute | frontend/src/lib/stellarAddress.ts:31-42 | the two loops compute the checksum function |
| Crc16.CrcLinear | frontend/src/lib/stellarAddress.ts:31-42 | the checksum is linear under XOR of messages of equal length |
| Crc16.CrcResidue | frontend/src/lib/stellarAddress.ts:31-42 | appending the checksum, high byte first, leaves residue zero |
| CrcPolynomial.CrcIsRemainder | frontend/src/lib/stellarAddress.ts:31-42 | the checksum is the remainder of the message times x^16 modulo x^16+x^12+x^5+1 over GF(2), and the only one |
| CrcPolynomial.CrcBurst | frontend/src/lib/stellarAddress.ts:31-42 | messages that differ only within 16 neighbouring bits have the same checksum exactly when they are equal |
| StrKey.AcceptedIff | frontend/src/lib/stellarAddress.ts:45-56 | accepted strings are exactly the base32 texts of 33 payload bytes, the first from 48 to 55, followed by their checksum, low byte first |
| StrKey.AlphabetIsStandard | frontend/src/lib/stellarAddress.ts:10 | the alphabet is that of section 6 of RFC 4648: A to Z stand for 0 to 25, 2 to 7 for 26 to 31, and there are no others |
| StrKey.IsValidPublicKey | frontend/src/lib/stellarAddress.ts:45-56 | true on those texts and nowhere else |
| StrKey.VersionByteIff | frontend/src/lib/stellarAddress.ts:44-56 | an accepted key has the public-key version byte exactly when its second character is A, B, C or D |
| StrKey.EveryPayloadHasKey | frontend/src/lib/stellarAddress.ts:44-56 | keys with the seven other version bytes are accepted too |
| StrKey.ThreeNeighbours | frontend/src/lib/stellarAddress.ts:45-56 | changing up to three neighbouring characters of an accepted address gives another accepted one exactly when it keeps the shape and the 5-bit groups change by one of four triples, at characters 50 to 52 or 52 to 54 |
| StrKey.NotEveryThree | frontend/src/lib/stellarAddress.ts:51-55 | next to every accepted address there is another that differs in three neighbouring characters |
| StrKey.TwoNeighbours | frontend/src/lib/stellarAddress.ts:4-7 | changing two neighbouring characters of an accepted address, to anything, gives a rejected string |
| StrKey.SwapIsCaught | frontend/src/lib/stellarAddress.ts:4-7 | swapping two different characters of an accepted address that are at most two places apart gives a rejected string |
| StrKey.OneWrongCharacter | frontend/src/lib/stellarAddress.ts:4-7 | changing any one character of an accepted address gives a rejected string |
| NoteLink.GenerateSecret | frontend/src/lib/shieldedNote.ts:34-43 | the printed secret has two lower-case hex digits for each random byte, and its value is below the order and congruent to the bytes' big-endian value |
| NoteLink.MintedOnce | frontend/src/lib/shieldedNote.ts:34-43 | no other string has that property |
| NoteLink.SameSecretIff | frontend/src/lib/shieldedNote.ts:34-43 | two buffers of one length mint the same secret exactly when their values are congruent modulo the order |
| NoteLink.ParsedIsCongruent | zk-prover-wasm/src/lib.rs:19-26 | the parsed element is below the order and congruent to the value of the digits |
| NoteLink.ParsesIff | zk-prover-wasm/src/lib.rs:19-37 | which strings are parsed and which make the prover panic: once leading `0x` are gone, at most n pairs of two digits, or of a plus sign and a digit |
| NoteLink.TrimmedIs | zk-prover-wasm/src/lib.rs:20 | every leading `0x` is taken off, and nothing else |
| NoteLink.ParsedValue | zk-prover-wasm/src/lib.rs:19-37 | whatever string is parsed, with prefixes and plus signs, the element is congruent to the value of its digits |
| NoteLink.CarriedIsDecoded | frontend/src/lib/shieldedNote.ts:54-58 | a secret that the fragment carries as the value of `s`, after `#` or `&`, is read in lower case, provided no equals sign comes before |
| NoteLink.DecodedIsCarried | frontend/src/lib/shieldedNote.ts:54-58 | whatever is read was carried that way |
| NoteLink.DecodesFirstMatch | frontend/src/lib/shieldedNote.ts:54-58 | of several matches the leftmost is read, and nothing exactly when there is none |
| NoteLink.LinkRoundTrip | frontend/src/lib/shieldedNote.ts:50-58 | the secret read from a claim link's fragment is the one put in, and what comes before the fragment is the origin and the claim page |
| NoteLink.FrRoundTrip | zk-prover-wasm/src/lib.rs:19-33 | parsing a printed field element gives it back |
| NoteLink.HexRoundTripIff | zk-prover-wasm/src/lib.rs:19-33 | printing a parsed 64-digit string gives it back exactly when it is lower-case and reduced |
| NoteLink.PrintBytes | zk-prover-wasm/src/lib.rs:38-44 | the loop prints two digits for each byte, in order |
| NoteLink.SecretArrives | frontend/src/lib/shieldedNote.ts:34-58 | for all random bytes the minted secret is what is read from the link, and the prover parses it to the field element that is below the order and congruent to the bytes' value |
| GiftCache.OverwrittenIsTruthful | backend/src/services/reconciliationService.ts:34-46 | however old the record that is written back, nothing the document then says is untrue of the gift as it has become, and gate and expiry are kept |
| GiftCache.ReconciledIsUpToDate | backend/src/services/reconciliationService.ts:24-63 | a reconciliation that nothing interrupts leaves status, amount and steps as they are on chain, whatever the document said before |
| GiftCache.ChecksAsOnChain | backend/src/services/claimService.ts:100-125 | with an up-to-date document, the backend lets through exactly those claims, with the receiver's signature and the right answer, that the contract allows |
| GiftCache.RefusalDecided | backend/src/services/claimService.ts:100-225 | a claim is refused for the first fault of the record: claimed, marked or refunded or expired, steps missing; and for nothing else |
| GiftCache.RefusalIsTrue | backend/src/services/claimService.ts:204-225 | what a refusal says is so, on chain or by the stored expiry and steps |
| GiftCache.MarkedIsRefundable | backend/src/services/refundService.ts:35-42 | a gift that is marked, if still open, can be refunded by its sender |
| GiftCache.GiftDocument.Overwrite | backend/src/services/reconciliationService.ts:34-46 | the write leaves a document that matches the record it was made from and is true of every state the gift can have reached since |
| GiftCache.GiftDocument.MarkRefundPending | backend/src/services/refundService.ts:35-42 | only a gift still active and expired is marked, and the result says whether it was |
| GiftCache.CacheIsTruthful | backend/src/services/reconciliationService.ts:24-63 | in every interleaving after activation a cached `claimed` or `refunded` is true on chain, and cached steps are at most the chain's, which are at most the gate's total |
| GiftCache.StepCheckIsEnough | backend/src/services/claimService.ts:120-145 | a claim that passes the cached checks never fails on the contract's step equality, however much happens before it is submitted |
| GiftCache.FinalIff | backend/src/services/reconciliationService.ts:24-63 | once cached as closed, the status is final in every interleaving exactly when no reconciliation with an older record is still to be written |

## Left out

- Curve arithmetic, pairings, SHA-256, proving and trusted setup: library or host code, represented by
  an abstract group, a function parameter or an acceptance predicate.
- Cryptographic hardness: theorems name the collision that would refute them; soundness and completeness of
  the proof system are hypotheses.
- The link between `recipient` and `recipient_signal`: the contract does not re-derive it
  (contracts/shielded-pool/src/lib.rs:23-25), so nothing is claimed about who may redirect a proof.
- Whether the host reduces a 32-byte scalar modulo the field order or rejects it: host code; `decode` is a
  parameter, and `CircuitPool` takes it to be reduction.
- PoolSolvency.PoolIsSolvent: promises nothing about withdrawals against deposits where two burnt values encode
  one field element; there it is false, by `CircuitAlias.OneNoteTwoEncodings`.
- PoolSolvency.PayoutNeverShort: the same exception, for the same reason.
- Primality of the BLS12-381 scalar field order: a hypothesis of the theorems that need it.
- The converse of the S-box theorem (p mod 5 equal to 1 makes it collide): it concerns moduli the code does not use.
- R1cs.Lin: the gadget library's own simplification of linear combinations and its choice of variable
  order are not modelled; a linear combination is its expression, and its value is what counts.
- IndexerRuns.Step: concurrent syncs and the database are a state machine on values; what a single
  `updateOne` does inside the database is one step, and a failed upsert ends that sync.
- PoolIndexer.WellLogged: the RPC node is assumed to serve complete ranges in ledger order with a cursor
  on every full page; retention limits of a node are not modelled.
- GiftCache.System: one document of one gift; the drafting phase before activation, several create
  submissions for one draft, and amounts as decimal text are not modelled.
- GiftCache.ChecksAsOnChain: the answer and claimant checks of the backend are hypotheses there; how an answer is
  normalized before it is hashed is text processing.
- NoteLink.SecretArrives: `n` bytes instead of 32, which the code's buffers fix; the origin must not contain `#`.
- Soroban storage lifetimes, the escrow's events, instruction budgets and fees.
- Error-code tables, display helpers, request handling, database connection, wallet and page code.
