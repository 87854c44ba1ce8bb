# x402-solana core, modelled in Dafny

This project models the on-chain programs of the x402 private-payment system:

- the **shielded pool**: its fixed-capacity incremental Merkle tree of deposit commitments (`MerkleTree`), plus the pool ledger that `deposit` and `withdraw` update;
- the **spend verifier**: the nullifier set, the structural "Groth16" check against the verification key compiled into the program, the settlement instruction `verify_spend_proof`, and the pause switch;
- the **ZK meta registry**: registration, replacement and deactivation of serialized verification keys;
- the **access controller**: access permissions that are granted after a purchase, verified before delivery, revoked, extended and batch-verified;
- the **x402 registry**: content listings, credential-discount pricing, purchases, listing updates and the platform fee.

Each program is one module: `ShieldedPool`, `SpendVerifier`, `ZkMetaRegistry`, `AccessController` and `X402Registry`. Shared definitions live in `Bytes` (bytes, 32-byte arrays, little-endian `u64`) and `Results` (`Result` and `Option`).

Each instruction is a pure function from the accounts it reads to the accounts it writes, or to the program's error code. The checks run in the program's order, so the first failing `require!` decides the error.

Hashes are parameters, so every result holds for any choice of them:

- the Merkle node hash (`poseidon_hash`, SHA-256 with a domain tag in the program) is `ShieldedPool.Hasher`;
- SHA-256 over key bytes is `ZkMetaRegistry.Sha256`.

Clock readings are parameters too, and so is the key of any account a check compares with a fixed address.

The module `IncrementalMerkle` has three parts:

- a reference definition of the Merkle tree the pool evidently intends, namely the complete binary tree over the inserted leaves padded with zero leaves;
- the places where the program departs from that tree (see "## Findings");
- a corrected insertion, proved to keep the stored root equal to the reference root for every sequence of up to `2^height` leaves. It is also proved that every inserted leaf's authentication path passes the program's own `verify_proof`.

Where a comment in the program and its code disagree, the model follows the code: `verify_proof` documents a `true` path bit as "right", but its code puts the running hash on the left for `true`, and the model does the same.

## Model

| member | source | states |
|---|---|---|
| ShieldedPool.FillZeros | contracts/programs/shielded-pool/src/lib.rs:231-234 | The zero-hash loop sets every slot below the height to the empty-subtree hash of its level. Slots at and above the height keep their old value. |
| ShieldedPool.Initialize | contracts/programs/shielded-pool/src/lib.rs:227-243 | `zeros[0]` is the zero leaf, and each later slot hashes two copies of the one below. The frontier slots below the height hold the empty-subtree hashes. The stored root is the empty-subtree hash of level `height-1`, one level short of the tree. Slots at and above the height are untouched. |
| ShieldedPool.Climb | contracts/programs/shielded-pool/src/lib.rs:252-264 | The insertion loop writes at most one frontier slot: the one at the level given by the index's trailing 1-bits. That slot gets the hash folded up from the leaf through the cached left siblings. If that level is not below the height, nothing changes. |
| ShieldedPool.InsertLeaf | contracts/programs/shielded-pool/src/lib.rs:245-268 | Fails with `IndexOutOfBounds` exactly when the index is at least `2^height`. Otherwise only the one slot described for `Climb` changes. An even index overwrites slot 0 with the leaf. The zeros and the height stay the same, and the stored root is `compute_root` of the new tree. |
| ShieldedPool.ComputeRoot | contracts/programs/shielded-pool/src/lib.rs:270-284 | The root is `filled_subtrees[0]`, climbed through levels `1..height-2` with the empty-subtree hash on the right, then hashed with `filled_subtrees[height-1]`. At heights 0 and 1 it is `filled_subtrees[0]`. |
| ShieldedPool.VerifyProof | contracts/programs/shielded-pool/src/lib.rs:291-315 | A proof or bit vector whose length differs from the height is the error `InvalidInput`, not `false`. Otherwise the answer is `true` exactly when the reference path fold reaches the given root. |
| ShieldedPool.InitializePool | contracts/programs/shielded-pool/src/lib.rs:13-23 | The ledger records a zero root, height 20, index 0 and no deposits. The tree account stays as created: height 0, a zero root, and every `zeros` and `filled_subtrees` slot zero. |
| ShieldedPool.Deposit | contracts/programs/shielded-pool/src/lib.rs:26-68 | A zero amount is refused first. Otherwise the deposit fails exactly when `next_index` is out of the tree's range. On success the leaf is inserted at `next_index`, the ledger takes the tree's recomputed root, the index advances by one, and the amount is added to the deposits. |
| ShieldedPool.Withdraw | contracts/programs/shielded-pool/src/lib.rs:71-118 | Succeeds exactly when the amount is positive, the deposits cover it and the key of the account passed as `spend_verifier` is `SPEND_VERIFIER_ID`, with the errors in that order. Only `total_deposits` changes, by the amount. |
| IncrementalMerkle.AuthPathReachesNode | contracts/programs/shielded-pool/src/lib.rs:291-315 | Folding a leaf with its authentication path, as `verify_proof` folds, reaches the reference node above that leaf at every level. |
| IncrementalMerkle.InitializeTree | contracts/programs/shielded-pool/src/lib.rs:227-243 | The corrected initialization has the same `zeros` and `filled_subtrees` as the program's `initialize`, each slot below the height being that level's empty-subtree hash. Its root is the reference root of the empty tree of that height. |
| IncrementalMerkle.Insert | contracts/programs/shielded-pool/src/lib.rs:245-268 | The corrected insertion has the same bound check and error as the program's, and keeps height and zeros. Its new frontier and root are those of the climb `Ascend`, which continues through every level instead of stopping at the first left child; `InsertStep` shows that root is the reference root. |
| IncrementalMerkle.InsertStep | contracts/programs/shielded-pool/src/lib.rs:245-268 | Inserting leaf `n` into a tree that holds leaves `0..n` in the frontier state gives the frontier state of `n+1` leaves. The root is then the reference Merkle root. |
| IncrementalMerkle.InsertAllBuildsMerkleTree | contracts/programs/shielded-pool/src/lib.rs:245-284 | Insert any sequence of up to `2^height` leaves in order into a freshly initialized tree. Every insertion succeeds, and the stored root equals the reference root of the complete tree over those leaves. |
| IncrementalMerkle.InsertedLeavesVerify | contracts/programs/shielded-pool/src/lib.rs:291-315 | For every inserted leaf, the program's `verify_proof` with the leaf's authentication path and bits returns `true` against the corrected tree's stored root. |
| IncrementalMerkle.AsWrittenRootOfTwoLeaves | contracts/programs/shielded-pool/src/lib.rs:270-284 | With two leaves in a height-2 tree, the program's root is `H(L0, H(L0, L1))`. The reference root is `H(H(L0, L1), H(0, 0))`. |
| IncrementalMerkle.AsWrittenRootIsNotMerkleRoot | contracts/programs/shielded-pool/src/lib.rs:245-284 | A concrete case where the program's root is not the Merkle root. The honest authentication path of the second leaf is then rejected. |
| IncrementalMerkle.InitializePool | contracts/programs/shielded-pool/src/lib.rs:13-23 | The corrected pool initialization creates a height-20 tree in the frontier state of no leaves. The ledger records that tree's root. |
| IncrementalMerkle.Deposit | contracts/programs/shielded-pool/src/lib.rs:26-68 | `deposit` over the corrected tree has the same checks as the program's: `InvalidAmount` for a zero amount, then `IndexOutOfBounds` exactly when the index is past the tree. The ledger records the corrected insertion's root, advances the index and adds the amount. |
| IncrementalMerkle.DepositKeepsMerkleRoot | contracts/programs/shielded-pool/src/lib.rs:26-68 | While the tree is not full, a deposit succeeds. The pool's recorded root is then the Merkle root of all commitments deposited so far. |
| IncrementalMerkle.AsWrittenPoolHoldsOneDeposit | contracts/programs/shielded-pool/src/lib.rs:13-23 | After the program's `initialize`, the first deposit succeeds but leaves the tree unchanged and the root zero. The second deposit fails with `IndexOutOfBounds`. |
| SpendVerifier.ScanFrom | contracts/programs/spend-verifier/src/lib.rs:230-232 | The scan behind `Vec::contains` finds the value exactly when it occurs at or after the starting position. |
| SpendVerifier.Contains | contracts/programs/spend-verifier/src/lib.rs:230-232 | `contains` answers exactly whether the nullifier is in the set. |
| SpendVerifier.Insert | contracts/programs/spend-verifier/src/lib.rs:234-244 | A duplicate is refused with `DoubleSpend` before capacity is checked. A full set is refused with `NullifierSetFull`. Otherwise the nullifier is appended, membership grows by exactly that value, and the no-duplicates and capacity invariant is kept. |
| SpendVerifier.InsertTwiceFails | contracts/programs/spend-verifier/src/lib.rs:234-244 | A nullifier accepted once is refused the second time with `DoubleSpend`. |
| SpendVerifier.SpendVerificationKey | contracts/programs/spend-verifier/src/lib.rs:288-310 | The embedded key has a zero `alpha_g1.x` and six `ic` points. |
| SpendVerifier.Groth16Verify | contracts/programs/spend-verifier/src/lib.rs:313-350 | An empty `ic` and a zero `pi_a.x` abort with distinct errors. Otherwise the verdict is `true` exactly when the non-zero and count conditions of the structural check all hold. |
| SpendVerifier.VerdictIgnoresSignalValues | contracts/programs/spend-verifier/src/lib.rs:313-350 | The verdict depends only on how many public signals there are, never on their values. |
| SpendVerifier.EmbeddedKeyAcceptsNothing | contracts/programs/spend-verifier/src/lib.rs:288-350 | Under the embedded key no proof is accepted. |
| SpendVerifier.Initialize | contracts/programs/spend-verifier/src/lib.rs:14-23 | The verifier starts with the embedded key, zero counters and not paused. The nullifier set starts empty. |
| SpendVerifier.DecodeAmount | contracts/programs/spend-verifier/src/lib.rs:37-40 | The amount is the little-endian `u64` of the signal's first eight bytes: re-encoding it gives those bytes back. |
| SpendVerifier.DecodeSignals | contracts/programs/spend-verifier/src/lib.rs:31-41 | Any count but five is refused with `InvalidPublicInputCount`. Otherwise root, nullifier, recipient, amount and external nullifier are read from positions 0 to 4. |
| SpendVerifier.VerifySpendProof | contracts/programs/spend-verifier/src/lib.rs:26-96 | Gives the error for each failing check, in order: paused, count, proof error, false proof, root mismatch, spent nullifier, pool error, and `NullifierSetFull` from the final insertion. When every earlier check passes, the settlement succeeds exactly when the nullifier set is below capacity. On success the proof verified, the root matched and the nullifier was new. The nullifier is appended, the pool's deposits fall by the amount, and the verifier's counters rise by one and by the amount. |
| SpendVerifier.SettlementPreservesInvariant | contracts/programs/spend-verifier/src/lib.rs:26-96 | A settlement keeps the nullifier set duplicate-free and within capacity, and the counter equal to its size. It also keeps pool deposits plus verified total constant. |
| SpendVerifier.ReplayIsRejected | contracts/programs/spend-verifier/src/lib.rs:57-79 | After a successful settlement, every later settlement naming the same nullifier fails. Replaying the identical call fails with `DoubleSpend`. |
| SpendVerifier.EmbeddedKeyBlocksSettlement | contracts/programs/spend-verifier/src/lib.rs:14-47 | With the key `initialize` installs, every unpaused settlement with five signals fails with `InvalidProof`. |
| SpendVerifier.Pause | contracts/programs/spend-verifier/src/lib.rs:99-109 | Only the authority can pause. Pausing sets the flag and changes nothing else. |
| SpendVerifier.Unpause | contracts/programs/spend-verifier/src/lib.rs:112-122 | Only the authority can unpause. Unpausing clears the flag and changes nothing else. |
| SpendVerifier.PauseLifecycle | contracts/programs/spend-verifier/src/lib.rs:151-158 | Pausing twice is pausing once, and unpausing restores the verifier. While paused, every settlement is refused with `VerifierPaused` before any other check. |
| X402Registry.DiscountFor | contracts/programs/x402-registry/src/lib.rs:193-197 | The discount of the first entry for the credential type, or 0 when there is none. |
| X402Registry.ApplyDiscount | contracts/programs/x402-registry/src/lib.rs:199-202 | One discount never raises the price. A zero discount keeps it. Up to 100%, it takes off the floor of `price·bps/10000`. At 100% or more, the saturating subtraction gives 0. |
| X402Registry.PriceLoop | contracts/programs/x402-registry/src/lib.rs:191-204 | The loop over requirements never raises the running price. |
| X402Registry.CalculatePriceWithDiscounts | contracts/programs/x402-registry/src/lib.rs:183-214 | The final price never exceeds the base price. |
| X402Registry.PriceLoopIsDiscountedPrice | contracts/programs/x402-registry/src/lib.rs:183-214 | The program's forward loop equals the reference definition that applies the last requirement's discount to the price the others leave. |
| X402Registry.PriceCompounds | contracts/programs/x402-registry/src/lib.rs:191-204 | Discounts compound in requirement order. Adding a requirement applies its discount to the price of the shorter list. |
| X402Registry.NoApplicableDiscountKeepsBasePrice | contracts/programs/x402-registry/src/lib.rs:183-214 | If the buyer holds no proof for any requirement, or those credentials carry no discount, the price is the base price. |
| X402Registry.VolumeDiscountIgnored | contracts/programs/x402-registry/src/lib.rs:206-211 | The volume discount never changes the price. |
| X402Registry.PlatformFee | contracts/programs/x402-registry/src/lib.rs:100 | The fee is `price·bps/10000` rounded down. With any fee rate the registry allows, it is at most a tenth of the price. |
| X402Registry.InitializeRegistry | contracts/programs/x402-registry/src/lib.rs:10-19 | A new registry has no listings, no revenue and a 2% fee, which satisfies the fee bound. |
| X402Registry.RegisterContent | contracts/programs/x402-registry/src/lib.rs:22-65 | The errors come in the program's order: price, hash, title, description. Registration succeeds exactly when all four checks pass. The listing takes the old count as its id, starts active with zero counters, and the count advances by one. |
| X402Registry.PurchaseContent | contracts/programs/x402-registry/src/lib.rs:68-116 | The purchase fails exactly when the listing is inactive. On success the record carries the discounted price, which is at most the base price. The listing's counters grow by one and by the price. The registry's revenue grows by the platform fee, at most a tenth of the price. |
| X402Registry.UpdateListing | contracts/programs/x402-registry/src/lib.rs:119-155 | Only the creator may update. Each field supplied is validated as at registration, with the errors in the program's order: `Unauthorized`, `InvalidPrice`, `TitleTooLong`, `DescriptionTooLong`. Each supplied field replaces the old one. Absent fields stay, the timestamp is restamped, and nothing else changes. |
| X402Registry.ListingsStayWellFormed | contracts/programs/x402-registry/src/lib.rs:22-155 | Registration creates listings with a positive price and metadata within the limits, and every accepted update keeps them so. An update that supplies nothing only restamps the listing. |
| X402Registry.SetPlatformFee | contracts/programs/x402-registry/src/lib.rs:158-179 | Only the authority may set the fee, and at most 10%. Only the fee changes. |
| X402Registry.RegistryInvariantPreserved | contracts/programs/x402-registry/src/lib.rs:158-179 | Every registry instruction keeps the platform fee within 10%. |
| AccessController.InitializeController | contracts/programs/access-controller/src/lib.rs:12-19 | A new controller records its authority and no grants. |
| AccessController.GrantAccess | contracts/programs/access-controller/src/lib.rs:22-74 | Fails with `BuyerMismatch`, then `UnauthorizedCaller` unless the key of the account passed as `caller_program` is the registry's or the spend verifier's address. On success a live permission is created, permanent or expiring `duration` after now, and the grant count rises by one. The handler's copy of the purchase record gets `access_granted` set. |
| AccessController.VerifyAccess | contracts/programs/access-controller/src/lib.rs:77-105 | Succeeds exactly when the permission is active, for this content, and not past its expiry. The errors name the first failing condition. Success counts one more access. |
| AccessController.RevokeAccess | contracts/programs/access-controller/src/lib.rs:108-133 | Only the authority or the buyer may revoke, with a reason of at most 256 bytes. Only the active flag changes, and the revoked permission grants nothing. |
| AccessController.ExtendAccess | contracts/programs/access-controller/src/lib.rs:136-165 | Only the buyer may extend, and only an active permission. The new expiry is the later of the old expiry and now, plus the extension. Permanent access becomes access ending the extension after now. |
| AccessController.BatchLoop | contracts/programs/access-controller/src/lib.rs:176-186 | The per-item loop succeeds exactly when every position has an access-permission account. Each answer is then that permission's access decision for its content hash. |
| AccessController.BatchVerifyAccess | contracts/programs/access-controller/src/lib.rs:168-195 | More than ten hashes are refused. Otherwise the batch succeeds exactly when every position has a permission account, and answer `k` is the access decision for hash `k`. |
| AccessController.BatchAgreesWithVerify | contracts/programs/access-controller/src/lib.rs:168-195 | Each batch answer is `true` exactly when `verify_access` on the same permission, content and time succeeds. |
| AccessController.RevocationIsPermanent | contracts/programs/access-controller/src/lib.rs:108-165 | An inactive permission fails verification with `AccessRevoked`. It cannot be extended, and revoking it again keeps it inactive. |
| AccessController.ExpiryIsInclusive | contracts/programs/access-controller/src/lib.rs:87-91 | Access holds at the expiry second and fails with `AccessExpired` one second later. |
| AccessController.ExtensionKeepsAccess | contracts/programs/access-controller/src/lib.rs:136-165 | A non-negative extension by the buyer never shortens timed access and leaves the permission usable now. On permanent access it imposes an expiry. |
| ZkMetaRegistry.InitializeRegistry | contracts/programs/zk-meta-registry/src/lib.rs:15-22 | A new registry records its authority and no circuits. |
| ZkMetaRegistry.RegisterVerificationKey | contracts/programs/zk-meta-registry/src/lib.rs:25-77 | The errors come in the program's order: `Unauthorized`, `CircuitNameTooLong`, `VersionTooLong`, `VerificationKeyTooLarge`, `EmptyVerificationKey`, then `InvalidVerificationKey` for a short or all-zero key. Registration succeeds exactly when the signer is the authority, the name and version fit, and the key is well formed: 32 to 8192 bytes, not all zero. The entry stores the key with its hash, active, and the count advances by one. |
| ZkMetaRegistry.RegisteredKeysAreWellFormed | contracts/programs/zk-meta-registry/src/lib.rs:36-50 | Each kind of malformed key is refused with the error that names its defect. Every stored key is well formed. |
| ZkMetaRegistry.UpdateVerificationKey | contracts/programs/zk-meta-registry/src/lib.rs:80-109 | Only the authority may update, with a version and key that fit; the errors are `Unauthorized`, `VersionTooLong` and `VerificationKeyTooLarge`, in that order. The version, key and timestamp are replaced. The name, active flag and stored hash stay. |
| ZkMetaRegistry.UpdateAcceptsEmptyKey | contracts/programs/zk-meta-registry/src/lib.rs:90-91 | An empty key that registration refuses is accepted by update. |
| ZkMetaRegistry.UpdateLeavesHashStale | contracts/programs/zk-meta-registry/src/lib.rs:80-109 | After an update, the stored hash matches the stored key exactly when the new key hashes like the old one. |
| ZkMetaRegistry.UpdateVerificationKeyRehashed | contracts/programs/zk-meta-registry/src/lib.rs:80-109 | The corrected update has the program's checks and changes, but the hash is recomputed, so the entry's hash matches its key. |
| ZkMetaRegistry.DeactivateVerificationKey | contracts/programs/zk-meta-registry/src/lib.rs:112-130 | Only the authority may deactivate. Only the active flag changes, and it becomes false. |
| ZkMetaRegistry.DeactivationIsFinal | contracts/programs/zk-meta-registry/src/lib.rs:80-130 | Deactivating an inactive entry changes nothing, and no update makes it active again. |

## Left out

- Token transfers (`token::transfer` into and out of custody) and the cross-program call mechanics are left out. `withdraw` and the settlement model only the ledger effects.
- Anchor account constraints, PDA seeds, bumps, rent and account sizes (`LEN`) are left out, except the pause constraint on `verify_spend_proof`, which is modelled because it decides an error. Other constraints can decide errors too: the `init` seeds `[b"vk_entry", circuit_name]` of `register_verification_key` (contracts/programs/zk-meta-registry/src/lib.rs:159) fail for a name over 32 bytes, the seed-length limit, before `CircuitNameTooLong` can be returned.
- Events and `msg!` logs are not state.
- The clock is a parameter, and so are the keys of signers and of the accounts passed as `caller_program` (access controller) and `spend_verifier` (shielded pool). Both of those accounts are unchecked and unsigned (contracts/programs/access-controller/src/lib.rs:236-237, contracts/programs/shielded-pool/src/lib.rs:186-187): each check only compares the key of an account the transaction passes, which neither program authenticates. Any signer can pass the expected address.
- The withdraw caller is a parameter, which hides how the programs are wired. `verify_spend_proof` passes its own state account as `spend_verifier` (contracts/programs/spend-verifier/src/lib.rs:68). The pool compares that account's key with its `SPEND_VERIFIER_ID` (contracts/programs/shielded-pool/src/lib.rs:122), which is not even the verifier's declared program id (contracts/programs/spend-verifier/src/lib.rs:7). As written, every withdrawal through the verifier therefore fails with `UnauthorizedWithdrawal` unless the state account happens to have that address. Conversely, anyone can call `withdraw` directly, passing any account at `SPEND_VERIFIER_ID`, and the check passes.
- `poseidon_hash`, SHA-256, `Fr::from_le_bytes_mod_order` and the elliptic-curve types are not modelled. Hashes are uninterpreted parameters, so no property relies on collision resistance.
- Overflow of `u64` and `i64` arithmetic (`next_index += 1`, revenue and deposit sums, `price * bps`, expiry sums) is not modelled. Integers are unbounded, and the model shows no panic where the program would abort on overflow.
- ShieldedPool.Initialize: requires `1 <= height <= 20`. Height 0 underflows at `height - 1`, and heights above 20 overrun the arrays; both panic in the program. Nothing in the program calls it.
- ShieldedPool.Deposit: requires `next_index < 2^64`, which the `u64` field guarantees.
- The access controller's helpers `verify_credential_signature` (Ed25519) and `verify_purchase_integrity` are left out. The first is never called from an instruction. The second only hashes and logs, then returns `Ok`. The branch on `purchase.amount` in `grant_access` is left out too: it reads a field the purchase record does not have, and its only effect is to call `verify_purchase_integrity`.
- AccessController.GrantAccess: the purchase record belongs to the x402 registry program (contracts/programs/access-controller/src/lib.rs:233-234), not to the access controller, so the write of `access_granted` (lines 58-59) never persists: Anchor writes back only accounts the running program owns, and the runtime would refuse a change to another program's account data. The model returns the handler's updated copy, and the stored record keeps `access_granted` false.
- AccessController.BatchVerifyAccess: a remaining account that is missing or not an access permission aborts the transaction in the program. The model reports these cases with two codes of its own, `MissingAccount` and `AccountDidNotDeserialize`.
- The token-hooks program and the placeholder `contracts` program are not part of this model.
- `get_root` only reads the stored root and has no separate model.

## Findings

| source | as written | input that shows it | evidently intended | confidence | as-written member | corrected member |
|---|---|---|---|---|---|---|
| contracts/programs/shielded-pool/src/lib.rs:245-284 | `insert_leaf` caches a hash only where the path is a left child and climbs only while it is a right child. `compute_root` folds `filled_subtrees[0]` with empty-subtree hashes and puts `filled_subtrees[height-1]` at the top. The result is not the Merkle root of the inserted leaves. | A height-2 tree with leaves `0` then `l1 != 0`, under a hash that keeps its right input. The program's root is `l1`, the Merkle root is `0`, and `verify_proof` rejects the second leaf's honest path. | The root of the complete binary tree over the inserted leaves, padded with zero leaves. | not executed | IncrementalMerkle.AsWrittenRootIsNotMerkleRoot | IncrementalMerkle.InsertAllBuildsMerkleTree |
| contracts/programs/shielded-pool/src/lib.rs:13-23 | The pool's `initialize` records a tree height of 20 but never calls `MerkleTree::initialize`, so the tree account keeps height 0. | Any two deposits with positive amounts. The first succeeds with root zero and records nothing. The second fails with `IndexOutOfBounds`. | The tree is initialized to height 20 and holds up to 2^20 commitments, each reflected in the pool's root. | not executed | IncrementalMerkle.AsWrittenPoolHoldsOneDeposit | IncrementalMerkle.DepositKeepsMerkleRoot |
| contracts/programs/zk-meta-registry/src/lib.rs:80-109 | `update_verification_key` replaces the key but keeps the old `verification_key_hash`. | Any update whose new key hashes differently from the old one: the stored hash no longer matches the stored key. | The integrity hash is recomputed from the new key. | not executed | ZkMetaRegistry.UpdateLeavesHashStale | ZkMetaRegistry.UpdateVerificationKeyRehashed |
