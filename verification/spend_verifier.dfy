/** The spend verifier program: the nullifier set, the structural "Groth16"
    check against the embedded verification key, the settlement instruction
    that turns an accepted proof into a pool withdrawal, and the pause
    switch. */
module SpendVerifier {
  import opened Bytes
  import opened Results
  import ShieldedPool

  datatype ErrorCode =
    | InvalidPublicInputCount
    | InvalidProof
    | InvalidMerkleRoot
    | DoubleSpend
    | NullifierSetFull
    | Unauthorized
    | VerifierPaused
    | InvalidPublicSignal
    | InvalidVerificationKey
      /** An error raised by the pool's `withdraw`, propagated through the
          cross-program call. */
    | PoolError(poolError: ShieldedPool.ErrorCode)

  // ---------------------------------------------------------------------------
  // NullifierSet

  /** Most nullifiers the set accepts. */
  const NULLIFIER_CAPACITY: nat := 1_000_000

  /** The `NullifierSet` account: spent nullifiers in insertion order. */
  datatype NullifierSet = NullifierSet(nullifiers: seq<Bytes32>)

  predicate NoDuplicates(s: seq<Bytes32>) {
    forall i, j | 0 <= i < j < |s| :: s[i] != s[j]
  }

  /** What every reachable nullifier set satisfies: no value twice, and never
      more than the capacity. */
  predicate SetInvariant(ns: NullifierSet) {
    NoDuplicates(ns.nullifiers) && |ns.nullifiers| <= NULLIFIER_CAPACITY
  }

  /** The scan behind `Vec::contains`, from position `i` onward. */
  function ScanFrom(s: seq<Bytes32>, x: Bytes32, i: nat): (found: bool)
    requires i <= |s|
    ensures found <==> exists j | i <= j < |s| :: s[j] == x
    decreases |s| - i
  {
    if i == |s| then false
    else if s[i] == x then true
    else ScanFrom(s, x, i + 1)
  }

  /** `NullifierSet::contains`: a linear scan, with no effect on the set. It
      answers exactly whether the value was ever inserted. */
  function Contains(ns: NullifierSet, nullifier: Bytes32): (found: bool)
    ensures found <==> nullifier in ns.nullifiers
    ensures found <==> exists i | 0 <= i < |ns.nullifiers| :: ns.nullifiers[i] == nullifier
  {
    ScanFrom(ns.nullifiers, nullifier, 0)
  }

  /** `NullifierSet::insert`: a duplicate is rejected before the capacity is
      checked; otherwise the value is appended. */
  function Insert(ns: NullifierSet, nullifier: Bytes32): (r: Result<NullifierSet, ErrorCode>)
    ensures Contains(ns, nullifier) ==> r == Err(DoubleSpend)
    ensures !Contains(ns, nullifier) && |ns.nullifiers| >= NULLIFIER_CAPACITY ==> r == Err(NullifierSetFull)
    ensures r.Ok? <==> !Contains(ns, nullifier) && |ns.nullifiers| < NULLIFIER_CAPACITY
    ensures r.Ok? ==> r.value.nullifiers == ns.nullifiers + [nullifier]
    ensures r.Ok? ==> Contains(r.value, nullifier)
    ensures r.Ok? ==> forall m :: Contains(r.value, m) <==> Contains(ns, m) || m == nullifier
    ensures r.Ok? && SetInvariant(ns) ==> SetInvariant(r.value)
  {
    if Contains(ns, nullifier) then Err(DoubleSpend)
    else if |ns.nullifiers| >= NULLIFIER_CAPACITY then Err(NullifierSetFull)
    else
      var ns' := NullifierSet(ns.nullifiers + [nullifier]);
      assert ns'.nullifiers[|ns.nullifiers|] == nullifier;
      assert forall m :: Contains(ns', m) <==> Contains(ns, m) || m == nullifier by {
        forall m
          ensures Contains(ns', m) <==> Contains(ns, m) || m == nullifier
        {
          if Contains(ns', m) {
            var i :| 0 <= i < |ns'.nullifiers| && ns'.nullifiers[i] == m;
            if i < |ns.nullifiers| {
              assert ns.nullifiers[i] == m;
            }
          }
          if Contains(ns, m) {
            var i :| 0 <= i < |ns.nullifiers| && ns.nullifiers[i] == m;
            assert ns'.nullifiers[i] == m;
          }
        }
      }
      Ok(ns')
  }

  /** A nullifier that went in once is refused the second time. */
  lemma InsertTwiceFails(ns: NullifierSet, nullifier: Bytes32)
    requires Insert(ns, nullifier).Ok?
    ensures Insert(Insert(ns, nullifier).value, nullifier) == Err(DoubleSpend)
  {
  }

  // ---------------------------------------------------------------------------
  // Curve points, keys and proofs, as raw coordinates

  datatype G1Point = G1Point(x: Bytes32, y: Bytes32)

  /** An element of the quadratic extension field: `[[u8; 32]; 2]`. */
  datatype Fp2 = Fp2(c0: Bytes32, c1: Bytes32)

  datatype G2Point = G2Point(x: Fp2, y: Fp2)

  datatype VerificationKey = VerificationKey(
    alphaG1: G1Point,
    betaG2: G2Point,
    gammaG2: G2Point,
    deltaG2: G2Point,
    ic: seq<G1Point>)

  datatype Groth16Proof = Groth16Proof(piA: G1Point, piB: G2Point, piC: G1Point)

  const ZERO_G1: G1Point := G1Point(ZERO32, ZERO32)
  const ZERO_G2: G2Point := G2Point(Fp2(ZERO32, ZERO32), Fp2(ZERO32, ZERO32))

  /** `get_spend_verification_key()`: the key compiled into the program, every
      coordinate zero, with six `ic` points for five public inputs. */
  function SpendVerificationKey(): (vk: VerificationKey)
    ensures vk.alphaG1.x == ZERO32
    ensures |vk.ic| == 6
  {
    VerificationKey(ZERO_G1, ZERO_G2, ZERO_G2, ZERO_G2, [ZERO_G1, ZERO_G1, ZERO_G1, ZERO_G1, ZERO_G1, ZERO_G1])
  }

  /** `groth16_verify(vk, proof, public_signals)`: two hard checks that abort,
      then a verdict made only of non-zero tests and counts. No pairing is
      computed, and the signal values are converted but never used. */
  function Groth16Verify(vk: VerificationKey, proof: Groth16Proof, publicSignals: seq<Bytes32>)
    : (r: Result<bool, ErrorCode>)
    ensures |vk.ic| == 0 ==> r == Err(InvalidVerificationKey)
    ensures |vk.ic| >= 1 && proof.piA.x == ZERO32 ==> r == Err(InvalidProof)
    ensures r.Ok? <==> |vk.ic| >= 1 && proof.piA.x != ZERO32
    ensures r == Ok(true) <==>
              && |vk.ic| == |publicSignals| + 1
              && |publicSignals| > 0
              && proof.piA.x != ZERO32
              && (proof.piB.x.c0 != ZERO32 || proof.piB.x.c1 != ZERO32)
              && proof.piC.x != ZERO32
              && vk.alphaG1.x != ZERO32
  {
    if |vk.ic| < 1 then Err(InvalidVerificationKey)
    else if proof.piA.x == ZERO32 then Err(InvalidProof)
    else
      var inputCount := |publicSignals|;
      var g2PointNonZero := proof.piB.x.c0 != ZERO32 || proof.piB.x.c1 != ZERO32;
      Ok(&& |vk.ic| == inputCount + 1
         && proof.piA.x != ZERO32
         && g2PointNonZero
         && proof.piC.x != ZERO32
         && vk.alphaG1.x != ZERO32
         && inputCount > 0)
  }

  /** The verdict depends on how many signals there are, never on what they
      say: a proof accepted for one statement is accepted for every other
      statement of the same size. */
  lemma VerdictIgnoresSignalValues(vk: VerificationKey, proof: Groth16Proof, s1: seq<Bytes32>, s2: seq<Bytes32>)
    requires |s1| == |s2|
    ensures Groth16Verify(vk, proof, s1) == Groth16Verify(vk, proof, s2)
  {
  }

  /** Under the embedded key nothing verifies: its `alpha_g1` is zero. */
  lemma EmbeddedKeyAcceptsNothing(proof: Groth16Proof, publicSignals: seq<Bytes32>)
    ensures Groth16Verify(SpendVerificationKey(), proof, publicSignals) != Ok(true)
  {
  }

  // ---------------------------------------------------------------------------
  // The verifier account and the settlement instruction

  /** The `SpendVerifier` account. */
  datatype Verifier = Verifier(
    authority: Pubkey,
    verificationKey: VerificationKey,
    nullifierCount: nat,
    totalVerifiedAmount: nat,
    isPaused: bool)

  /** The accounts one settlement reads and writes. */
  datatype Accounts = Accounts(verifier: Verifier, nullifierSet: NullifierSet, pool: ShieldedPool.Pool)

  /** The verifier's `initialize`: the embedded key, zero counters, and (from
      the zero-filled account) not paused. The nullifier set starts empty. */
  function Initialize(authority: Pubkey): (r: (Verifier, NullifierSet))
    ensures r.0.authority == authority && r.0.verificationKey == SpendVerificationKey()
    ensures r.0.nullifierCount == 0 && r.0.totalVerifiedAmount == 0 && !r.0.isPaused
    ensures r.1.nullifiers == [] && SetInvariant(r.1)
  {
    (Verifier(authority, SpendVerificationKey(), 0, 0, false), NullifierSet([]))
  }

  /** The five public signals of the spend circuit. */
  datatype SpendSignals = SpendSignals(
    merkleRoot: Bytes32,
    nullifierHash: Bytes32,
    recipient: Pubkey,
    amount: u64,
    externalNullifier: Bytes32)

  /** Reads the amount: `u64::from_le_bytes(signal[3][0..8])`. */
  function DecodeAmount(field: Bytes32): (amount: u64)
    ensures ToLe(amount, 8) == field[..8]
  {
    Pow256Eight();
    ToLeFromLe(field[..8]);
    FromLe(field[..8])
  }

  /** The count check and positional decoding at the top of
      `verify_spend_proof`. Neither slice conversion can fail on 32-byte
      signals, so `InvalidPublicSignal` is never raised. */
  function DecodeSignals(signals: seq<Bytes32>): (r: Result<SpendSignals, ErrorCode>)
    ensures r.Err? <==> |signals| != 5
    ensures r.Err? ==> r.error == InvalidPublicInputCount
    ensures r.Ok? ==>
              && r.value.merkleRoot == signals[0]
              && r.value.nullifierHash == signals[1]
              && r.value.recipient == signals[2]
              && ToLe(r.value.amount, 8) == signals[3][..8]
              && r.value.externalNullifier == signals[4]
  {
    if |signals| != 5 then Err(InvalidPublicInputCount)
    else Ok(SpendSignals(signals[0], signals[1], signals[2], DecodeAmount(signals[3]), signals[4]))
  }

  /** `verify_spend_proof(proof, public_signals)` as one all-or-nothing
      transition. `verifierKey` is the key of the account the call passes to
      the pool's `withdraw` as its `spend_verifier`. The token transfer and the
      event are not modelled. */
  function VerifySpendProof(acc: Accounts, verifierKey: Pubkey, proof: Groth16Proof, publicSignals: seq<Bytes32>)
    : (r: Result<Accounts, ErrorCode>)
    ensures acc.verifier.isPaused ==> r == Err(VerifierPaused)
    ensures !acc.verifier.isPaused && |publicSignals| != 5 ==> r == Err(InvalidPublicInputCount)
    ensures !acc.verifier.isPaused && |publicSignals| == 5 ==>
              var vk := acc.verifier.verificationKey;
              var sig := DecodeSignals(publicSignals).value;
              var withdrawn := ShieldedPool.Withdraw(acc.pool, sig.amount, verifierKey);
              && (Groth16Verify(vk, proof, publicSignals).Err? ==>
                    r == Err(Groth16Verify(vk, proof, publicSignals).error))
              && (Groth16Verify(vk, proof, publicSignals) == Ok(false) ==> r == Err(InvalidProof))
              && (Groth16Verify(vk, proof, publicSignals) == Ok(true) ==>
                    && (sig.merkleRoot != acc.pool.merkleRoot ==> r == Err(InvalidMerkleRoot))
                    && (sig.merkleRoot == acc.pool.merkleRoot && Contains(acc.nullifierSet, sig.nullifierHash) ==>
                          r == Err(DoubleSpend))
                    && ((sig.merkleRoot == acc.pool.merkleRoot && !Contains(acc.nullifierSet, sig.nullifierHash)
                         && withdrawn.Err?) ==> r == Err(PoolError(withdrawn.error)))
                    && ((sig.merkleRoot == acc.pool.merkleRoot && !Contains(acc.nullifierSet, sig.nullifierHash)
                         && withdrawn.Ok?) ==>
                          && (r.Ok? <==> |acc.nullifierSet.nullifiers| < NULLIFIER_CAPACITY)
                          && (|acc.nullifierSet.nullifiers| >= NULLIFIER_CAPACITY ==> r == Err(NullifierSetFull))))
    ensures r.Ok? ==>
              var sig := DecodeSignals(publicSignals).value;
              && !acc.verifier.isPaused
              && Groth16Verify(acc.verifier.verificationKey, proof, publicSignals) == Ok(true)
              && sig.merkleRoot == acc.pool.merkleRoot
              && !Contains(acc.nullifierSet, sig.nullifierHash)
              && r.value.nullifierSet.nullifiers == acc.nullifierSet.nullifiers + [sig.nullifierHash]
              && ShieldedPool.Withdraw(acc.pool, sig.amount, verifierKey) == Ok(r.value.pool)
              && r.value.pool.totalDeposits == acc.pool.totalDeposits - sig.amount
              && r.value.pool.merkleRoot == acc.pool.merkleRoot
              && r.value.verifier == acc.verifier.(nullifierCount := acc.verifier.nullifierCount + 1,
                                                   totalVerifiedAmount := acc.verifier.totalVerifiedAmount + sig.amount)
  {
    if acc.verifier.isPaused then Err(VerifierPaused)
    else
      var sig :- DecodeSignals(publicSignals);
      var verified :- Groth16Verify(acc.verifier.verificationKey, proof, publicSignals);
      if !verified then Err(InvalidProof)
      else if acc.pool.merkleRoot != sig.merkleRoot then Err(InvalidMerkleRoot)
      else if Contains(acc.nullifierSet, sig.nullifierHash) then Err(DoubleSpend)
      else match ShieldedPool.Withdraw(acc.pool, sig.amount, verifierKey)
        case Err(e) => Err(PoolError(e))
        case Ok(pool') =>
          var nullifierSet' :- Insert(acc.nullifierSet, sig.nullifierHash);
          var verifier' := acc.verifier.(nullifierCount := acc.verifier.nullifierCount + 1,
                                         totalVerifiedAmount := acc.verifier.totalVerifiedAmount + sig.amount);
          Ok(Accounts(verifier', nullifierSet', pool'))
  }

  /** What settlement keeps true: the nullifier set stays duplicate-free and
      within capacity, the nullifier counter keeps counting the set, and
      value is only moved from the pool's deposits to the verified total. */
  predicate SettlementInvariant(acc: Accounts) {
    SetInvariant(acc.nullifierSet) && acc.verifier.nullifierCount == |acc.nullifierSet.nullifiers|
  }

  lemma SettlementPreservesInvariant(acc: Accounts, verifierKey: Pubkey, proof: Groth16Proof, publicSignals: seq<Bytes32>)
    requires SettlementInvariant(acc)
    requires VerifySpendProof(acc, verifierKey, proof, publicSignals).Ok?
    ensures var acc' := VerifySpendProof(acc, verifierKey, proof, publicSignals).value;
            && SettlementInvariant(acc')
            && acc'.pool.totalDeposits + acc'.verifier.totalVerifiedAmount
               == acc.pool.totalDeposits + acc.verifier.totalVerifiedAmount
  {
    var sig := DecodeSignals(publicSignals).value;
    assert Insert(acc.nullifierSet, sig.nullifierHash).Ok?;
  }

  /** No replay: once a settlement has succeeded, no later settlement naming
      the same nullifier succeeds, whatever proof and other signals it
      carries; with the same pause state, proof and root it fails with
      `DoubleSpend`. */
  lemma ReplayIsRejected(acc: Accounts, verifierKey: Pubkey, proof: Groth16Proof, publicSignals: seq<Bytes32>,
                         verifierKey2: Pubkey, proof2: Groth16Proof, publicSignals2: seq<Bytes32>)
    requires VerifySpendProof(acc, verifierKey, proof, publicSignals).Ok?
    requires |publicSignals2| == 5 && publicSignals2[1] == publicSignals[1]
    ensures VerifySpendProof(VerifySpendProof(acc, verifierKey, proof, publicSignals).value,
                             verifierKey2, proof2, publicSignals2).Err?
    ensures VerifySpendProof(VerifySpendProof(acc, verifierKey, proof, publicSignals).value,
                             verifierKey, proof, publicSignals) == Err(DoubleSpend)
  {
    var acc' := VerifySpendProof(acc, verifierKey, proof, publicSignals).value;
    var sig := DecodeSignals(publicSignals).value;
    assert Contains(acc'.nullifierSet, sig.nullifierHash) by {
      assert acc'.nullifierSet.nullifiers[|acc.nullifierSet.nullifiers|] == sig.nullifierHash;
    }
  }

  /** With the key `initialize` installs, every well-sized settlement fails
      with `InvalidProof`. */
  lemma EmbeddedKeyBlocksSettlement(acc: Accounts, verifierKey: Pubkey, proof: Groth16Proof, publicSignals: seq<Bytes32>)
    requires acc.verifier.verificationKey == SpendVerificationKey()
    requires !acc.verifier.isPaused && |publicSignals| == 5
    ensures VerifySpendProof(acc, verifierKey, proof, publicSignals) == Err(InvalidProof)
  {
  }

  // ---------------------------------------------------------------------------
  // Pause switch

  /** `pause_verifier`: the authority, and only the authority, sets the flag. */
  function Pause(v: Verifier, signer: Pubkey): (r: Result<Verifier, ErrorCode>)
    ensures signer != v.authority ==> r == Err(Unauthorized)
    ensures signer == v.authority ==> r.Ok? && r.value.isPaused
    ensures r.Ok? ==> r.value.(isPaused := v.isPaused) == v
  {
    if signer != v.authority then Err(Unauthorized) else Ok(v.(isPaused := true))
  }

  /** `unpause_verifier`: the authority, and only the authority, clears the flag. */
  function Unpause(v: Verifier, signer: Pubkey): (r: Result<Verifier, ErrorCode>)
    ensures signer != v.authority ==> r == Err(Unauthorized)
    ensures signer == v.authority ==> r.Ok? && !r.value.isPaused
    ensures r.Ok? ==> r.value.(isPaused := v.isPaused) == v
  {
    if signer != v.authority then Err(Unauthorized) else Ok(v.(isPaused := false))
  }

  /** Pausing twice is pausing once, unpausing undoes pausing on an unpaused
      verifier, and while paused every settlement is refused before any other
      check. */
  lemma PauseLifecycle(acc: Accounts, verifierKey: Pubkey, proof: Groth16Proof, publicSignals: seq<Bytes32>)
    requires !acc.verifier.isPaused
    ensures var paused := Pause(acc.verifier, acc.verifier.authority).value;
            && Pause(paused, acc.verifier.authority) == Ok(paused)
            && Unpause(paused, acc.verifier.authority) == Ok(acc.verifier)
            && VerifySpendProof(acc.(verifier := paused), verifierKey, proof, publicSignals) == Err(VerifierPaused)
  {
  }
}
