/** The verification-key registry program: the authority registers a
    serialized verification key per circuit, may replace it, and may
    deactivate it. */
module ZkMetaRegistry {
  import opened Bytes
  import opened Results

  datatype ErrorCode =
    | Unauthorized
    | CircuitNameTooLong
    | VersionTooLong
    | VerificationKeyTooLarge
    | EmptyVerificationKey
    | InvalidVerificationKey

  const MAX_CIRCUIT_NAME_LEN: nat := 32
  const MAX_VERSION_LEN: nat := 16
  const MAX_KEY_LEN: nat := 8192
  const MIN_KEY_LEN: nat := 32

  /** SHA-256 over a byte string; its internals are not modelled. */
  type Sha256 = seq<byte> -> Bytes32

  /** The `ZkMetaRegistry` account. */
  datatype Registry = Registry(authority: Pubkey, circuitCount: nat)

  /** The `VerificationKeyEntry` account. Names and versions are UTF-8 byte
      strings; their limits are in bytes. */
  datatype Entry = Entry(
    circuitName: seq<byte>,
    circuitVersion: seq<byte>,
    verificationKey: seq<byte>,
    verificationKeyHash: Bytes32,
    registeredAt: int,
    isActive: bool)

  /** What registration accepts as a key: between 32 and 8192 bytes, and at
      least one byte not zero. */
  predicate WellFormedKey(data: seq<byte>) {
    MIN_KEY_LEN <= |data| <= MAX_KEY_LEN && exists i | 0 <= i < |data| :: data[i] != 0
  }

  /** The stored hash is the hash of the stored key. */
  predicate HashIntact(sha: Sha256, e: Entry) {
    e.verificationKeyHash == sha(e.verificationKey)
  }

  /** The registry's `initialize`. */
  function InitializeRegistry(authority: Pubkey): (r: Registry)
    ensures r.authority == authority && r.circuitCount == 0
  {
    Registry(authority, 0)
  }

  /** `register_verification_key`, with the checks in the program's order. */
  function RegisterVerificationKey(sha: Sha256, registry: Registry, signer: Pubkey, circuitName: seq<byte>,
                                   circuitVersion: seq<byte>, keyData: seq<byte>, now: int)
    : (r: Result<(Registry, Entry), ErrorCode>)
    ensures signer != registry.authority ==> r == Err(Unauthorized)
    ensures signer == registry.authority && |circuitName| > MAX_CIRCUIT_NAME_LEN ==> r == Err(CircuitNameTooLong)
    ensures (signer == registry.authority && |circuitName| <= MAX_CIRCUIT_NAME_LEN
             && |circuitVersion| > MAX_VERSION_LEN) ==> r == Err(VersionTooLong)
    ensures (signer == registry.authority && |circuitName| <= MAX_CIRCUIT_NAME_LEN && |circuitVersion| <= MAX_VERSION_LEN
             && |keyData| > MAX_KEY_LEN) ==> r == Err(VerificationKeyTooLarge)
    ensures (signer == registry.authority && |circuitName| <= MAX_CIRCUIT_NAME_LEN && |circuitVersion| <= MAX_VERSION_LEN
             && |keyData| == 0) ==> r == Err(EmptyVerificationKey)
    ensures (signer == registry.authority && |circuitName| <= MAX_CIRCUIT_NAME_LEN && |circuitVersion| <= MAX_VERSION_LEN
             && 0 < |keyData| <= MAX_KEY_LEN && !WellFormedKey(keyData)) ==> r == Err(InvalidVerificationKey)
    ensures r.Ok? <==> && signer == registry.authority
                       && |circuitName| <= MAX_CIRCUIT_NAME_LEN && |circuitVersion| <= MAX_VERSION_LEN
                       && WellFormedKey(keyData)
    ensures r.Ok? ==>
              var (registry', entry) := r.value;
              && registry' == registry.(circuitCount := registry.circuitCount + 1)
              && entry == Entry(circuitName, circuitVersion, keyData, sha(keyData), now, true)
              && HashIntact(sha, entry)
  {
    if signer != registry.authority then Err(Unauthorized)
    else if |circuitName| > MAX_CIRCUIT_NAME_LEN then Err(CircuitNameTooLong)
    else if |circuitVersion| > MAX_VERSION_LEN then Err(VersionTooLong)
    else if |keyData| > MAX_KEY_LEN then Err(VerificationKeyTooLarge)
    else if |keyData| == 0 then Err(EmptyVerificationKey)
    else if |keyData| < MIN_KEY_LEN then Err(InvalidVerificationKey)
    else if AllZero(keyData) then Err(InvalidVerificationKey)
    else
      var entry := Entry(circuitName, circuitVersion, keyData, sha(keyData), now, true);
      Ok((registry.(circuitCount := registry.circuitCount + 1), entry))
  }

  /** `update_verification_key`: replaces version and key and restamps the
      entry, but checks neither emptiness nor zero bytes and does not
      recompute the stored hash. */
  function UpdateVerificationKey(registry: Registry, entry: Entry, signer: Pubkey, newVersion: seq<byte>,
                                 keyData: seq<byte>, now: int)
    : (r: Result<Entry, ErrorCode>)
    ensures signer != registry.authority ==> r == Err(Unauthorized)
    ensures signer == registry.authority && |newVersion| > MAX_VERSION_LEN ==> r == Err(VersionTooLong)
    ensures (signer == registry.authority && |newVersion| <= MAX_VERSION_LEN
             && |keyData| > MAX_KEY_LEN) ==> r == Err(VerificationKeyTooLarge)
    ensures r.Ok? <==> signer == registry.authority && |newVersion| <= MAX_VERSION_LEN && |keyData| <= MAX_KEY_LEN
    ensures r.Ok? ==>
              && r.value.circuitVersion == newVersion && r.value.verificationKey == keyData && r.value.registeredAt == now
              && r.value.circuitName == entry.circuitName
              && r.value.verificationKeyHash == entry.verificationKeyHash
              && r.value.isActive == entry.isActive
  {
    if signer != registry.authority then Err(Unauthorized)
    else if |newVersion| > MAX_VERSION_LEN then Err(VersionTooLong)
    else if |keyData| > MAX_KEY_LEN then Err(VerificationKeyTooLarge)
    else Ok(entry.(circuitVersion := newVersion, verificationKey := keyData, registeredAt := now))
  }

  /** `deactivate_verification_key`: only the active flag changes. */
  function DeactivateVerificationKey(registry: Registry, entry: Entry, signer: Pubkey): (r: Result<Entry, ErrorCode>)
    ensures r.Ok? <==> signer == registry.authority
    ensures r.Err? ==> r.error == Unauthorized
    ensures r.Ok? ==> !r.value.isActive && r.value.(isActive := entry.isActive) == entry
  {
    if signer != registry.authority then Err(Unauthorized)
    else Ok(entry.(isActive := false))
  }

  /** Every key registration stores is well formed, and the rejected keys
      are refused with the error their defect names. */
  lemma RegisteredKeysAreWellFormed(sha: Sha256, registry: Registry, circuitName: seq<byte>,
                                    circuitVersion: seq<byte>, keyData: seq<byte>, now: int)
    requires |circuitName| <= MAX_CIRCUIT_NAME_LEN && |circuitVersion| <= MAX_VERSION_LEN
    ensures var r := RegisterVerificationKey(sha, registry, registry.authority, circuitName, circuitVersion, keyData, now);
            && (|keyData| > MAX_KEY_LEN ==> r == Err(VerificationKeyTooLarge))
            && (|keyData| == 0 ==> r == Err(EmptyVerificationKey))
            && (0 < |keyData| < MIN_KEY_LEN ==> r == Err(InvalidVerificationKey))
            && ((MIN_KEY_LEN <= |keyData| <= MAX_KEY_LEN && AllZero(keyData)) ==> r == Err(InvalidVerificationKey))
            && (r.Ok? ==> WellFormedKey(r.value.1.verificationKey))
  {
  }

  /** Update accepts key data that registration refuses: an empty key. */
  lemma UpdateAcceptsEmptyKey(sha: Sha256, registry: Registry, entry: Entry, now: int)
    ensures RegisterVerificationKey(sha, registry, registry.authority, entry.circuitName, [], [], now)
            == (if |entry.circuitName| <= MAX_CIRCUIT_NAME_LEN then Err(EmptyVerificationKey) else Err(CircuitNameTooLong))
    ensures UpdateVerificationKey(registry, entry, registry.authority, [], [], now).Ok?
  {
  }

  /** After an update with a key of a different hash, the stored hash no
      longer matches the stored key. */
  lemma UpdateLeavesHashStale(sha: Sha256, registry: Registry, entry: Entry, newVersion: seq<byte>,
                              keyData: seq<byte>, now: int)
    requires HashIntact(sha, entry)
    requires UpdateVerificationKey(registry, entry, registry.authority, newVersion, keyData, now).Ok?
    ensures HashIntact(sha, UpdateVerificationKey(registry, entry, registry.authority, newVersion, keyData, now).value)
            <==> sha(keyData) == sha(entry.verificationKey)
  {
  }

  /** `update_verification_key` as evidently intended: the same checks and
      changes as the program's, with the stored hash recomputed from the new
      key, so that the entry's integrity hash describes its key again. */
  function UpdateVerificationKeyRehashed(sha: Sha256, registry: Registry, entry: Entry, signer: Pubkey,
                                         newVersion: seq<byte>, keyData: seq<byte>, now: int)
    : (r: Result<Entry, ErrorCode>)
    ensures r.Ok? <==> signer == registry.authority && |newVersion| <= MAX_VERSION_LEN && |keyData| <= MAX_KEY_LEN
    ensures r.Err? ==> r == UpdateVerificationKey(registry, entry, signer, newVersion, keyData, now)
    ensures r.Ok? ==>
              && HashIntact(sha, r.value)
              && r.value.verificationKey == keyData && r.value.circuitVersion == newVersion
              && r.value.(verificationKeyHash := entry.verificationKeyHash)
                 == UpdateVerificationKey(registry, entry, signer, newVersion, keyData, now).value
  {
    var e :- UpdateVerificationKey(registry, entry, signer, newVersion, keyData, now);
    Ok(e.(verificationKeyHash := sha(e.verificationKey)))
  }

  /** Deactivation is idempotent, and no instruction on an entry turns it
      active again. */
  lemma DeactivationIsFinal(registry: Registry, entry: Entry, signer: Pubkey, newVersion: seq<byte>,
                            keyData: seq<byte>, now: int)
    requires !entry.isActive
    ensures DeactivateVerificationKey(registry, entry, signer).Ok? ==>
              DeactivateVerificationKey(registry, entry, signer).value == entry
    ensures UpdateVerificationKey(registry, entry, signer, newVersion, keyData, now).Ok? ==>
              !UpdateVerificationKey(registry, entry, signer, newVersion, keyData, now).value.isActive
  {
  }
}
