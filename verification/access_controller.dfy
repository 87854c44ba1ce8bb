/** The access controller program: access permissions granted after a
    purchase, checked before content is delivered, revoked, and extended. */
module AccessController {
  import opened Bytes
  import opened Results
  import X402Registry

  datatype ErrorCode =
    | BuyerMismatch
    | UnauthorizedCaller
    | AccessRevoked
    | ContentMismatch
    | AccessExpired
    | Unauthorized
    | ReasonTooLong
    | TooManyItems
      /** Not one of the program's own codes: the account at that position
          is not an access permission, and the framework refuses it. */
    | AccountDidNotDeserialize
      /** Not one of the program's own codes: the batch names more content
          hashes than it passes accounts, and indexing past the end aborts
          the transaction. */
    | MissingAccount

  const MAX_REASON_LEN: nat := 256
  const MAX_BATCH_ITEMS: nat := 10

  /** The registry program allowed to grant access (base58 `EUJBVNXk…GJxHn`). */
  const X402_REGISTRY_ID: Pubkey :=
    [200, 38, 9, 208, 63, 207, 3, 170, 113, 185, 98, 188, 146, 53, 161, 96,
     211, 13, 34, 35, 128, 139, 47, 42, 89, 153, 22, 126, 77, 206, 193, 65]

  /** The spend verifier program allowed to grant access (base58 `55FvRWv7…MjyW`). */
  const SPEND_VERIFIER_ID: Pubkey :=
    [60, 133, 241, 56, 13, 137, 78, 75, 63, 178, 107, 9, 69, 237, 252, 201,
     233, 158, 213, 53, 62, 59, 64, 22, 194, 212, 201, 218, 243, 124, 181, 213]

  /** The `AccessController` account. */
  datatype Controller = Controller(authority: Pubkey, totalAccessGrants: nat)

  /** The `AccessPermission` account; `expiresAt == None` is permanent access. */
  datatype AccessPermission = AccessPermission(
    buyer: Pubkey,
    contentHash: Bytes32,
    grantedAt: int,
    expiresAt: Option<int>,
    isActive: bool,
    accessCount: nat)

  /** The reference meaning of a permission: it is live, for this content,
      and `now` is not past its expiry (the expiry second itself counts). */
  predicate HasAccess(p: AccessPermission, contentHash: Bytes32, now: int) {
    p.isActive && p.contentHash == contentHash && (p.expiresAt.None? || now <= p.expiresAt.value)
  }

  /** The key comparison `grant_access` makes on `caller_program`. That
      account is not a signer and nothing authenticates it, so passing the
      check only shows that the transaction supplied an account with one of
      these two addresses. */
  predicate AuthorizedCaller(program: Pubkey) {
    program == X402_REGISTRY_ID || program == SPEND_VERIFIER_ID
  }

  /** The controller's `initialize`. */
  function InitializeController(authority: Pubkey): (c: Controller)
    ensures c.authority == authority && c.totalAccessGrants == 0
  {
    Controller(authority, 0)
  }

  /** `grant_access`: the purchase must belong to the buyer and the key of
      the account passed as `caller_program` must be the registry's or the
      spend verifier's address. The returned purchase record is the handler's
      copy with `access_granted` set. */
  function GrantAccess(controller: Controller, purchase: X402Registry.PurchaseRecord, callerProgram: Pubkey,
                       buyer: Pubkey, contentHash: Bytes32, accessDuration: Option<int>, now: int)
    : (r: Result<(Controller, AccessPermission, X402Registry.PurchaseRecord), ErrorCode>)
    ensures purchase.buyer != buyer ==> r == Err(BuyerMismatch)
    ensures purchase.buyer == buyer && !AuthorizedCaller(callerProgram) ==> r == Err(UnauthorizedCaller)
    ensures r.Ok? <==> purchase.buyer == buyer && AuthorizedCaller(callerProgram)
    ensures r.Ok? ==>
              var (controller', access, purchase') := r.value;
              && controller' == controller.(totalAccessGrants := controller.totalAccessGrants + 1)
              && purchase' == purchase.(accessGranted := true)
              && access.buyer == buyer && access.contentHash == contentHash && access.grantedAt == now
              && access.isActive && access.accessCount == 0
              && (accessDuration.None? <==> access.expiresAt.None?)
              && (accessDuration.Some? ==> access.expiresAt.value == now + accessDuration.value)
              && (accessDuration.None? || accessDuration.value >= 0 ==> HasAccess(access, contentHash, now))
  {
    if purchase.buyer != buyer then Err(BuyerMismatch)
    else if !AuthorizedCaller(callerProgram) then Err(UnauthorizedCaller)
    else
      var expiresAt := match accessDuration
        case Some(duration) => Some(now + duration)
        case None => None;
      var access := AccessPermission(buyer, contentHash, now, expiresAt, true, 0);
      Ok((controller.(totalAccessGrants := controller.totalAccessGrants + 1), access,
          purchase.(accessGranted := true)))
  }

  /** `verify_access`: succeeds exactly when the permission grants access,
      and then counts one more access. */
  function VerifyAccess(p: AccessPermission, contentHash: Bytes32, now: int): (r: Result<(bool, AccessPermission), ErrorCode>)
    ensures r.Ok? <==> HasAccess(p, contentHash, now)
    ensures !p.isActive ==> r == Err(AccessRevoked)
    ensures p.isActive && p.contentHash != contentHash ==> r == Err(ContentMismatch)
    ensures p.isActive && p.contentHash == contentHash && !HasAccess(p, contentHash, now) ==> r == Err(AccessExpired)
    ensures r.Ok? ==> r.value.0 && r.value.1 == p.(accessCount := p.accessCount + 1)
  {
    if !p.isActive then Err(AccessRevoked)
    else if p.contentHash != contentHash then Err(ContentMismatch)
    else if p.expiresAt.Some? && !(now <= p.expiresAt.value) then Err(AccessExpired)
    else Ok((true, p.(accessCount := p.accessCount + 1)))
  }

  /** `revoke_access`: the controller authority or the buyer, with a reason
      of at most 256 bytes; nothing but the active flag changes. */
  function RevokeAccess(controller: Controller, p: AccessPermission, signer: Pubkey, reason: seq<byte>)
    : (r: Result<AccessPermission, ErrorCode>)
    ensures signer != controller.authority && signer != p.buyer ==> r == Err(Unauthorized)
    ensures (signer == controller.authority || signer == p.buyer) && |reason| > MAX_REASON_LEN ==> r == Err(ReasonTooLong)
    ensures r.Ok? <==> (signer == controller.authority || signer == p.buyer) && |reason| <= MAX_REASON_LEN
    ensures r.Ok? ==> r.value == p.(isActive := false)
    ensures r.Ok? ==> forall h: Bytes32, t: int :: !HasAccess(r.value, h, t)
  {
    if signer != controller.authority && signer != p.buyer then Err(Unauthorized)
    else if |reason| > MAX_REASON_LEN then Err(ReasonTooLong)
    else Ok(p.(isActive := false))
  }

  /** `extend_access`: only the buyer, only while active. The new expiry
      counts from the later of the old expiry and now; permanent access
      becomes timed access ending `additionalDuration` after now. */
  function ExtendAccess(p: AccessPermission, signer: Pubkey, additionalDuration: int, now: int)
    : (r: Result<AccessPermission, ErrorCode>)
    ensures signer != p.buyer ==> r == Err(Unauthorized)
    ensures signer == p.buyer && !p.isActive ==> r == Err(AccessRevoked)
    ensures r.Ok? <==> signer == p.buyer && p.isActive
    ensures r.Ok? ==>
              && r.value.expiresAt.Some?
              && r.value == p.(expiresAt := r.value.expiresAt)
              && r.value.expiresAt.value >= now + additionalDuration
              && (p.expiresAt.Some? ==> r.value.expiresAt.value >= p.expiresAt.value + additionalDuration)
              && (p.expiresAt.None? ==> r.value.expiresAt.value == now + additionalDuration)
              && (p.expiresAt.Some? ==> r.value.expiresAt.value
                                          == (if p.expiresAt.value >= now then p.expiresAt.value else now) + additionalDuration)
  {
    if signer != p.buyer then Err(Unauthorized)
    else if !p.isActive then Err(AccessRevoked)
    else
      var newExpiry := match p.expiresAt
        case Some(existingExpiry) => Max(existingExpiry, now) + additionalDuration
        case None => now + additionalDuration;
      Ok(p.(expiresAt := Some(newExpiry)))
  }

  function Max(a: int, b: int): int {
    if a >= b then a else b
  }

  /** Whether the batch passes an access permission at position `k`. */
  predicate Present(accounts: seq<Option<AccessPermission>>, k: nat) {
    k < |accounts| && accounts[k].Some?
  }

  /** The per-item check of `batch_verify_access`, over positions `i` onwards. */
  function BatchLoop(contentHashes: seq<Bytes32>, accounts: seq<Option<AccessPermission>>, now: int, i: nat,
                     results: seq<bool>)
    : (r: Result<seq<bool>, ErrorCode>)
    requires i <= |contentHashes| && |results| == i
    ensures r.Ok? ==> |r.value| == |contentHashes| && r.value[..i] == results
    ensures r.Ok? ==> forall k | i <= k < |contentHashes| ::
                        Present(accounts, k)
                        && (r.value[k] <==> HasAccess(accounts[k].value, contentHashes[k], now))
    ensures r.Ok? <==> forall k | i <= k < |contentHashes| :: Present(accounts, k)
    decreases |contentHashes| - i
  {
    if i == |contentHashes| then Ok(results)
    else if i >= |accounts| then
      assert !Present(accounts, i);
      Err(MissingAccount)
    else if accounts[i].None? then
      assert !Present(accounts, i);
      Err(AccountDidNotDeserialize)
    else
      var access := accounts[i].value;
      var hasAccess := access.isActive && access.contentHash == contentHashes[i]
                       && (match access.expiresAt case None => true case Some(exp) => now <= exp);
      var r := BatchLoop(contentHashes, accounts, now, i + 1, results + [hasAccess]);
      assert r.Ok? ==> r.value[i] == hasAccess by {
        if r.Ok? {
          assert r.value[..i + 1][i] == (results + [hasAccess])[i];
        }
      }
      r
  }

  /** `batch_verify_access`: at most ten hashes, the i-th checked against the
      i-th remaining account, which must exist and be an access permission.
      A present account that is not an access permission is `None`. */
  function BatchVerifyAccess(contentHashes: seq<Bytes32>, accounts: seq<Option<AccessPermission>>, now: int)
    : (r: Result<seq<bool>, ErrorCode>)
    ensures |contentHashes| > MAX_BATCH_ITEMS ==> r == Err(TooManyItems)
    ensures r.Ok? <==> |contentHashes| <= MAX_BATCH_ITEMS
                       && forall k | 0 <= k < |contentHashes| :: Present(accounts, k)
    ensures r.Ok? ==> |r.value| == |contentHashes|
    ensures r.Ok? ==> forall k | 0 <= k < |contentHashes| ::
                        Present(accounts, k)
                        && (r.value[k] <==> HasAccess(accounts[k].value, contentHashes[k], now))
  {
    if |contentHashes| > MAX_BATCH_ITEMS then Err(TooManyItems)
    else BatchLoop(contentHashes, accounts, now, 0, [])
  }

  /** A batch answer agrees with what `verify_access` would decide for the
      same permission and content at the same time. */
  lemma BatchAgreesWithVerify(contentHashes: seq<Bytes32>, accounts: seq<Option<AccessPermission>>, now: int, k: nat)
    requires BatchVerifyAccess(contentHashes, accounts, now).Ok?
    requires k < |contentHashes|
    ensures Present(accounts, k)
    ensures BatchVerifyAccess(contentHashes, accounts, now).value[k]
        <==> VerifyAccess(accounts[k].value, contentHashes[k], now).Ok?
  {
  }

  /** Revocation is permanent: once a permission is inactive, verifying it
      fails, extending it fails, and revoking it again keeps it inactive. */
  lemma RevocationIsPermanent(controller: Controller, p: AccessPermission, signer: Pubkey, contentHash: Bytes32,
                              now: int, additionalDuration: int, reason: seq<byte>)
    requires !p.isActive
    ensures VerifyAccess(p, contentHash, now) == Err(AccessRevoked)
    ensures ExtendAccess(p, signer, additionalDuration, now).Err?
    ensures RevokeAccess(controller, p, signer, reason).Ok? ==> !RevokeAccess(controller, p, signer, reason).value.isActive
  {
  }

  /** Expiry is inclusive: access holds at the expiry second and not after. */
  lemma ExpiryIsInclusive(p: AccessPermission, contentHash: Bytes32)
    requires p.isActive && p.contentHash == contentHash && p.expiresAt.Some?
    ensures VerifyAccess(p, contentHash, p.expiresAt.value).Ok?
    ensures VerifyAccess(p, contentHash, p.expiresAt.value + 1) == Err(AccessExpired)
  {
  }

  /** A non-negative extension never shortens timed access and leaves the
      permission usable now; on permanent access it imposes an expiry. */
  lemma ExtensionKeepsAccess(p: AccessPermission, additionalDuration: int, now: int)
    requires p.isActive && additionalDuration >= 0
    ensures ExtendAccess(p, p.buyer, additionalDuration, now).Ok?
    ensures HasAccess(ExtendAccess(p, p.buyer, additionalDuration, now).value, p.contentHash, now)
    ensures p.expiresAt.Some? ==> ExtendAccess(p, p.buyer, additionalDuration, now).value.expiresAt.value >= p.expiresAt.value
    ensures p.expiresAt.None? ==> !HasAccess(ExtendAccess(p, p.buyer, additionalDuration, now).value, p.contentHash,
                                             now + additionalDuration + 1)
  {
  }
}
