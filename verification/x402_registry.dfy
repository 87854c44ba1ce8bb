/** The content registry program: listings with credential-discounted prices,
    purchases that record the price paid and the platform's cut, listing
    updates, and the platform fee setting. */
module X402Registry {
  import opened Bytes
  import opened Results

  datatype ErrorCode =
    | InvalidPrice
    | InvalidContentHash
    | TitleTooLong
    | DescriptionTooLong
    | ListingInactive
    | Unauthorized
    | FeeTooHigh

  /** Basis points in a whole. */
  const BPS_DENOMINATOR: nat := 10000
  const INITIAL_PLATFORM_FEE_BPS: u16 := 200
  const MAX_PLATFORM_FEE_BPS: nat := 1000
  const MAX_TITLE_LEN: nat := 128
  const MAX_DESCRIPTION_LEN: nat := 512

  datatype CredentialType = Journalist | Human | Organization | Developer | Custom(name: seq<byte>)

  datatype CredentialDiscount = CredentialDiscount(credentialType: CredentialType, discountBps: u16)

  datatype VolumeDiscount = VolumeDiscount(minPurchases: nat, discountBps: u16)

  datatype PricingConfig = PricingConfig(
    basePrice: u64,
    credentialDiscounts: seq<CredentialDiscount>,
    volumeDiscount: Option<VolumeDiscount>)

  datatype CredentialRequirement = CredentialRequirement(credentialType: CredentialType, required: bool)

  datatype CredentialProof = CredentialProof(credentialType: CredentialType, proofData: seq<byte>, issuerPubkey: Pubkey)

  datatype AttestationType = EmailDomain | Timestamp | GpsLocation | SensorData

  datatype ZkAttestation = ZkAttestation(attestationType: AttestationType, proofData: seq<byte>, verifiedAt: int)

  datatype ContentCategory = Documents | DataFeed | Media | Code | Other

  /** Titles and descriptions are UTF-8 byte strings; their limits are in bytes. */
  datatype ContentMetadata = ContentMetadata(
    title: seq<byte>,
    description: seq<byte>,
    category: ContentCategory,
    tags: seq<seq<byte>>)

  /** The `X402Registry` account. */
  datatype Registry = Registry(authority: Pubkey, listingCount: nat, totalRevenue: nat, platformFeeBps: u16)

  /** The `ContentListing` account. */
  datatype ContentListing = ContentListing(
    listingId: nat,
    creator: Pubkey,
    contentHash: Bytes32,
    pricing: PricingConfig,
    requiredCredentials: seq<CredentialRequirement>,
    zkAttestations: seq<ZkAttestation>,
    metadata: ContentMetadata,
    createdAt: int,
    updatedAt: int,
    purchaseCount: nat,
    totalRevenue: nat,
    isActive: bool)

  /** The `PurchaseRecord` account. */
  datatype PurchaseRecord = PurchaseRecord(
    listingId: nat,
    buyer: Pubkey,
    seller: Pubkey,
    finalPrice: nat,
    purchasedAt: int,
    credentialsUsed: seq<CredentialProof>,
    accessGranted: bool)

  // ---------------------------------------------------------------------------
  // Pricing

  /** Whether the buyer presented a proof of the given credential type. */
  predicate HasProofFor(proofs: seq<CredentialProof>, ct: CredentialType) {
    exists i | 0 <= i < |proofs| :: proofs[i].credentialType == ct
  }

  /** The discount of the first entry for the given type, or 0 if none:
      `find(..).map(|d| d.discount_bps).unwrap_or(0)`. */
  function DiscountFor(discounts: seq<CredentialDiscount>, ct: CredentialType): (d: u16)
    ensures d != 0 ==> exists i | 0 <= i < |discounts| :: discounts[i].credentialType == ct
    ensures forall i | 0 <= i < |discounts| && discounts[i].credentialType == ct ::
              (forall j | 0 <= j < i :: discounts[j].credentialType != ct) ==> d == discounts[i].discountBps
  {
    if |discounts| == 0 then 0
    else if discounts[0].credentialType == ct then discounts[0].discountBps
    else
      var d := DiscountFor(discounts[1..], ct);
      assert forall i | 1 <= i < |discounts| :: discounts[i] == discounts[1..][i - 1];
      d
  }

  /** `a.saturating_sub(b)` on unsigned integers. */
  function SaturatingSub(a: nat, b: nat): nat {
    if a >= b then a - b else 0
  }

  /** One discount applied to the running price: nothing for a zero discount,
      otherwise the floor of `price * bps / 10000` taken off, never below 0. */
  function ApplyDiscount(price: nat, discountBps: nat): (r: nat)
    ensures r <= price
    ensures discountBps == 0 ==> r == price
    ensures discountBps <= BPS_DENOMINATOR ==> r == price - price * discountBps / BPS_DENOMINATOR
    ensures discountBps >= BPS_DENOMINATOR ==> r == 0
  {
    if discountBps > 0 then
      var discountAmount := price * discountBps / BPS_DENOMINATOR;
      assert discountBps >= BPS_DENOMINATOR ==> discountAmount >= price by {
        if discountBps >= BPS_DENOMINATOR {
          assert price * discountBps >= price * BPS_DENOMINATOR;
        }
      }
      assert discountBps <= BPS_DENOMINATOR ==> discountAmount <= price by {
        if discountBps <= BPS_DENOMINATOR {
          assert price * discountBps <= price * BPS_DENOMINATOR;
        }
      }
      SaturatingSub(price, discountAmount)
    else price
  }

  /** The effect of one requirement: its discount if the buyer holds the
      credential, none otherwise. */
  function RequirementStep(pricing: PricingConfig, proofs: seq<CredentialProof>, price: nat, req: CredentialRequirement): nat {
    if HasProofFor(proofs, req.credentialType)
    then ApplyDiscount(price, DiscountFor(pricing.credentialDiscounts, req.credentialType))
    else price
  }

  /** The loop over requirements from position `i`, carrying the running price. */
  function PriceLoop(pricing: PricingConfig, reqs: seq<CredentialRequirement>, proofs: seq<CredentialProof>, i: nat, price: nat)
    : (r: nat)
    requires i <= |reqs|
    ensures r <= price
    decreases |reqs| - i
  {
    if i == |reqs| then price
    else PriceLoop(pricing, reqs, proofs, i + 1, RequirementStep(pricing, proofs, price, reqs[i]))
  }

  /** `calculate_price_with_discounts`. The volume discount is looked at but
      never applied. */
  function CalculatePriceWithDiscounts(pricing: PricingConfig, reqs: seq<CredentialRequirement>, proofs: seq<CredentialProof>)
    : (r: nat)
    ensures r <= pricing.basePrice
  {
    PriceLoop(pricing, reqs, proofs, 0, pricing.basePrice)
  }

  /** The discounted price defined from the last requirement backwards: the
      last requirement's discount applies to the price the others leave. */
  function DiscountedPrice(pricing: PricingConfig, reqs: seq<CredentialRequirement>, proofs: seq<CredentialProof>): nat
    decreases |reqs|
  {
    if |reqs| == 0 then pricing.basePrice
    else RequirementStep(pricing, proofs, DiscountedPrice(pricing, reqs[..|reqs| - 1], proofs), reqs[|reqs| - 1])
  }

  lemma {:induction false} PriceLoopIsDiscountedPrice(pricing: PricingConfig, reqs: seq<CredentialRequirement>,
                                                      proofs: seq<CredentialProof>, i: nat)
    requires i <= |reqs|
    ensures PriceLoop(pricing, reqs, proofs, i, DiscountedPrice(pricing, reqs[..i], proofs))
         == DiscountedPrice(pricing, reqs, proofs)
    decreases |reqs| - i
  {
    if i < |reqs| {
      assert reqs[..i + 1][..i] == reqs[..i];
      PriceLoopIsDiscountedPrice(pricing, reqs, proofs, i + 1);
    } else {
      assert reqs[..i] == reqs;
    }
  }

  /** Discounts compound in requirement order: the price for a longer list is
      the price for its prefix with the last requirement's step applied. */
  lemma PriceCompounds(pricing: PricingConfig, reqs: seq<CredentialRequirement>, proofs: seq<CredentialProof>,
                       req: CredentialRequirement)
    ensures CalculatePriceWithDiscounts(pricing, reqs + [req], proofs)
         == RequirementStep(pricing, proofs, CalculatePriceWithDiscounts(pricing, reqs, proofs), req)
  {
    assert reqs[..0] == [] && (reqs + [req])[..0] == [];
    PriceLoopIsDiscountedPrice(pricing, reqs, proofs, 0);
    PriceLoopIsDiscountedPrice(pricing, reqs + [req], proofs, 0);
    assert (reqs + [req])[..|reqs|] == reqs;
  }

  /** Requirements the buyer holds no proof for, and credentials without a
      discount, leave the base price untouched. */
  lemma {:induction false} NoApplicableDiscountKeepsBasePrice(pricing: PricingConfig, reqs: seq<CredentialRequirement>,
                                                             proofs: seq<CredentialProof>)
    requires forall i | 0 <= i < |reqs| ::
               !HasProofFor(proofs, reqs[i].credentialType)
               || DiscountFor(pricing.credentialDiscounts, reqs[i].credentialType) == 0
    ensures CalculatePriceWithDiscounts(pricing, reqs, proofs) == pricing.basePrice
    decreases |reqs|
  {
    if |reqs| > 0 {
      var prefix := reqs[..|reqs| - 1];
      NoApplicableDiscountKeepsBasePrice(pricing, prefix, proofs);
      PriceCompounds(pricing, prefix, proofs, reqs[|reqs| - 1]);
      assert prefix + [reqs[|reqs| - 1]] == reqs;
    }
  }

  /** The volume discount never changes the price. */
  lemma VolumeDiscountIgnored(pricing: PricingConfig, reqs: seq<CredentialRequirement>, proofs: seq<CredentialProof>,
                              volume: Option<VolumeDiscount>)
    ensures CalculatePriceWithDiscounts(pricing.(volumeDiscount := volume), reqs, proofs)
         == CalculatePriceWithDiscounts(pricing, reqs, proofs)
  {
    assert reqs[..0] == [];
    PriceLoopIsDiscountedPrice(pricing, reqs, proofs, 0);
    PriceLoopIsDiscountedPrice(pricing.(volumeDiscount := volume), reqs, proofs, 0);
    DiscountedPriceIgnoresVolume(pricing, reqs, proofs, volume);
  }

  lemma {:induction false} DiscountedPriceIgnoresVolume(pricing: PricingConfig, reqs: seq<CredentialRequirement>,
                                                       proofs: seq<CredentialProof>, volume: Option<VolumeDiscount>)
    ensures DiscountedPrice(pricing.(volumeDiscount := volume), reqs, proofs) == DiscountedPrice(pricing, reqs, proofs)
    decreases |reqs|
  {
    if |reqs| > 0 {
      DiscountedPriceIgnoresVolume(pricing, reqs[..|reqs| - 1], proofs, volume);
    }
  }

  /** The platform's cut of a sale: `final_price * platform_fee_bps / 10000`.
      A fee within the allowed maximum never takes more than a tenth. */
  function PlatformFee(finalPrice: nat, feeBps: nat): (fee: nat)
    ensures feeBps <= MAX_PLATFORM_FEE_BPS ==> fee <= finalPrice / 10
    ensures fee == finalPrice * feeBps / BPS_DENOMINATOR
  {
    var fee := finalPrice * feeBps / BPS_DENOMINATOR;
    assert feeBps <= MAX_PLATFORM_FEE_BPS ==> fee <= finalPrice / 10 by {
      if feeBps <= MAX_PLATFORM_FEE_BPS {
        assert finalPrice * feeBps <= finalPrice * MAX_PLATFORM_FEE_BPS;
        assert finalPrice * MAX_PLATFORM_FEE_BPS / BPS_DENOMINATOR == finalPrice / 10;
      }
    }
    fee
  }

  // ---------------------------------------------------------------------------
  // Instructions

  /** What every registry state satisfies: the platform fee is at most 10%. */
  predicate RegistryInvariant(r: Registry) {
    r.platformFeeBps <= MAX_PLATFORM_FEE_BPS
  }

  /** The registry's `initialize`. */
  function InitializeRegistry(authority: Pubkey): (r: Registry)
    ensures r.authority == authority && r.listingCount == 0 && r.totalRevenue == 0
    ensures r.platformFeeBps == 200 && RegistryInvariant(r)
  {
    Registry(authority, 0, 0, INITIAL_PLATFORM_FEE_BPS)
  }

  predicate MetadataWithinLimits(m: ContentMetadata) {
    |m.title| <= MAX_TITLE_LEN && |m.description| <= MAX_DESCRIPTION_LEN
  }

  /** `register_content`: the new listing takes the current listing count as
      its id, and the count moves on by one. */
  function RegisterContent(registry: Registry, creator: Pubkey, contentHash: Bytes32, pricing: PricingConfig,
                           requiredCredentials: seq<CredentialRequirement>, zkAttestations: seq<ZkAttestation>,
                           metadata: ContentMetadata, now: int)
    : (r: Result<(Registry, ContentListing), ErrorCode>)
    ensures pricing.basePrice == 0 ==> r == Err(InvalidPrice)
    ensures pricing.basePrice > 0 && contentHash == ZERO32 ==> r == Err(InvalidContentHash)
    ensures pricing.basePrice > 0 && contentHash != ZERO32 && |metadata.title| > MAX_TITLE_LEN ==> r == Err(TitleTooLong)
    ensures (pricing.basePrice > 0 && contentHash != ZERO32 && |metadata.title| <= MAX_TITLE_LEN
             && |metadata.description| > MAX_DESCRIPTION_LEN) ==> r == Err(DescriptionTooLong)
    ensures r.Ok? <==> pricing.basePrice > 0 && contentHash != ZERO32 && MetadataWithinLimits(metadata)
    ensures r.Ok? ==>
              var (registry', listing) := r.value;
              && registry' == registry.(listingCount := registry.listingCount + 1)
              && listing.listingId == registry.listingCount
              && listing.creator == creator && listing.contentHash == contentHash
              && listing.pricing == pricing && listing.metadata == metadata
              && listing.requiredCredentials == requiredCredentials && listing.zkAttestations == zkAttestations
              && listing.isActive && listing.purchaseCount == 0 && listing.totalRevenue == 0
              && listing.createdAt == now && listing.updatedAt == now
  {
    if pricing.basePrice == 0 then Err(InvalidPrice)
    else if contentHash == ZERO32 then Err(InvalidContentHash)
    else if |metadata.title| > MAX_TITLE_LEN then Err(TitleTooLong)
    else if |metadata.description| > MAX_DESCRIPTION_LEN then Err(DescriptionTooLong)
    else
      var listing := ContentListing(registry.listingCount, creator, contentHash, pricing, requiredCredentials,
                                    zkAttestations, metadata, now, now, 0, 0, true);
      Ok((registry.(listingCount := registry.listingCount + 1), listing))
  }

  /** `purchase_content`: prices the purchase, records it, and books the price
      to the listing and the platform fee to the registry. */
  function PurchaseContent(registry: Registry, listing: ContentListing, buyer: Pubkey,
                           buyerCredentials: seq<CredentialProof>, now: int)
    : (r: Result<(Registry, ContentListing, PurchaseRecord), ErrorCode>)
    ensures r.Err? <==> !listing.isActive
    ensures r.Err? ==> r.error == ListingInactive
    ensures r.Ok? ==>
              var (registry', listing', purchase) := r.value;
              var price := CalculatePriceWithDiscounts(listing.pricing, listing.requiredCredentials, buyerCredentials);
              && purchase.finalPrice == price
              && purchase.finalPrice <= listing.pricing.basePrice
              && purchase.listingId == listing.listingId && purchase.buyer == buyer && purchase.seller == listing.creator
              && purchase.purchasedAt == now
              && purchase.credentialsUsed == buyerCredentials && !purchase.accessGranted
              && listing' == listing.(purchaseCount := listing.purchaseCount + 1,
                                      totalRevenue := listing.totalRevenue + price,
                                      updatedAt := now)
              && registry' == registry.(totalRevenue := registry.totalRevenue + PlatformFee(price, registry.platformFeeBps))
              && (RegistryInvariant(registry) ==> registry'.totalRevenue - registry.totalRevenue <= price / 10)
  {
    if !listing.isActive then Err(ListingInactive)
    else
      var finalPrice := CalculatePriceWithDiscounts(listing.pricing, listing.requiredCredentials, buyerCredentials);
      var purchase := PurchaseRecord(listing.listingId, buyer, listing.creator, finalPrice, now, buyerCredentials, false);
      var listing' := listing.(purchaseCount := listing.purchaseCount + 1,
                               totalRevenue := listing.totalRevenue + finalPrice,
                               updatedAt := now);
      var platformFee := PlatformFee(finalPrice, registry.platformFeeBps);
      Ok((registry.(totalRevenue := registry.totalRevenue + platformFee), listing', purchase))
  }

  /** `update_listing`: only the creator; each supplied field is validated as
      at registration and replaces the old one, absent fields stay. */
  function UpdateListing(listing: ContentListing, signer: Pubkey, newPricing: Option<PricingConfig>,
                         newMetadata: Option<ContentMetadata>, isActive: Option<bool>, now: int)
    : (r: Result<ContentListing, ErrorCode>)
    ensures signer != listing.creator ==> r == Err(Unauthorized)
    ensures signer == listing.creator && newPricing.Some? && newPricing.value.basePrice == 0 ==> r == Err(InvalidPrice)
    ensures (signer == listing.creator && (newPricing.Some? ==> newPricing.value.basePrice > 0)
             && newMetadata.Some? && |newMetadata.value.title| > MAX_TITLE_LEN) ==> r == Err(TitleTooLong)
    ensures (signer == listing.creator && (newPricing.Some? ==> newPricing.value.basePrice > 0)
             && newMetadata.Some? && |newMetadata.value.title| <= MAX_TITLE_LEN
             && |newMetadata.value.description| > MAX_DESCRIPTION_LEN) ==> r == Err(DescriptionTooLong)
    ensures r.Ok? <==>
              && signer == listing.creator
              && (newPricing.Some? ==> newPricing.value.basePrice > 0)
              && (newMetadata.Some? ==> MetadataWithinLimits(newMetadata.value))
    ensures r.Ok? ==>
              && r.value.pricing == (if newPricing.Some? then newPricing.value else listing.pricing)
              && r.value.metadata == (if newMetadata.Some? then newMetadata.value else listing.metadata)
              && r.value.isActive == (if isActive.Some? then isActive.value else listing.isActive)
              && r.value.updatedAt == now
              && r.value.(pricing := listing.pricing, metadata := listing.metadata,
                          isActive := listing.isActive, updatedAt := listing.updatedAt) == listing
  {
    if signer != listing.creator then Err(Unauthorized)
    else
      var l1 :- match newPricing
        case None => Ok(listing)
        case Some(p) => if p.basePrice == 0 then Err(InvalidPrice) else Ok(listing.(pricing := p));
      var l2 :- match newMetadata
        case None => Ok(l1)
        case Some(m) =>
          if |m.title| > MAX_TITLE_LEN then Err(TitleTooLong)
          else if |m.description| > MAX_DESCRIPTION_LEN then Err(DescriptionTooLong)
          else Ok(l1.(metadata := m));
      var l3 := match isActive
        case None => l2
        case Some(a) => l2.(isActive := a);
      Ok(l3.(updatedAt := now))
  }

  /** What registration demands of a listing: a positive price and metadata
      within the limits. */
  predicate ListingWellFormed(l: ContentListing) {
    l.pricing.basePrice > 0 && MetadataWithinLimits(l.metadata)
  }

  /** Registration creates well-formed listings, every accepted update keeps
      a listing well formed, and an update that supplies nothing only
      restamps the listing. */
  lemma ListingsStayWellFormed(registry: Registry, creator: Pubkey, contentHash: Bytes32, pricing: PricingConfig,
                               reqs: seq<CredentialRequirement>, attestations: seq<ZkAttestation>,
                               metadata: ContentMetadata, listing: ContentListing, signer: Pubkey,
                               newPricing: Option<PricingConfig>, newMetadata: Option<ContentMetadata>,
                               isActive: Option<bool>, now: int)
    ensures RegisterContent(registry, creator, contentHash, pricing, reqs, attestations, metadata, now).Ok? ==>
              ListingWellFormed(RegisterContent(registry, creator, contentHash, pricing, reqs, attestations, metadata, now).value.1)
    ensures ListingWellFormed(listing) && UpdateListing(listing, signer, newPricing, newMetadata, isActive, now).Ok? ==>
              ListingWellFormed(UpdateListing(listing, signer, newPricing, newMetadata, isActive, now).value)
    ensures UpdateListing(listing, listing.creator, None, None, None, now) == Ok(listing.(updatedAt := now))
  {
  }

  /** `set_platform_fee`: only the authority, and at most 10%. */
  function SetPlatformFee(registry: Registry, signer: Pubkey, newFeeBps: u16): (r: Result<Registry, ErrorCode>)
    ensures signer != registry.authority ==> r == Err(Unauthorized)
    ensures signer == registry.authority && newFeeBps > MAX_PLATFORM_FEE_BPS ==> r == Err(FeeTooHigh)
    ensures r.Ok? <==> signer == registry.authority && newFeeBps <= MAX_PLATFORM_FEE_BPS
    ensures r.Ok? ==> r.value == registry.(platformFeeBps := newFeeBps) && RegistryInvariant(r.value)
  {
    if signer != registry.authority then Err(Unauthorized)
    else if newFeeBps > MAX_PLATFORM_FEE_BPS then Err(FeeTooHigh)
    else Ok(registry.(platformFeeBps := newFeeBps))
  }

  /** Every registry instruction keeps the fee within 10%. */
  lemma RegistryInvariantPreserved(registry: Registry, signer: Pubkey, newFeeBps: u16, listing: ContentListing,
                                   buyer: Pubkey, credentials: seq<CredentialProof>, contentHash: Bytes32,
                                   pricing: PricingConfig, reqs: seq<CredentialRequirement>,
                                   attestations: seq<ZkAttestation>, metadata: ContentMetadata, now: int)
    requires RegistryInvariant(registry)
    ensures SetPlatformFee(registry, signer, newFeeBps).Ok? ==>
              RegistryInvariant(SetPlatformFee(registry, signer, newFeeBps).value)
    ensures PurchaseContent(registry, listing, buyer, credentials, now).Ok? ==>
              RegistryInvariant(PurchaseContent(registry, listing, buyer, credentials, now).value.0)
    ensures RegisterContent(registry, signer, contentHash, pricing, reqs, attestations, metadata, now).Ok? ==>
              RegistryInvariant(RegisterContent(registry, signer, contentHash, pricing, reqs, attestations, metadata, now).value.0)
  {
  }
}
