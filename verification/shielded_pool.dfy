/** The shielded pool program: its fixed-capacity incremental Merkle tree
    (`MerkleTree`) and the pool ledger (`ShieldedPool`) that deposits and
    withdrawals update. The node hash is a parameter `H`; every result holds
    for any choice of it. */
module ShieldedPool {
  import opened Bytes
  import opened Results

  /** Capacity of the `filled_subtrees` and `zeros` arrays. */
  const MAX_LEVELS: nat := 20

  /** `poseidon_hash(&[left, right])`: SHA-256 of both children and a domain
      tag in the source, uninterpreted here. */
  type Hasher = (Bytes32, Bytes32) -> Bytes32

  /** The error codes of the program that the modelled paths can raise. */
  datatype ErrorCode =
    | InvalidAmount
    | IndexOutOfBounds
    | InsufficientFunds
    | UnauthorizedWithdrawal
    | InvalidInput

  /** The `MerkleTree` account. */
  datatype Tree = Tree(height: nat, filledSubtrees: seq<Bytes32>, zeros: seq<Bytes32>, root: Bytes32)
  {
    /** The account holds two 20-slot arrays, and no level at or above 20 is
        ever addressed. */
    predicate Valid() {
      height <= MAX_LEVELS && |filledSubtrees| == MAX_LEVELS && |zeros| == MAX_LEVELS
    }
  }

  /** `n` copies of the zero array. */
  function ZeroSlots(n: nat): (r: seq<Bytes32>)
    ensures |r| == n
    ensures forall i | 0 <= i < n :: r[i] == ZERO32
  {
    if n == 0 then [] else [ZERO32] + ZeroSlots(n - 1)
  }

  /** A freshly created, zero-filled tree account. */
  const EMPTY_TREE: Tree := Tree(0, ZeroSlots(MAX_LEVELS), ZeroSlots(MAX_LEVELS), ZERO32)

  // ---------------------------------------------------------------------------
  // Reference definitions

  /** Hash of an empty subtree of the given level: the zero leaf at level 0 and
      two copies of the level below above it. */
  function ZeroHash(H: Hasher, level: nat): Bytes32 {
    if level == 0 then ZERO32
    else var below := ZeroHash(H, level - 1); H(below, below)
  }

  /** Number of trailing 1-bits of `n`: the number of levels a leaf at index
      `n` climbs as a right child before it is a left child. */
  function TrailingOnes(n: nat): nat {
    if n % 2 == 1 then 1 + TrailingOnes(n / 2) else 0
  }

  /** The running hash after `k` right-child steps from `level` upward, each
      step hashing the cached left sibling of its level with the hash below. */
  function FoldRight(H: Hasher, fs: seq<Bytes32>, level: nat, k: nat, cur: Bytes32): Bytes32
    requires level + k <= |fs|
  {
    if k == 0 then cur else H(fs[level + k - 1], FoldRight(H, fs, level, k - 1, cur))
  }

  /** `filled_subtrees[0]` hashed upward through levels 1..k with the empty
      subtree hash of each level on its right. */
  function ZeroClimb(H: Hasher, fs: seq<Bytes32>, zeros: seq<Bytes32>, k: nat): Bytes32
    requires k < |fs| && k < |zeros|
  {
    if k == 0 then fs[0] else H(ZeroClimb(H, fs, zeros, k - 1), zeros[k])
  }

  /** One step of a Merkle path: `true` puts the running hash on the left. */
  function PathStep(H: Hasher, cur: Bytes32, sibling: Bytes32, curIsLeft: bool): Bytes32 {
    if curIsLeft then H(cur, sibling) else H(sibling, cur)
  }

  /** The node reached from `leaf` along a bottom-up path, defined from the
      top: the last step is applied to the node the shorter path reaches. */
  function PathRoot(H: Hasher, leaf: Bytes32, proof: seq<Bytes32>, bits: seq<bool>): Bytes32
    requires |proof| == |bits|
    decreases |proof|
  {
    if |proof| == 0 then leaf
    else
      var n := |proof| - 1;
      PathStep(H, PathRoot(H, leaf, proof[..n], bits[..n]), proof[n], bits[n])
  }

  // ---------------------------------------------------------------------------
  // MerkleTree::initialize

  /** The loop `for i in 1..height { zeros[i] = H(zeros[i-1], zeros[i-1]) }`. */
  function FillZeros(H: Hasher, zs: seq<Bytes32>, i: nat, height: nat): (r: seq<Bytes32>)
    requires |zs| == MAX_LEVELS && 1 <= i <= height <= MAX_LEVELS
    requires forall j | 0 <= j < i :: zs[j] == ZeroHash(H, j)
    ensures |r| == MAX_LEVELS
    ensures forall j | 0 <= j < height :: r[j] == ZeroHash(H, j)
    ensures forall j | height <= j < MAX_LEVELS :: r[j] == zs[j]
    decreases height - i
  {
    if i == height then zs
    else FillZeros(H, zs[i := H(zs[i - 1], zs[i - 1])], i + 1, height)
  }

  /** The tree `initialize` leaves once its `zeros` array is computed: the
      first `height` frontier slots copy it and the root is its top entry. */
  function WithZeros(t: Tree, height: nat, zeros: seq<Bytes32>): Tree
    requires t.Valid() && 1 <= height <= MAX_LEVELS && |zeros| == MAX_LEVELS
  {
    Tree(height, zeros[..height] + t.filledSubtrees[height..], zeros, zeros[height - 1])
  }

  /** `MerkleTree::initialize(height)`. Height 0 would underflow at the final
      `height - 1`, and heights above 20 overrun the arrays, so both are
      excluded. Slots at and above `height` keep whatever they held. */
  function Initialize(H: Hasher, t: Tree, height: nat): (r: Tree)
    requires t.Valid() && 1 <= height <= MAX_LEVELS
    ensures r.Valid() && r.height == height
    ensures r.zeros[0] == ZERO32
    ensures forall i | 1 <= i < height :: r.zeros[i] == H(r.zeros[i - 1], r.zeros[i - 1])
    ensures forall i | 0 <= i < height :: r.zeros[i] == ZeroHash(H, i) && r.filledSubtrees[i] == ZeroHash(H, i)
    ensures r.root == ZeroHash(H, height - 1)
    ensures forall i | height <= i < MAX_LEVELS ::
              r.zeros[i] == t.zeros[i] && r.filledSubtrees[i] == t.filledSubtrees[i]
  {
    WithZeros(t, height, FillZeros(H, t.zeros[0 := ZERO32], 1, height))
  }

  // ---------------------------------------------------------------------------
  // MerkleTree::insert_leaf

  lemma {:induction false} FoldRightShift(H: Hasher, fs: seq<Bytes32>, level: nat, k: nat, cur: Bytes32)
    requires level + 1 + k <= |fs|
    ensures FoldRight(H, fs, level + 1, k, H(fs[level], cur)) == FoldRight(H, fs, level, k + 1, cur)
  {
    if k > 0 {
      FoldRightShift(H, fs, level, k - 1, cur);
    }
  }

  /** The loop of `insert_leaf` from `level` upward: a left child is cached in
      `filled_subtrees[level]` and the walk stops; a right child is hashed with
      the cached left sibling and the walk climbs. The slot written is the
      first level at which the index is even, and it receives the hash folded
      up from the leaf. */
  function Climb(H: Hasher, fs: seq<Bytes32>, level: nat, height: nat, idx: nat, cur: Bytes32): (r: seq<Bytes32>)
    requires |fs| == MAX_LEVELS && level <= height <= MAX_LEVELS
    ensures |r| == MAX_LEVELS
    ensures level + TrailingOnes(idx) < height ==>
              r == fs[level + TrailingOnes(idx) := FoldRight(H, fs, level, TrailingOnes(idx), cur)]
    ensures level + TrailingOnes(idx) >= height ==> r == fs
    decreases height - level
  {
    if level == height then fs
    else if idx % 2 == 0 then fs[level := cur]
    else
      var r := Climb(H, fs, level + 1, height, idx / 2, H(fs[level], cur));
      assert level + TrailingOnes(idx) < height ==>
               FoldRight(H, fs, level + 1, TrailingOnes(idx / 2), H(fs[level], cur))
               == FoldRight(H, fs, level, TrailingOnes(idx), cur) by {
        if level + TrailingOnes(idx) < height { FoldRightShift(H, fs, level, TrailingOnes(idx / 2), cur); }
      }
      r
  }

  /** The frontier after inserting `leaf` at `leafIndex`: only the slot at the
      level given by the number of trailing 1-bits of the index changes (if that
      level is below the height), and it receives the hash folded up from the
      leaf through the cached left siblings below it. */
  function NewFrontier(H: Hasher, t: Tree, leafIndex: nat, leaf: Bytes32): seq<Bytes32>
    requires t.Valid()
  {
    var k := TrailingOnes(leafIndex);
    if k < t.height then t.filledSubtrees[k := FoldRight(H, t.filledSubtrees, 0, k, leaf)]
    else t.filledSubtrees
  }

  /** `MerkleTree::insert_leaf(leaf_index, leaf)`. The index is whatever the
      caller passes; nothing ties it to the number of leaves so far. */
  function InsertLeaf(H: Hasher, t: Tree, leafIndex: u64, leaf: Bytes32): (r: Result<Tree, ErrorCode>)
    requires t.Valid()
    ensures r.Err? <==> leafIndex >= Pow2(t.height)
    ensures r.Err? ==> r.error == IndexOutOfBounds
    ensures r.Ok? ==>
              && r.value.Valid()
              && r.value.height == t.height
              && r.value.zeros == t.zeros
              && r.value.filledSubtrees == NewFrontier(H, t, leafIndex, leaf)
              && r.value.root == ComputeRoot(H, r.value)
    ensures r.Ok? && leafIndex % 2 == 0 && t.height >= 1 ==>
              r.value.filledSubtrees == t.filledSubtrees[0 := leaf]
  {
    if leafIndex >= Pow2(t.height) then Err(IndexOutOfBounds)
    else
      var fs := Climb(H, t.filledSubtrees, 0, t.height, leafIndex, leaf);
      var t' := t.(filledSubtrees := fs);
      Ok(t'.(root := ComputeRoot(H, t')))
  }

  // ---------------------------------------------------------------------------
  // MerkleTree::compute_root

  /** The loop of `compute_root` from `level` upward. */
  function RootFold(H: Hasher, height: nat, fs: seq<Bytes32>, zeros: seq<Bytes32>, level: nat, cur: Bytes32): Bytes32
    requires height <= |fs| && height <= |zeros| && 1 <= level
    decreases height - level
  {
    if level >= height then cur
    else
      var right := if level == height - 1 then fs[level] else zeros[level];
      RootFold(H, height, fs, zeros, level + 1, H(cur, right))
  }

  lemma {:induction false} RootFoldShape(H: Hasher, height: nat, fs: seq<Bytes32>, zeros: seq<Bytes32>, level: nat)
    requires height <= |fs| && height <= |zeros| && 2 <= height && 1 <= level <= height - 1
    ensures RootFold(H, height, fs, zeros, level, ZeroClimb(H, fs, zeros, level - 1))
         == H(ZeroClimb(H, fs, zeros, height - 2), fs[height - 1])
    decreases height - level
  {
    if level < height - 1 {
      RootFoldShape(H, height, fs, zeros, level + 1);
    }
  }

  /** `MerkleTree::compute_root()`: `height - 1` hashes, starting from
      `filled_subtrees[0]`, with the empty-subtree hash of each level on the
      right except at the top level, which takes `filled_subtrees[height-1]`. */
  function ComputeRoot(H: Hasher, t: Tree): (r: Bytes32)
    requires t.Valid()
    ensures t.height <= 1 ==> r == t.filledSubtrees[0]
    ensures t.height >= 2 ==>
              r == H(ZeroClimb(H, t.filledSubtrees, t.zeros, t.height - 2), t.filledSubtrees[t.height - 1])
  {
    var r := RootFold(H, t.height, t.filledSubtrees, t.zeros, 1, t.filledSubtrees[0]);
    assert t.height >= 2 ==>
             r == H(ZeroClimb(H, t.filledSubtrees, t.zeros, t.height - 2), t.filledSubtrees[t.height - 1]) by {
      if t.height >= 2 { RootFoldShape(H, t.height, t.filledSubtrees, t.zeros, 1); }
    }
    r
  }

  // ---------------------------------------------------------------------------
  // MerkleTree::verify_proof

  /** The loop of `verify_proof` from position `i` onward. */
  function FoldPath(H: Hasher, cur: Bytes32, proof: seq<Bytes32>, bits: seq<bool>, i: nat): Bytes32
    requires |proof| == |bits| && i <= |proof|
    decreases |proof| - i
  {
    if i == |proof| then cur
    else FoldPath(H, PathStep(H, cur, proof[i], bits[i]), proof, bits, i + 1)
  }

  lemma {:induction false} FoldPathIsPathRoot(H: Hasher, leaf: Bytes32, proof: seq<Bytes32>, bits: seq<bool>, i: nat)
    requires |proof| == |bits| && i <= |proof|
    ensures FoldPath(H, PathRoot(H, leaf, proof[..i], bits[..i]), proof, bits, i) == PathRoot(H, leaf, proof, bits)
    decreases |proof| - i
  {
    if i < |proof| {
      assert proof[..i + 1][..i] == proof[..i];
      assert bits[..i + 1][..i] == bits[..i];
      FoldPathIsPathRoot(H, leaf, proof, bits, i + 1);
    } else {
      assert proof[..i] == proof && bits[..i] == bits;
    }
  }

  /** `MerkleTree::verify_proof`: a malformed proof is an error, distinct from
      a well-formed proof that leads elsewhere. */
  function VerifyProof(H: Hasher, t: Tree, leaf: Bytes32, proof: seq<Bytes32>, pathIndices: seq<bool>, root: Bytes32)
    : (r: Result<bool, ErrorCode>)
    ensures r.Err? <==> |proof| != t.height || |pathIndices| != t.height
    ensures r.Err? ==> r.error == InvalidInput
    ensures r.Ok? ==> (r.value <==> PathRoot(H, leaf, proof, pathIndices) == root)
  {
    if |proof| != t.height || |pathIndices| != t.height then Err(InvalidInput)
    else
      assert proof[..0] == [] && pathIndices[..0] == [];
      FoldPathIsPathRoot(H, leaf, proof, pathIndices, 0);
      Ok(FoldPath(H, leaf, proof, pathIndices, 0) == root)
  }

  // ---------------------------------------------------------------------------
  // The pool ledger

  /** The `ShieldedPool` account. */
  datatype Pool = Pool(authority: Pubkey, merkleRoot: Bytes32, treeHeight: nat, nextIndex: nat, totalDeposits: nat)

  /** The address `withdraw` compares the `spend_verifier` account's key
      with, `SPEND_VERIFIER_ID` (CwJ5s1e69mv5uAnTyaAxos9DVVQ2kWcz53BQm6krzDG9).
      That account is not authenticated, so any transaction can supply it. */
  const SPEND_VERIFIER_ID: Pubkey := [
    177, 89, 60, 147, 207, 141, 150, 241, 167, 207, 178, 210, 162, 79, 74, 49,
    236, 20, 98, 8, 239, 62, 159, 8, 205, 233, 115, 167, 218, 97, 214, 54]

  /** The pool's `initialize`: sets the ledger and creates the tree account,
      which stays zero-filled because `MerkleTree::initialize` is never
      called. */
  function InitializePool(authority: Pubkey): (r: (Pool, Tree))
    ensures r.0.authority == authority && r.0.treeHeight == 20
    ensures r.0.merkleRoot == ZERO32 && r.0.nextIndex == 0 && r.0.totalDeposits == 0
    ensures r.1.Valid() && r.1.height == 0 && r.1.root == ZERO32
    ensures forall i | 0 <= i < MAX_LEVELS :: r.1.filledSubtrees[i] == ZERO32 && r.1.zeros[i] == ZERO32
  {
    (Pool(authority, ZERO32, 20, 0, 0), EMPTY_TREE)
  }

  /** `deposit(commitment, amount)`, without the token transfer into custody.
      The leaf goes at the pool's `next_index`. */
  function Deposit(H: Hasher, pool: Pool, tree: Tree, commitment: Bytes32, amount: u64)
    : (r: Result<(Pool, Tree), ErrorCode>)
    requires tree.Valid() && pool.nextIndex < U64_LIMIT
    ensures amount == 0 ==> r == Err(InvalidAmount)
    ensures amount > 0 ==> (r.Err? <==> pool.nextIndex >= Pow2(tree.height))
    ensures amount > 0 && r.Err? ==> r.error == IndexOutOfBounds
    ensures r.Ok? ==>
              var p := r.value.0;
              var t := r.value.1;
              && InsertLeaf(H, tree, pool.nextIndex, commitment) == Ok(t)
              && p.merkleRoot == ComputeRoot(H, t)
              && p.nextIndex == pool.nextIndex + 1
              && p.totalDeposits == pool.totalDeposits + amount
              && p.authority == pool.authority && p.treeHeight == pool.treeHeight
  {
    if amount == 0 then Err(InvalidAmount)
    else
      var t :- InsertLeaf(H, tree, pool.nextIndex, commitment);
      Ok((pool.(merkleRoot := ComputeRoot(H, t),
                nextIndex := pool.nextIndex + 1,
                totalDeposits := pool.totalDeposits + amount), t))
  }

  /** `withdraw(amount, recipient)`, without the token transfer out of
      custody. `caller` is the key of the account passed as `spend_verifier`. */
  function Withdraw(pool: Pool, amount: u64, caller: Pubkey): (r: Result<Pool, ErrorCode>)
    ensures amount == 0 ==> r == Err(InvalidAmount)
    ensures amount > 0 && pool.totalDeposits < amount ==> r == Err(InsufficientFunds)
    ensures amount > 0 && pool.totalDeposits >= amount && caller != SPEND_VERIFIER_ID ==>
              r == Err(UnauthorizedWithdrawal)
    ensures r.Ok? <==> amount > 0 && pool.totalDeposits >= amount && caller == SPEND_VERIFIER_ID
    ensures r.Ok? ==> r.value == pool.(totalDeposits := pool.totalDeposits - amount)
  {
    if amount == 0 then Err(InvalidAmount)
    else if pool.totalDeposits < amount then Err(InsufficientFunds)
    else if caller != SPEND_VERIFIER_ID then Err(UnauthorizedWithdrawal)
    else Ok(pool.(totalDeposits := pool.totalDeposits - amount))
  }
}
