/** The Merkle tree the shielded pool evidently intends: an append-only tree
    of fixed height whose root, after leaves `L[0..n)` are inserted at
    indices `0..n`, is the root of the complete binary tree with `L` at its
    first leaves and zero leaves after them. This module defines that root
    (`Node`), shows where `compute_root` and the pool's `initialize` depart
    from it, and gives a corrected insertion proved to maintain it. */
module IncrementalMerkle {
  import opened Bytes
  import opened Results
  import SP = ShieldedPool

  // ---------------------------------------------------------------------------
  // Reference tree

  /** The node at `level` and position `p` of the complete tree over
      `leaves`, padded with zero leaves. */
  function Node(H: SP.Hasher, leaves: seq<Bytes32>, level: nat, p: nat): Bytes32
    decreases level
  {
    if level == 0 then (if p < |leaves| then leaves[p] else ZERO32)
    else H(Node(H, leaves, level - 1, 2 * p), Node(H, leaves, level - 1, 2 * p + 1))
  }

  /** Position at `level` of the node above leaf `n`: `n >> level`. */
  function Idx(n: nat, level: nat): nat {
    if level == 0 then n else Idx(n, level - 1) / 2
  }

  lemma {:induction false} IdxBounds(n: nat, level: nat)
    ensures Idx(n, level) * Pow2(level) <= n < (Idx(n, level) + 1) * Pow2(level)
  {
    if level > 0 {
      IdxBounds(n, level - 1);
      var q, P := Idx(n, level - 1), Pow2(level - 1);
      var q' := q / 2;
      assert Idx(n, level) == q' && Pow2(level) == 2 * P;
      MulTwice(q', P);
      MulTwice(q' + 1, P);
      MulMonotone(2 * q', q, P);
      MulMonotone(q + 1, 2 * q' + 2, P);
    }
  }

  lemma MulMonotone(a: nat, b: nat, c: nat)
    requires a <= b
    ensures a * c <= b * c
  {
  }

  lemma MulTwice(a: nat, c: nat)
    ensures a * (2 * c) == (2 * a) * c
  {
  }

  /** Adding one leaf moves the position at every level by at most one. */
  lemma {:induction false} IdxSucc(n: nat, level: nat)
    ensures Idx(n + 1, level) == Idx(n, level) || Idx(n + 1, level) == Idx(n, level) + 1
  {
    if level > 0 {
      IdxSucc(n, level - 1);
    }
  }

  /** Below the capacity of the tree, every leaf lies under the root. */
  lemma IdxTop(n: nat, height: nat)
    requires n < Pow2(height)
    ensures Idx(n, height) == 0
  {
    IdxBounds(n, height);
    if Idx(n, height) >= 1 {
      MulMonotone(1, Idx(n, height), Pow2(height));
    }
  }

  lemma {:induction false} IdxOfZero(level: nat)
    ensures Idx(0, level) == 0
  {
    if level > 0 {
      IdxOfZero(level - 1);
    }
  }

  /** A node whose leaves all lie at or beyond the end is an empty subtree. */
  lemma {:induction false} NodeEmpty(H: SP.Hasher, leaves: seq<Bytes32>, level: nat, p: nat)
    requires p * Pow2(level) >= |leaves|
    ensures Node(H, leaves, level, p) == SP.ZeroHash(H, level)
    decreases level
  {
    if level > 0 {
      var P := Pow2(level - 1);
      assert (2 * p) * P == p * Pow2(level);
      assert (2 * p + 1) * P >= (2 * p) * P by { MulMonotone(2 * p, 2 * p + 1, P); }
      NodeEmpty(H, leaves, level - 1, 2 * p);
      NodeEmpty(H, leaves, level - 1, 2 * p + 1);
    }
  }

  /** Appending a leaf leaves every node over earlier leaves unchanged. */
  lemma {:induction false} NodeFrame(H: SP.Hasher, leaves: seq<Bytes32>, x: Bytes32, level: nat, p: nat)
    requires (p + 1) * Pow2(level) <= |leaves|
    ensures Node(H, leaves + [x], level, p) == Node(H, leaves, level, p)
    decreases level
  {
    if level == 0 {
      assert (leaves + [x])[p] == leaves[p];
    } else {
      var P := Pow2(level - 1);
      assert (2 * p + 2) * P == (p + 1) * Pow2(level);
      assert (2 * p + 1) * P <= (2 * p + 2) * P by { MulMonotone(2 * p + 1, 2 * p + 2, P); }
      NodeFrame(H, leaves, x, level - 1, 2 * p);
      NodeFrame(H, leaves, x, level - 1, 2 * p + 1);
    }
  }

  // ---------------------------------------------------------------------------
  // Authentication paths

  /** The sibling of position `q`. */
  function Sibling(q: nat): nat {
    if q % 2 == 0 then q + 1 else q - 1
  }

  /** The `k` lowest siblings on the path from leaf `p` to the root. */
  function AuthPath(H: SP.Hasher, leaves: seq<Bytes32>, p: nat, k: nat): (r: seq<Bytes32>)
    ensures |r| == k
  {
    if k == 0 then [] else AuthPath(H, leaves, p, k - 1) + [Node(H, leaves, k - 1, Sibling(Idx(p, k - 1)))]
  }

  /** The path bits `verify_proof` expects: `true` where the path node is a
      left child. */
  function PathBits(p: nat, k: nat): (r: seq<bool>)
    ensures |r| == k
  {
    if k == 0 then [] else PathBits(p, k - 1) + [Idx(p, k - 1) % 2 == 0]
  }

  /** A node and its sibling, in path order, hash to their parent. */
  lemma ParentOfSiblings(H: SP.Hasher, leaves: seq<Bytes32>, level: nat, q: nat)
    ensures SP.PathStep(H, Node(H, leaves, level, q), Node(H, leaves, level, Sibling(q)), q % 2 == 0)
         == Node(H, leaves, level + 1, q / 2)
  {
    if q % 2 == 0 {
      assert 2 * (q / 2) == q;
    } else {
      assert 2 * (q / 2) + 1 == q;
    }
  }

  /** The last step of a path applies to the node the shorter path reaches. */
  lemma PathRootSnoc(H: SP.Hasher, leaf: Bytes32, proof: seq<Bytes32>, bits: seq<bool>, sibling: Bytes32, bit: bool)
    requires |proof| == |bits|
    ensures SP.PathRoot(H, leaf, proof + [sibling], bits + [bit])
         == SP.PathStep(H, SP.PathRoot(H, leaf, proof, bits), sibling, bit)
  {
    assert (proof + [sibling])[..|proof|] == proof;
    assert (bits + [bit])[..|bits|] == bits;
  }

  /** Folding a leaf with its authentication path reaches the node above it. */
  lemma {:induction false} AuthPathReachesNode(H: SP.Hasher, leaves: seq<Bytes32>, p: nat, k: nat)
    ensures SP.PathRoot(H, Node(H, leaves, 0, p), AuthPath(H, leaves, p, k), PathBits(p, k))
         == Node(H, leaves, k, Idx(p, k))
  {
    if k > 0 {
      var q := Idx(p, k - 1);
      PathRootSnoc(H, Node(H, leaves, 0, p), AuthPath(H, leaves, p, k - 1), PathBits(p, k - 1),
                   Node(H, leaves, k - 1, Sibling(q)), q % 2 == 0);
      AuthPathReachesNode(H, leaves, p, k - 1);
      ParentOfSiblings(H, leaves, k - 1, q);
    }
  }

  // ---------------------------------------------------------------------------
  // Corrected tree

  /** The corrected `initialize`: as the program's, except that the root is
      the empty-subtree hash of the full height. */
  function InitializeTree(H: SP.Hasher, height: nat): (t: SP.Tree)
    requires 1 <= height <= SP.MAX_LEVELS
    ensures t.Valid() && t.height == height
    ensures forall i | 0 <= i < height :: t.zeros[i] == SP.ZeroHash(H, i)
    ensures forall i | 0 <= i < height :: t.filledSubtrees[i] == SP.ZeroHash(H, i)
    ensures var program := SP.Initialize(H, SP.EMPTY_TREE, height);
            t.zeros == program.zeros && t.filledSubtrees == program.filledSubtrees
    ensures t.root == Node(H, [], height, 0)
  {
    var t := SP.Initialize(H, SP.EMPTY_TREE, height);
    NodeEmpty(H, [], height, 0);
    t.(root := SP.ZeroHash(H, height))
  }

  /** The corrected insertion loop: the running hash climbs every level,
      caching itself at each level where it is a left child and taking the
      empty-subtree hash there as its right sibling; at a right child it
      takes the cached left sibling. The hash reaching the top is the root. */
  function Ascend(H: SP.Hasher, fs: seq<Bytes32>, zeros: seq<Bytes32>, level: nat, height: nat, idx: nat, cur: Bytes32)
    : (r: (seq<Bytes32>, Bytes32))
    requires |fs| == SP.MAX_LEVELS && |zeros| == SP.MAX_LEVELS && level <= height <= SP.MAX_LEVELS
    ensures |r.0| == SP.MAX_LEVELS
    ensures forall i | 0 <= i < level :: r.0[i] == fs[i]
    ensures forall i | height <= i < SP.MAX_LEVELS :: r.0[i] == fs[i]
    decreases height - level
  {
    if level == height then (fs, cur)
    else if idx % 2 == 0 then Ascend(H, fs[level := cur], zeros, level + 1, height, idx / 2, H(cur, zeros[level]))
    else Ascend(H, fs, zeros, level + 1, height, idx / 2, H(fs[level], cur))
  }

  /** The corrected `insert_leaf`. */
  function Insert(H: SP.Hasher, t: SP.Tree, leafIndex: nat, leaf: Bytes32): (r: Result<SP.Tree, SP.ErrorCode>)
    requires t.Valid()
    ensures r.Err? <==> leafIndex >= Pow2(t.height)
    ensures r.Err? ==> r.error == SP.IndexOutOfBounds
    ensures r.Ok? ==> r.value.Valid() && r.value.height == t.height && r.value.zeros == t.zeros
    ensures r.Ok? ==> (r.value.filledSubtrees, r.value.root)
                      == Ascend(H, t.filledSubtrees, t.zeros, 0, t.height, leafIndex, leaf)
  {
    if leafIndex >= Pow2(t.height) then Err(SP.IndexOutOfBounds)
    else
      var (fs, root) := Ascend(H, t.filledSubtrees, t.zeros, 0, t.height, leafIndex, leaf);
      Ok(t.(filledSubtrees := fs, root := root))
  }

  /** Where the next leaf's path at `level` is a right child, the frontier
      holds its complete left sibling. */
  predicate LeftCached(H: SP.Hasher, fs: seq<Bytes32>, leaves: seq<Bytes32>, level: nat)
    requires level < |fs|
  {
    Idx(|leaves|, level) % 2 == 1 ==> fs[level] == Node(H, leaves, level, Idx(|leaves|, level) - 1)
  }

  /** The state a tree holding `leaves` must be in: the empty-subtree hashes
      below its height, a cached left sibling wherever the next leaf's path
      is a right child, and the reference root. */
  predicate Frontier(H: SP.Hasher, t: SP.Tree, leaves: seq<Bytes32>) {
    && t.Valid() && 1 <= t.height && |leaves| <= Pow2(t.height)
    && (forall i | 0 <= i < t.height :: t.zeros[i] == SP.ZeroHash(H, i))
    && (forall i | 0 <= i < t.height :: LeftCached(H, t.filledSubtrees, leaves, i))
    && t.root == Node(H, leaves, t.height, 0)
  }

  /** At a level where the new leaf's path is a left child, its right
      sibling is still an empty subtree. */
  lemma RightOfNewLeafIsEmpty(H: SP.Hasher, leaves: seq<Bytes32>, x: Bytes32, level: nat)
    requires Idx(|leaves|, level) % 2 == 0
    ensures Node(H, leaves + [x], level, Idx(|leaves|, level) + 1) == SP.ZeroHash(H, level)
  {
    IdxBounds(|leaves|, level);
    NodeEmpty(H, leaves + [x], level, Idx(|leaves|, level) + 1);
  }

  /** At a level where the new leaf's path is a right child, its left
      sibling is complete and does not see the new leaf. */
  lemma LeftOfNewLeafIsComplete(H: SP.Hasher, leaves: seq<Bytes32>, x: Bytes32, level: nat)
    requires Idx(|leaves|, level) % 2 == 1
    ensures Node(H, leaves + [x], level, Idx(|leaves|, level) - 1) == Node(H, leaves, level, Idx(|leaves|, level) - 1)
  {
    IdxBounds(|leaves|, level);
    NodeFrame(H, leaves, x, level, Idx(|leaves|, level) - 1);
  }

  /** One level of the corrected insertion, for a left child: the hash going
      up is the parent node, and the slot written is the one the next leaf
      needs if its path turns right here. */
  lemma StepLeft(H: SP.Hasher, zero: Bytes32, leaves: seq<Bytes32>, x: Bytes32, level: nat, cur: Bytes32)
    requires Idx(|leaves|, level) % 2 == 0
    requires zero == SP.ZeroHash(H, level)
    requires cur == Node(H, leaves + [x], level, Idx(|leaves|, level))
    ensures H(cur, zero) == Node(H, leaves + [x], level + 1, Idx(|leaves|, level + 1))
    ensures Idx(|leaves| + 1, level) % 2 == 1 ==> cur == Node(H, leaves + [x], level, Idx(|leaves| + 1, level) - 1)
  {
    var q := Idx(|leaves|, level);
    RightOfNewLeafIsEmpty(H, leaves, x, level);
    IdxSucc(|leaves|, level);
    assert 2 * (q / 2) == q && 2 * (q / 2) + 1 == q + 1;
  }

  /** One level of the corrected insertion, for a right child: the hash
      going up is the parent node, and the cached slot stays right for the
      next leaf. */
  lemma StepRight(H: SP.Hasher, left: Bytes32, leaves: seq<Bytes32>, x: Bytes32, level: nat, cur: Bytes32)
    requires Idx(|leaves|, level) % 2 == 1
    requires left == Node(H, leaves, level, Idx(|leaves|, level) - 1)
    requires cur == Node(H, leaves + [x], level, Idx(|leaves|, level))
    ensures H(left, cur) == Node(H, leaves + [x], level + 1, Idx(|leaves|, level + 1))
    ensures Idx(|leaves| + 1, level) % 2 == 1 ==> left == Node(H, leaves + [x], level, Idx(|leaves| + 1, level) - 1)
  {
    var q := Idx(|leaves|, level);
    LeftOfNewLeafIsComplete(H, leaves, x, level);
    IdxSucc(|leaves|, level);
    assert 2 * (q / 2) == q - 1 && 2 * (q / 2) + 1 == q;
  }

  /** One level of `Ascend`: the hash carried up is the parent node, the
      slot it may write is right for the next leaf, and the slots above are
      untouched. */
  lemma AscendStep(H: SP.Hasher, fs: seq<Bytes32>, zeros: seq<Bytes32>, level: nat, height: nat,
                   leaves: seq<Bytes32>, x: Bytes32, cur: Bytes32)
    returns (fs1: seq<Bytes32>, cur1: Bytes32)
    requires |fs| == SP.MAX_LEVELS && |zeros| == SP.MAX_LEVELS && level < height <= SP.MAX_LEVELS
    requires zeros[level] == SP.ZeroHash(H, level)
    requires LeftCached(H, fs, leaves, level)
    requires cur == Node(H, leaves + [x], level, Idx(|leaves|, level))
    ensures |fs1| == SP.MAX_LEVELS && fs1 == fs[level := fs1[level]]
    ensures Ascend(H, fs, zeros, level, height, Idx(|leaves|, level), cur)
         == Ascend(H, fs1, zeros, level + 1, height, Idx(|leaves|, level + 1), cur1)
    ensures cur1 == Node(H, leaves + [x], level + 1, Idx(|leaves|, level + 1))
    ensures LeftCached(H, fs1, leaves + [x], level)
  {
    var q := Idx(|leaves|, level);
    assert Idx(|leaves|, level + 1) == q / 2;
    if q % 2 == 0 {
      fs1, cur1 := fs[level := cur], H(cur, zeros[level]);
      assert Ascend(H, fs, zeros, level, height, q, cur) == Ascend(H, fs1, zeros, level + 1, height, q / 2, cur1);
      StepLeft(H, zeros[level], leaves, x, level, cur);
    } else {
      fs1, cur1 := fs, H(fs[level], cur);
      assert Ascend(H, fs, zeros, level, height, q, cur) == Ascend(H, fs1, zeros, level + 1, height, q / 2, cur1);
      StepRight(H, fs[level], leaves, x, level, cur);
    }
  }

  lemma {:induction false} AscendCorrect(H: SP.Hasher, fs: seq<Bytes32>, zeros: seq<Bytes32>, level: nat, height: nat,
                                         leaves: seq<Bytes32>, x: Bytes32, cur: Bytes32)
    requires |fs| == SP.MAX_LEVELS && |zeros| == SP.MAX_LEVELS && level <= height <= SP.MAX_LEVELS
    requires forall i | 0 <= i < height :: zeros[i] == SP.ZeroHash(H, i)
    requires forall i | level <= i < height :: LeftCached(H, fs, leaves, i)
    requires cur == Node(H, leaves + [x], level, Idx(|leaves|, level))
    ensures Ascend(H, fs, zeros, level, height, Idx(|leaves|, level), cur).1
         == Node(H, leaves + [x], height, Idx(|leaves|, height))
    ensures forall i | level <= i < height ::
              LeftCached(H, Ascend(H, fs, zeros, level, height, Idx(|leaves|, level), cur).0, leaves + [x], i)
    decreases height - level
  {
    if level < height {
      var fs1, cur1 := AscendStep(H, fs, zeros, level, height, leaves, x, cur);
      forall i | level + 1 <= i < height ensures LeftCached(H, fs1, leaves, i) {
        assert LeftCached(H, fs, leaves, i) && fs1[i] == fs[i];
      }
      AscendCorrect(H, fs1, zeros, level + 1, height, leaves, x, cur1);
      var r := Ascend(H, fs1, zeros, level + 1, height, Idx(|leaves|, level + 1), cur1);
      assert r.0[level] == fs1[level];
      assert LeftCached(H, r.0, leaves + [x], level);
    }
  }

  /** Inserting the next leaf into a tree in the frontier state yields the
      frontier state of the longer leaf sequence. */
  lemma InsertStep(H: SP.Hasher, t: SP.Tree, leaves: seq<Bytes32>, x: Bytes32)
    requires Frontier(H, t, leaves) && |leaves| < Pow2(t.height)
    ensures Insert(H, t, |leaves|, x).Ok?
    ensures Frontier(H, Insert(H, t, |leaves|, x).value, leaves + [x])
  {
    var n := |leaves|;
    assert Node(H, leaves + [x], 0, Idx(n, 0)) == x;
    AscendCorrect(H, t.filledSubtrees, t.zeros, 0, t.height, leaves, x, x);
    IdxTop(n, t.height);
  }

  /** The corrected initial tree is the frontier state of no leaves. */
  lemma InitialFrontier(H: SP.Hasher, height: nat)
    requires 1 <= height <= SP.MAX_LEVELS
    ensures Frontier(H, InitializeTree(H, height), [])
  {
    var t := InitializeTree(H, height);
    forall i | 0 <= i < height ensures LeftCached(H, t.filledSubtrees, [], i) {
      IdxOfZero(i);
    }
  }

  /** Leaves inserted in order, `leaves[i]` at index `i`. */
  function InsertAll(H: SP.Hasher, t: SP.Tree, leaves: seq<Bytes32>): (r: Result<SP.Tree, SP.ErrorCode>)
    requires t.Valid()
    ensures r.Ok? ==> r.value.Valid() && r.value.height == t.height
    decreases |leaves|
  {
    if |leaves| == 0 then Ok(t)
    else
      var t' :- InsertAll(H, t, leaves[..|leaves| - 1]);
      Insert(H, t', |leaves| - 1, leaves[|leaves| - 1])
  }

  lemma {:induction false} InsertAllFrontier(H: SP.Hasher, t: SP.Tree, leaves: seq<Bytes32>)
    requires Frontier(H, t, []) && |leaves| <= Pow2(t.height)
    ensures InsertAll(H, t, leaves).Ok?
    ensures Frontier(H, InsertAll(H, t, leaves).value, leaves)
    decreases |leaves|
  {
    if |leaves| > 0 {
      var prefix, x := leaves[..|leaves| - 1], leaves[|leaves| - 1];
      InsertAllFrontier(H, t, prefix);
      var t' := InsertAll(H, t, prefix).value;
      assert InsertAll(H, t, leaves) == Insert(H, t', |prefix|, x);
      InsertStep(H, t', prefix, x);
      assert prefix + [x] == leaves;
    }
  }

  /** The corrected tree's root is the Merkle root of the leaves inserted so
      far, for every sequence of up to `2^height` leaves. */
  lemma InsertAllBuildsMerkleTree(H: SP.Hasher, height: nat, leaves: seq<Bytes32>)
    requires 1 <= height <= SP.MAX_LEVELS && |leaves| <= Pow2(height)
    ensures InsertAll(H, InitializeTree(H, height), leaves).Ok?
    ensures Frontier(H, InsertAll(H, InitializeTree(H, height), leaves).value, leaves)
    ensures InsertAll(H, InitializeTree(H, height), leaves).value.root == Node(H, leaves, height, 0)
  {
    InitialFrontier(H, height);
    InsertAllFrontier(H, InitializeTree(H, height), leaves);
  }

  /** Every inserted leaf's authentication path verifies against the
      corrected tree's stored root. */
  lemma InsertedLeavesVerify(H: SP.Hasher, height: nat, leaves: seq<Bytes32>, p: nat)
    requires 1 <= height <= SP.MAX_LEVELS && |leaves| <= Pow2(height) && p < |leaves|
    ensures InsertAll(H, InitializeTree(H, height), leaves).Ok?
    ensures var t := InsertAll(H, InitializeTree(H, height), leaves).value;
            SP.VerifyProof(H, t, leaves[p], AuthPath(H, leaves, p, height), PathBits(p, height), t.root) == Ok(true)
  {
    InsertAllBuildsMerkleTree(H, height, leaves);
    AuthPathReachesNode(H, leaves, p, height);
    IdxTop(p, height);
  }

  // ---------------------------------------------------------------------------
  // The program's tree, measured against the reference

  /** A hash that keeps its right input; it exhibits the counterexamples. */
  function KeepRight(a: Bytes32, b: Bytes32): Bytes32 {
    b
  }

  /** With two leaves in a height-2 tree, `compute_root` gives
      `H(L0, H(L0, L1))` where the Merkle root is `H(H(L0, L1), H(0, 0))`. */
  lemma AsWrittenRootOfTwoLeaves(H: SP.Hasher, l0: Bytes32, l1: Bytes32)
    ensures var t0 := SP.Initialize(H, SP.EMPTY_TREE, 2);
            && SP.InsertLeaf(H, t0, 0, l0).Ok?
            && SP.InsertLeaf(H, SP.InsertLeaf(H, t0, 0, l0).value, 1, l1).Ok?
            && SP.InsertLeaf(H, SP.InsertLeaf(H, t0, 0, l0).value, 1, l1).value.root == H(l0, H(l0, l1))
    ensures Node(H, [l0, l1], 2, 0) == H(H(l0, l1), H(ZERO32, ZERO32))
  {
    var t0 := SP.Initialize(H, SP.EMPTY_TREE, 2);
    var t1 := SP.InsertLeaf(H, t0, 0, l0).value;
    assert t1.filledSubtrees[0] == l0;
    assert SP.TrailingOnes(1) == 1;
  }

  /** A concrete discrepancy: under `KeepRight`, after inserting a zero leaf
      and a non-zero leaf `l1`, the program's root is `l1` while the Merkle
      root is zero, and the second leaf's authentication path is rejected. */
  lemma AsWrittenRootIsNotMerkleRoot(l1: Bytes32)
    requires l1 != ZERO32
    ensures var t0 := SP.Initialize(KeepRight, SP.EMPTY_TREE, 2);
            var t2 := SP.InsertLeaf(KeepRight, SP.InsertLeaf(KeepRight, t0, 0, ZERO32).value, 1, l1).value;
            && t2.root == l1
            && Node(KeepRight, [ZERO32, l1], 2, 0) == ZERO32
            && SP.VerifyProof(KeepRight, t2, l1, AuthPath(KeepRight, [ZERO32, l1], 1, 2), PathBits(1, 2), t2.root)
               == Ok(false)
  {
    AsWrittenRootOfTwoLeaves(KeepRight, ZERO32, l1);
    AuthPathReachesNode(KeepRight, [ZERO32, l1], 1, 2);
    assert Idx(1, 2) == 0;
  }

  // ---------------------------------------------------------------------------
  // The pool over the corrected tree

  /** The pool's `initialize` as evidently intended: the tree account is
      initialized to height 20 and the ledger records its root. */
  function InitializePool(H: SP.Hasher, authority: Pubkey): (r: (SP.Pool, SP.Tree))
    ensures r.0.authority == authority && r.0.treeHeight == 20 && r.0.nextIndex == 0 && r.0.totalDeposits == 0
    ensures r.1.height == 20 && r.0.merkleRoot == r.1.root
    ensures Frontier(H, r.1, [])
  {
    var t := InitializeTree(H, SP.MAX_LEVELS);
    InitialFrontier(H, SP.MAX_LEVELS);
    (SP.Pool(authority, t.root, 20, 0, 0), t)
  }

  /** `deposit` over the corrected tree. */
  function Deposit(H: SP.Hasher, pool: SP.Pool, tree: SP.Tree, commitment: Bytes32, amount: u64)
    : (r: Result<(SP.Pool, SP.Tree), SP.ErrorCode>)
    requires tree.Valid()
    ensures amount == 0 ==> r == Err(SP.InvalidAmount)
    ensures amount > 0 ==> (r.Err? <==> pool.nextIndex >= Pow2(tree.height))
    ensures amount > 0 && r.Err? ==> r.error == SP.IndexOutOfBounds
    ensures r.Ok? ==>
              && Insert(H, tree, pool.nextIndex, commitment) == Ok(r.value.1)
              && r.value.0 == pool.(merkleRoot := r.value.1.root, nextIndex := pool.nextIndex + 1,
                                    totalDeposits := pool.totalDeposits + amount)
  {
    if amount == 0 then Err(SP.InvalidAmount)
    else
      var t :- Insert(H, tree, pool.nextIndex, commitment);
      Ok((pool.(merkleRoot := t.root, nextIndex := pool.nextIndex + 1, totalDeposits := pool.totalDeposits + amount), t))
  }

  /** The pool's recorded root stays the Merkle root of all commitments so
      far, and deposits succeed until the tree's leaves are used up (2^20
      from the corrected `initialize`). */
  lemma DepositKeepsMerkleRoot(H: SP.Hasher, pool: SP.Pool, tree: SP.Tree, commitments: seq<Bytes32>,
                               c: Bytes32, amount: u64)
    requires Frontier(H, tree, commitments) && pool.nextIndex == |commitments|
    requires amount > 0 && |commitments| < Pow2(tree.height)
    ensures Deposit(H, pool, tree, c, amount).Ok?
    ensures Frontier(H, Deposit(H, pool, tree, c, amount).value.1, commitments + [c])
    ensures Deposit(H, pool, tree, c, amount).value.0.merkleRoot == Node(H, commitments + [c], tree.height, 0)
    ensures Deposit(H, pool, tree, c, amount).value.0.nextIndex == |commitments| + 1
  {
    InsertStep(H, tree, commitments, c);
  }

  /** The program's `initialize` leaves the tree at height 0: the first
      deposit is accepted but records nothing and leaves the root zero, and
      the second is refused. */
  lemma AsWrittenPoolHoldsOneDeposit(H: SP.Hasher, authority: Pubkey, c0: Bytes32, c1: Bytes32, a0: u64, a1: u64)
    requires a0 > 0 && a1 > 0
    ensures var (pool, tree) := SP.InitializePool(authority);
            var r0 := SP.Deposit(H, pool, tree, c0, a0);
            && r0.Ok?
            && r0.value.0.merkleRoot == ZERO32
            && r0.value.1 == tree
            && SP.Deposit(H, r0.value.0, r0.value.1, c1, a1) == Err(SP.IndexOutOfBounds)
  {
    var (pool, tree) := SP.InitializePool(authority);
    assert Pow2(0) == 1;
    assert tree.filledSubtrees[0] == ZERO32;
  }
}
