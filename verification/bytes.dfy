/** Byte-level vocabulary shared by every program: bytes, fixed 32-byte arrays,
    the all-zero test, powers of two and little-endian integer decoding. */
module Bytes {

  type byte = b: int | 0 <= b < 256

  /** A fixed `[u8; 32]` array: hashes, commitments, nullifiers, field elements. */
  type Bytes32 = s: seq<byte> | |s| == 32 witness seq(32, _ => 0)

  /** Account addresses are 32-byte public keys. */
  type Pubkey = Bytes32

  /** The all-zero array `[0u8; 32]`. */
  const ZERO32: Bytes32 := [
    0, 0, 0, 0, 0, 0, 0, 0, 0, 0, 0, 0, 0, 0, 0, 0,
    0, 0, 0, 0, 0, 0, 0, 0, 0, 0, 0, 0, 0, 0, 0, 0]

  const U64_LIMIT: nat := 0x1_0000_0000_0000_0000
  const U16_LIMIT: nat := 0x1_0000

  type u64 = n: int | 0 <= n < U64_LIMIT
  type u16 = n: int | 0 <= n < U16_LIMIT

  /** `bytes.iter().all(|&x| x == 0)`. */
  predicate AllZero(s: seq<byte>) {
    forall i | 0 <= i < |s| :: s[i] == 0
  }

  lemma AllZeroIsZero32(s: Bytes32)
    ensures AllZero(s) <==> s == ZERO32
  {
    if AllZero(s) {
      assert forall i | 0 <= i < 32 :: s[i] == ZERO32[i];
    }
  }

  function Pow2(n: nat): (r: nat)
    ensures r >= 1
  {
    if n == 0 then 1 else 2 * Pow2(n - 1)
  }

  function Pow256(n: nat): (r: nat)
    ensures r >= 1
  {
    if n == 0 then 1 else 256 * Pow256(n - 1)
  }

  /** Little-endian value of a byte string: `u64::from_le_bytes` for 8 bytes. */
  function FromLe(b: seq<byte>): (n: nat)
    ensures n < Pow256(|b|)
  {
    if |b| == 0 then 0 else b[0] + 256 * FromLe(b[1..])
  }

  /** The `k` low-order bytes of `n`, least significant first: `to_le_bytes`. */
  function ToLe(n: nat, k: nat): (b: seq<byte>)
    ensures |b| == k
  {
    if k == 0 then [] else [n % 256] + ToLe(n / 256, k - 1)
  }

  /** Decoding inverts encoding for every value that fits. */
  lemma {:induction false} FromLeToLe(n: nat, k: nat)
    requires n < Pow256(k)
    ensures FromLe(ToLe(n, k)) == n
  {
    if k > 0 {
      var b := ToLe(n, k);
      assert b[1..] == ToLe(n / 256, k - 1);
      FromLeToLe(n / 256, k - 1);
    }
  }

  /** Encoding inverts decoding: no two byte strings decode alike. */
  lemma {:induction false} ToLeFromLe(b: seq<byte>)
    ensures ToLe(FromLe(b), |b|) == b
  {
    if |b| > 0 {
      var n := FromLe(b);
      assert n % 256 == b[0] && n / 256 == FromLe(b[1..]);
      ToLeFromLe(b[1..]);
    }
  }

  lemma Pow256Eight()
    ensures Pow256(8) == U64_LIMIT
  {
  }
}
