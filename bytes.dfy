/** Fixed-width machine integers, public keys and little-endian byte encoding,
    shared by the record layouts and the on-chain instructions. */
module Bytes {

  const U32Limit: nat := 0x1_0000_0000
  const U64Limit: nat := 0x1_0000_0000_0000_0000
  const I64Min: int := -0x8000_0000_0000_0000
  const I64Limit: int := 0x8000_0000_0000_0000

  type u8 = x: int | 0 <= x < 0x100
  type u64 = x: int | 0 <= x < U64Limit
  type i64 = x: int | I64Min <= x < I64Limit

  /** A Solana public key: exactly 32 bytes. */
  const KeyLen: nat := 32
  type Pubkey = k: seq<u8> | |k| == KeyLen witness seq(32, _ => 0)

  /** The all-zero key (`Pubkey::default()`). */
  const ZeroKey: Pubkey := seq(KeyLen, _ => 0)

  /** 256 to the power `width`: one more than the largest value that fits in `width` bytes. */
  function Pow256(width: nat): nat
  {
    if width == 0 then 1 else 256 * Pow256(width - 1)
  }

  /** Reads a little-endian unsigned integer. */
  function FromLittleEndian(bs: seq<u8>): nat
  {
    if bs == [] then 0 else bs[0] + 256 * FromLittleEndian(bs[1..])
  }

  /** Writes `x` as `width` little-endian bytes; reading them back gives `x`. */
  function LittleEndian(x: nat, width: nat): (bs: seq<u8>)
    requires x < Pow256(width)
    ensures |bs| == width
    ensures FromLittleEndian(bs) == x
    decreases width
  {
    if width == 0 then []
    else
      assert x / 256 < Pow256(width - 1);
      [(x % 256) as u8] + LittleEndian(x / 256, width - 1)
  }

  lemma {:induction false} Pow256Values()
    ensures Pow256(4) == U32Limit && Pow256(8) == U64Limit
  {
    assert Pow256(1) == 256;
    assert Pow256(2) == 0x1_0000;
  }

  /** A slice that lies inside the first part of a concatenation. */
  lemma SliceOfPrefix(x: seq<u8>, y: seq<u8>, i: nat, j: nat)
    requires i <= j <= |x|
    ensures (x + y)[i..j] == x[i..j]
  {
    assert forall k :: 0 <= k < j - i ==> (x + y)[i..j][k] == x[i..j][k];
  }

  /** The second part of a concatenation, found at its offset. */
  lemma SliceAt(x: seq<u8>, y: seq<u8>, i: nat, j: nat)
    requires i <= j <= |y|
    ensures (x + y)[|x| + i..|x| + j] == y[i..j]
  {
    assert forall k :: 0 <= k < j - i ==> (x + y)[|x| + i..|x| + j][k] == y[i..j][k];
  }

  /** The two's-complement bit pattern of a signed 64-bit integer, as an unsigned value. */
  function TwosComplement(x: i64): (u: u64)
    ensures x >= 0 ==> u == x
    ensures x < 0 ==> u - x == U64Limit
  {
    if x < 0 then x + U64Limit else x
  }
}
