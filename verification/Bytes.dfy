/** Bytes, little-endian integers and the two's complement image of an int64 key. */
module Bytes {
  type byte = x: int | 0 <= x < 256

  function Pow256(n: nat): (r: nat)
    ensures r >= 1
  {
    if n == 0 then 1 else 256 * Pow256(n - 1)
  }

  /** The value that encoding/binary's little-endian readers give to a run of bytes. */
  function FromLE(b: seq<byte>): (r: nat)
    ensures r < Pow256(|b|)
  {
    if b == [] then 0 else b[0] + 256 * FromLE(b[1..])
  }

  /** The n low bytes of x, least significant first. */
  function ToLE(n: nat, x: nat): (b: seq<byte>)
    ensures |b| == n
  {
    if n == 0 then [] else [x % 256] + ToLE(n - 1, x / 256)
  }

  lemma {:induction false} FromToLE(n: nat, x: nat)
    requires x < Pow256(n)
    ensures FromLE(ToLE(n, x)) == x
  {
    if n > 0 {
      FromToLE(n - 1, x / 256);
      assert ToLE(n, x)[1..] == ToLE(n - 1, x / 256);
    }
  }

  lemma {:induction false} ToFromLE(b: seq<byte>)
    ensures ToLE(|b|, FromLE(b)) == b
  {
    if b != [] {
      ToFromLE(b[1..]);
      assert FromLE(b) % 256 == b[0];
      assert FromLE(b) / 256 == FromLE(b[1..]);
    }
  }

  lemma Widths()
    ensures Pow256(2) == 0x1_0000
    ensures Pow256(4) == 0x1_0000_0000
    ensures Pow256(8) == 0x1_0000_0000_0000_0000
  {
  }

  /** uint64(key) for an int64 key. */
  function ToU64(key: int): nat
    requires -0x8000_0000_0000_0000 <= key < 0x8000_0000_0000_0000
  {
    if key < 0 then key + 0x1_0000_0000_0000_0000 else key
  }

  /** int64(x) for a uint64 x. */
  function FromU64(x: nat): int {
    if x < 0x8000_0000_0000_0000 then x else x - 0x1_0000_0000_0000_0000
  }

  /** s and t have the same length and the same bytes in [lo, hi). */
  ghost predicate Agree(s: seq<byte>, t: seq<byte>, lo: int, hi: int) {
    |s| == |t| && forall a, b | 0 <= a <= b <= |s| && lo <= a && b <= hi :: t[a..b] == s[a..b]
  }
}
