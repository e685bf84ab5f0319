/** Bytes, big-endian integers and single flag bits: the arithmetic every binary format of the repository shares. */
module Bytes {

  type byte = b: int | 0 <= b < 256
  type uint32 = n: int | 0 <= n < 0x1_0000_0000
  type uint64 = n: int | 0 <= n < 0x1_0000_0000_0000_0000
  type int64 = n: int | -0x8000_0000_0000_0000 <= n < 0x8000_0000_0000_0000

  datatype Option<+T> = None | Some(value: T)

  function Min(a: int, b: int): (m: int) {
    if a < b then a else b
  }

  function Pow2(k: nat): (p: nat)
    ensures p > 0
  {
    if k == 0 then 1 else 2 * Pow2(k - 1)
  }

  function Pow256(k: nat): (p: nat)
    ensures p > 0
  {
    if k == 0 then 1 else 256 * Pow256(k - 1)
  }

  lemma Associative(a: seq<byte>, b: seq<byte>, c: seq<byte>)
    ensures (a + b) + c == a + (b + c)
  {
  }

  // ---------- big-endian integers ----------

  /** The `width` low-order bytes of `n`, most significant first. */
  function BigEndian(n: nat, width: nat): (s: seq<byte>)
    ensures |s| == width
  {
    if width == 0 then [] else BigEndian(n / 256, width - 1) + [n % 256]
  }

  function FromBigEndian(s: seq<byte>): (n: nat)
    ensures n < Pow256(|s|)
  {
    if s == [] then 0 else 256 * FromBigEndian(s[..|s| - 1]) + s[|s| - 1]
  }

  lemma {:induction false} BigEndianRoundTrip(n: nat, width: nat)
    requires n < Pow256(width)
    ensures FromBigEndian(BigEndian(n, width)) == n
  {
    if width > 0 {
      BigEndianRoundTrip(n / 256, width - 1);
      assert BigEndian(n, width)[..width - 1] == BigEndian(n / 256, width - 1);
    }
  }

  lemma {:induction false} FromBigEndianRoundTrip(s: seq<byte>)
    ensures BigEndian(FromBigEndian(s), |s|) == s
  {
    if s != [] {
      FromBigEndianRoundTrip(s[..|s| - 1]);
      assert s == s[..|s| - 1] + [s[|s| - 1]];
    }
  }

  // ---------- flag bits ----------

  predicate HasBit(flags: nat, k: nat) {
    if k == 0 then flags % 2 == 1 else HasBit(flags / 2, k - 1)
  }

  /** Bit `k` counts from the least significant one: there are `k` bits below it. */
  lemma {:induction false} HasBitMeans(flags: nat, k: nat) returns (high: nat, low: nat)
    ensures flags == high * Pow2(k + 1) + (if HasBit(flags, k) then Pow2(k) else 0) + low && low < Pow2(k)
  {
    if k == 0 {
      high, low := flags / 2, 0;
      assert Pow2(1) == 2 * Pow2(0);
    } else {
      high, low := HasBitMeans(flags / 2, k - 1);
      assert 2 * (high * Pow2(k)) == high * (2 * Pow2(k));
      low := 2 * low + flags % 2;
    }
  }

  /** `flags | 1 << k` when `on`, `flags &^ 1 << k` otherwise. */
  function WithBit(flags: nat, k: nat, on: bool): (r: nat) {
    if k == 0 then flags - flags % 2 + (if on then 1 else 0)
    else 2 * WithBit(flags / 2, k - 1, on) + flags % 2
  }

  /** Writing one bit changes that bit and no other, and stays within any width that holds the bit. */
  lemma {:induction false} WithBitIsExact(flags: nat, k: nat, on: bool, j: nat)
    ensures HasBit(WithBit(flags, k, on), j) == if j == k then on else HasBit(flags, j)
  {
    if k > 0 && j > 0 {
      WithBitIsExact(flags / 2, k - 1, on, j - 1);
    }
  }

  lemma {:induction false} WithBitFits(flags: nat, k: nat, on: bool, width: nat)
    requires flags < Pow2(width) && k < width
    ensures WithBit(flags, k, on) < Pow2(width)
  {
    if k > 0 {
      WithBitFits(flags / 2, k - 1, on, width - 1);
    }
  }
}
