/** Fixed-width integers as bytes, both ends first, with two's complement for signed ones. */
module Bytes {
  import opened Prelude

  type Bytes = seq<u8>

  function Pow256(width: nat): (p: nat)
    ensures p > 0
  {
    if width == 0 then 1 else 256 * Pow256(width - 1)
  }

  /** Every width the formats use. */
  lemma Widths()
    ensures Pow256(4) == 0x1_0000_0000
    ensures Pow256(8) == 0x1_0000_0000_0000_0000
    ensures Pow256(16) == 0x1_0000_0000_0000_0000_0000_0000_0000_0000
  {
    assert Pow256(2) == 0x1_0000;
    assert Pow256(6) == 0x1_0000_0000_0000 by {
      assert Pow256(4) == 0x1_0000_0000;
    }
    assert Pow256(10) == 0x1_0000_0000_0000_0000_0000 by {
      assert Pow256(8) == 0x1_0000_0000_0000_0000;
    }
    assert Pow256(14) == 0x1_0000_0000_0000_0000_0000_0000_0000 by {
      assert Pow256(12) == 0x1_0000_0000_0000_0000_0000_0000;
    }
  }

  function LeBytes(n: nat, width: nat): (b: Bytes)
    ensures |b| == width
  {
    if width == 0 then [] else [n % 256] + LeBytes(n / 256, width - 1)
  }

  function BeBytes(n: nat, width: nat): (b: Bytes)
    ensures |b| == width
  {
    if width == 0 then [] else BeBytes(n / 256, width - 1) + [n % 256]
  }

  function FromLe(b: Bytes): nat {
    if b == [] then 0 else b[0] + 256 * FromLe(b[1..])
  }

  function FromBe(b: Bytes): nat {
    if b == [] then 0 else 256 * FromBe(b[..|b| - 1]) + b[|b| - 1]
  }

  lemma {:induction false} LeRoundTrip(n: nat, width: nat)
    requires n < Pow256(width)
    ensures FromLe(LeBytes(n, width)) == n
  {
    if width > 0 {
      LeRoundTrip(n / 256, width - 1);
      assert LeBytes(n, width)[1..] == LeBytes(n / 256, width - 1);
    }
  }

  lemma {:induction false} BeRoundTrip(n: nat, width: nat)
    requires n < Pow256(width)
    ensures FromBe(BeBytes(n, width)) == n
  {
    if width > 0 {
      BeRoundTrip(n / 256, width - 1);
      assert BeBytes(n, width)[..width - 1] == BeBytes(n / 256, width - 1);
    }
  }

  lemma {:induction false} FromBeBound(b: Bytes)
    ensures FromBe(b) < Pow256(|b|)
  {
    if b != [] {
      FromBeBound(b[..|b| - 1]);
    }
  }

  lemma {:induction false} FromLeBound(b: Bytes)
    ensures FromLe(b) < Pow256(|b|)
  {
    if b != [] {
      FromLeBound(b[1..]);
    }
  }

  /** The two orders are each other's reverse; the little-endian one starts with the lowest byte. */
  lemma {:induction false} LeReversesBe(n: nat, width: nat, i: nat)
    requires i < width
    ensures LeBytes(n, width)[i] == BeBytes(n, width)[width - 1 - i]
    ensures LeBytes(n, width)[0] == n % 256
  {
    if i > 0 {
      LeReversesBe(n / 256, width - 1, i - 1);
    }
  }

  /** Two's complement in `width` bytes. */
  function Unsigned(x: int, width: nat): (n: nat)
    requires 0 <= 2 * x + Pow256(width) < 2 * Pow256(width)
    ensures n < Pow256(width)
  {
    if x < 0 then x + Pow256(width) else x
  }

  function Signed(n: nat, width: nat): (x: int)
    requires n < Pow256(width)
    ensures 0 <= 2 * x + Pow256(width) < 2 * Pow256(width)
  {
    if 2 * n < Pow256(width) then n else n - Pow256(width)
  }

  lemma SignedRoundTrip(x: int, width: nat)
    requires 0 <= 2 * x + Pow256(width) < 2 * Pow256(width)
    ensures Signed(Unsigned(x, width), width) == x
  {
  }

  function LeU32(n: u32): (b: Bytes) ensures |b| == 4 { LeBytes(n, 4) }
  function LeU64(n: u64): (b: Bytes) ensures |b| == 8 { LeBytes(n, 8) }
  function LeI64(x: i64): (b: Bytes) ensures |b| == 8 { Widths(); LeBytes(Unsigned(x, 8), 8) }
  function LeI128(x: i128): (b: Bytes) ensures |b| == 16 { Widths(); LeBytes(Unsigned(x, 16), 16) }

  lemma LeU32Injective(m: u32, n: u32)
    requires LeU32(m) == LeU32(n)
    ensures m == n
  {
    Widths();
    LeRoundTrip(m, 4);
    LeRoundTrip(n, 4);
  }

  lemma LeU64Injective(m: u64, n: u64)
    requires LeU64(m) == LeU64(n)
    ensures m == n
  {
    Widths();
    LeRoundTrip(m, 8);
    LeRoundTrip(n, 8);
  }

  lemma LeI64Injective(x: i64, y: i64)
    requires LeI64(x) == LeI64(y)
    ensures x == y
  {
    Widths();
    LeRoundTrip(Unsigned(x, 8), 8);
    LeRoundTrip(Unsigned(y, 8), 8);
    SignedRoundTrip(x, 8);
    SignedRoundTrip(y, 8);
  }

  lemma LeI128Injective(x: i128, y: i128)
    requires LeI128(x) == LeI128(y)
    ensures x == y
  {
    Widths();
    LeRoundTrip(Unsigned(x, 16), 16);
    LeRoundTrip(Unsigned(y, 16), 16);
    SignedRoundTrip(x, 16);
    SignedRoundTrip(y, 16);
  }

  /** Equal concatenations whose first parts have equal length agree part by part. */
  lemma Cut(a: Bytes, x: Bytes, b: Bytes, y: Bytes)
    requires |a| == |b| && a + x == b + y
    ensures a == b && x == y
  {
    assert a == (a + x)[..|a|] && b == (b + y)[..|b|];
    assert x == (a + x)[|a|..] && y == (b + y)[|b|..];
  }
}
