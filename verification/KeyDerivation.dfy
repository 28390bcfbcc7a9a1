/** HMAC (RFC 2104) and PBKDF2 (section 5.2 of RFC 8018) over any hash. */
module KeyDerivation {
  import opened Prelude
  import opened Bytes

  // ---------- Exclusive or ----------

  function Pow2(width: nat): (p: nat)
    ensures p > 0
  {
    if width == 0 then 1 else 2 * Pow2(width - 1)
  }

  function XorBits(a: nat, b: nat, width: nat): (r: nat)
    ensures r < Pow2(width)
  {
    if width == 0 then 0 else (a % 2 + b % 2) % 2 + 2 * XorBits(a / 2, b / 2, width - 1)
  }

  function Xor8(a: u8, b: u8): u8 {
    assert Pow2(8) == 0x100 by { assert Pow2(4) == 16; }
    XorBits(a, b, 8)
  }

  lemma {:induction false} XorBitsUndoes(a: nat, b: nat, width: nat)
    requires a < Pow2(width)
    ensures XorBits(XorBits(a, b, width), b, width) == a
  {
    hide XorBits;
    if width == 0 {
      NoBits(XorBits(a, b, width), b);
    } else {
      XorBitsUndoes(a / 2, b / 2, width - 1);
      XorBitsParts(a, b, width);
      XorBitsParts(XorBits(a, b, width), b, width);
      BitUndoes(a % 2, b % 2);
    }
  }

  lemma NoBits(a: nat, b: nat)
    ensures XorBits(a, b, 0) == 0
  {
  }

  lemma XorBitsParts(a: nat, b: nat, width: nat)
    requires width > 0
    ensures var r := XorBits(a, b, width);
      r % 2 == (a % 2 + b % 2) % 2 && r / 2 == XorBits(a / 2, b / 2, width - 1)
  {
    LowBit((a % 2 + b % 2) % 2, XorBits(a / 2, b / 2, width - 1));
  }

  lemma LowBit(bit: nat, rest: nat)
    requires bit < 2
    ensures (bit + 2 * rest) % 2 == bit && (bit + 2 * rest) / 2 == rest
  {
  }

  lemma BitUndoes(x: nat, y: nat)
    requires x < 2 && y < 2
    ensures ((x + y) % 2 + y) % 2 == x
  {
  }

  /** Bit `k` of a number, the lowest first. */
  function Bit(n: nat, k: nat): (b: nat)
    ensures b < 2
  {
    if k == 0 then n % 2 else Bit(n / 2, k - 1)
  }

  /** A bit of the result is set when exactly one of the two is. */
  lemma {:induction false} XorBitsAt(a: nat, b: nat, width: nat, k: nat)
    requires k < width
    ensures Bit(XorBits(a, b, width), k) == if Bit(a, k) == Bit(b, k) then 0 else 1
  {
    XorBitsParts(a, b, width);
    hide XorBits;
    if k > 0 {
      XorBitsAt(a / 2, b / 2, width - 1, k - 1);
    }
  }

  function XorBytes(a: Bytes, b: Bytes): (r: Bytes)
    requires |a| == |b|
    ensures |r| == |a|
    ensures forall i :: 0 <= i < |a| ==> r[i] == Xor8(a[i], b[i])
  {
    if a == [] then [] else [Xor8(a[0], b[0])] + XorBytes(a[1..], b[1..])
  }

  /** A second exclusive or takes the first one back. */
  lemma XorUndoes(a: Bytes, b: Bytes)
    requires |a| == |b|
    ensures XorBytes(XorBytes(a, b), b) == a
  {
    forall i | 0 <= i < |a| ensures XorBytes(XorBytes(a, b), b)[i] == a[i] {
      assert Pow2(8) == 0x100 by { assert Pow2(4) == 16; }
      XorBitsUndoes(a[i], b[i], 8);
    }
  }

  /** Exclusive or into the first buffer, byte by byte. */
  method XorInto(t0: Digest, u: Digest) returns (t: Digest)
    ensures t == XorBytes(t0, u)
  {
    t := t0;
    for i := 0 to 32
      invariant forall k :: 0 <= k < 32 ==> t[k] == if k < i then Xor8(t0[k], u[k]) else t0[k]
    {
      t := t[i := Xor8(t[i], u[i])];
    }
  }

  // ---------- HMAC ----------

  const BLOCK: nat := 64

  function Repeat(x: u8, n: nat): (b: Bytes)
    ensures |b| == n && forall i :: 0 <= i < n ==> b[i] == x
  {
    if n == 0 then [] else [x] + Repeat(x, n - 1)
  }

  /** The key as one block: hashed when longer, then zero-padded. */
  function KeyBlock(h: Hash, key: Bytes): (k: Bytes)
    ensures |k| == BLOCK
  {
    var k: Bytes := if |key| > BLOCK then h(key) else key;
    k + Repeat(0, BLOCK - |k|)
  }

  function HmacOf(h: Hash, key: Bytes, msg: Bytes): Digest {
    var k := KeyBlock(h, key);
    h(XorBytes(Repeat(0x5C, BLOCK), k) + h(XorBytes(Repeat(0x36, BLOCK), k) + msg))
  }

  method Pads(k: Bytes) returns (ipad: Bytes, opad: Bytes)
    requires |k| == BLOCK
    ensures ipad == XorBytes(Repeat(0x36, BLOCK), k) && opad == XorBytes(Repeat(0x5C, BLOCK), k)
  {
    hide Xor8;
    ipad, opad := Repeat(0x36, BLOCK), Repeat(0x5C, BLOCK);
    ghost var i0, o0 := XorBytes(ipad, k), XorBytes(opad, k);
    for i := 0 to BLOCK
      invariant |ipad| == BLOCK && |opad| == BLOCK
      invariant forall j :: 0 <= j < i ==> ipad[j] == i0[j] && opad[j] == o0[j]
      invariant forall j :: i <= j < BLOCK ==> ipad[j] == 0x36 && opad[j] == 0x5C
    {
      ipad := ipad[i := Xor8(ipad[i], k[i])];
      opad := opad[i := Xor8(opad[i], k[i])];
    }
  }

  method Hmac(h: Hash, key: Bytes, msg: Bytes) returns (mac: Digest)
    ensures mac == HmacOf(h, key, msg)
  {
    hide XorBytes;
    var k: Bytes := Repeat(0, BLOCK);
    if |key| > BLOCK {
      k := h(key) + k[32..];
    } else {
      k := key + k[|key|..];
    }
    assert k == KeyBlock(h, key);
    var ipad, opad := Pads(k);
    var inner := h(ipad + msg);
    mac := h(opad + inner);
  }

  /** Keys that differ only in trailing zeros within one block give the same code, and a key longer
      than a block gives the code of its hash. */
  lemma KeysThatCoincide(h: Hash, key: Bytes, zeros: nat, msg: Bytes)
    ensures |key| + zeros <= BLOCK ==> HmacOf(h, key + Repeat(0, zeros), msg) == HmacOf(h, key, msg)
    ensures |key| > BLOCK ==> HmacOf(h, h(key), msg) == HmacOf(h, key, msg)
  {
    hide XorBytes;
    if |key| + zeros <= BLOCK {
      assert KeyBlock(h, key + Repeat(0, zeros)) == KeyBlock(h, key);
    }
  }

  /** A key of one block: the key, or its hash when it is longer than 64 bytes, with zeros after. */
  ghost predicate IsBlockKey(h: Hash, key: Bytes, k: Bytes) {
    var short: Bytes := if |key| > 64 then h(key) else key;
    |k| == 64 && forall i :: 0 <= i < 64 ==> k[i] == if i < |short| then short[i] else 0
  }

  /** A key masked by one byte throughout, bit by bit. */
  ghost predicate IsMasked(k: Bytes, mask: u8, pad: Bytes) {
    |pad| == |k| && forall i, b: nat :: 0 <= i < |k| && b < 8 ==>
      Bit(pad[i], b) == if Bit(k[i], b) == Bit(mask, b) then 0 else 1
  }

  /** **The code is that of RFC 2104**: the hash of the outer pad and of the hash of the inner pad and the
      message, the pads being the block key masked by 0x5C and 0x36. */
  lemma HmacIsRfc(h: Hash, key: Bytes, msg: Bytes)
    ensures exists k, ipad, opad ::
      && IsBlockKey(h, key, k) && IsMasked(k, 0x36, ipad) && IsMasked(k, 0x5C, opad)
      && HmacOf(h, key, msg) == h(opad + h(ipad + msg))
  {
    var k := KeyBlock(h, key);
    assert IsBlockKey(h, key, k);
    MaskIs(k, 0x36);
    MaskIs(k, 0x5C);
    hide XorBytes, IsMasked, KeyBlock, Repeat;
  }

  lemma MaskIs(k: Bytes, mask: u8)
    ensures IsMasked(k, mask, XorBytes(Repeat(mask, |k|), k))
  {
    forall i, b: nat | 0 <= i < |k| && b < 8
      ensures Bit(XorBytes(Repeat(mask, |k|), k)[i], b) == if Bit(k[i], b) == Bit(mask, b) then 0 else 1
    {
      XorBitsAt(mask, k[i], 8, b);
    }
  }

  // ---------- PBKDF2 ----------

  /** The counter the source writes for a block: its index cast to 32 bits, plus one. */
  function Counter(block: nat): u32 {
    (block % 0x1_0000_0000 + 1) % 0x1_0000_0000
  }

  /** The j-th iterate for a counter. */
  function Iterate(h: Hash, password: Bytes, salt: Bytes, counter: Bytes, j: nat): Digest
    requires j >= 1
  {
    if j == 1 then HmacOf(h, password, salt + counter)
    else HmacOf(h, password, Iterate(h, password, salt, counter, j - 1))
  }

  /** The exclusive or of the first c iterates. */
  function BlockF(h: Hash, password: Bytes, salt: Bytes, counter: Bytes, c: nat): Digest
    requires c >= 1
  {
    if c == 1 then Iterate(h, password, salt, counter, 1)
    else XorBytes(BlockF(h, password, salt, counter, c - 1), Iterate(h, password, salt, counter, c))
  }

  /** The first n blocks, with the source's counters. */
  function Blocks(h: Hash, password: Bytes, salt: Bytes, c: nat, n: nat): (b: Bytes)
    requires c >= 1
    ensures |b| == 32 * n
  {
    if n == 0 then []
    else Blocks(h, password, salt, c, n - 1) + BlockF(h, password, salt, BeBytes(Counter(n - 1), 4), c)
  }

  /** As the standard numbers them: block i has counter i, from one. */
  function RfcBlocks(h: Hash, password: Bytes, salt: Bytes, c: nat, n: nat): (b: Bytes)
    requires c >= 1
    ensures |b| == 32 * n
  {
    if n == 0 then []
    else RfcBlocks(h, password, salt, c, n - 1) + BlockF(h, password, salt, BeBytes(n, 4), c)
  }

  function Derived(h: Hash, password: Bytes, salt: Bytes, c: nat, length: nat): (key: Bytes)
    requires c >= 1
    ensures |key| == length
  {
    Blocks(h, password, salt, c, (length + 31) / 32)[..length]
  }

  method DeriveBlock(h: Hash, password: Bytes, salt: Bytes, block: nat, iterations: u32) returns (t: Digest)
    requires iterations >= 1
    ensures t == BlockF(h, password, salt, BeBytes(Counter(block), 4), iterations)
  {
    hide HmacOf, Counter, BeBytes;
    ghost var counter := BeBytes(Counter(block), 4);
    var first := salt;
    first := first + BeBytes(Counter(block), 4);
    var u := Hmac(h, password, first);
    t := u;
    for j := 1 to iterations
      invariant u == Iterate(h, password, salt, counter, j)
      invariant t == BlockF(h, password, salt, counter, j)
    {
      u := Hmac(h, password, u);
      t := XorInto(t, u);
    }
  }

  /** Fill a buffer with derived key, a block at a time. */
  method Pbkdf2(h: Hash, password: Bytes, salt: Bytes, iterations: u32, out: array<u8>)
    requires iterations >= 1
    modifies out
    ensures out[..] == Derived(h, password, salt, iterations, out.Length)
  {
    hide BlockF, BeBytes, Counter, HmacOf, Iterate;
    var block := 0;
    while 32 * block < out.Length
      invariant 32 * block < out.Length + 32
      invariant var done := if 32 * block < out.Length then 32 * block else out.Length;
        out[..done] == Blocks(h, password, salt, iterations, block)[..done]
    {
      var t := DeriveBlock(h, password, salt, block, iterations);
      ghost var before := Blocks(h, password, salt, iterations, block);
      var size := if out.Length - 32 * block < 32 then out.Length - 32 * block else 32;
      assert out[..32 * block] == before;
      for j := 0 to size
        invariant out[..32 * block + j] == before + t[..j]
      {
        out[32 * block + j] := t[j];
        assert out[..32 * block + j + 1] == out[..32 * block + j] + [t[j]];
        assert t[..j + 1] == t[..j] + [t[j]];
        Associates(before, t[..j], [t[j]]);
      }
      assert before + t[..size] == (before + t)[..32 * block + size];
      block := block + 1;
    }
    assert block == (out.Length + 31) / 32;
    assert out[..] == out[..out.Length];
  }

  /** **A shorter key is a prefix of a longer one.** */
  lemma ShorterIsPrefix(h: Hash, password: Bytes, salt: Bytes, c: nat, short: nat, long: nat)
    requires c >= 1 && short <= long
    ensures Derived(h, password, salt, c, short) == Derived(h, password, salt, c, long)[..short]
  {
    BlocksPrefix(h, password, salt, c, (short + 31) / 32, (long + 31) / 32);
  }

  lemma {:induction false} BlocksPrefix(h: Hash, password: Bytes, salt: Bytes, c: nat, m: nat, n: nat)
    requires c >= 1 && m <= n
    ensures Blocks(h, password, salt, c, m) == Blocks(h, password, salt, c, n)[..32 * m]
  {
    hide BlockF, BeBytes, Counter;
    if m < n {
      BlocksPrefix(h, password, salt, c, m, n - 1);
    }
  }

  /** **The derived key is the standard's**, up to the length the standard allows. */
  lemma DerivedIsRfc(h: Hash, password: Bytes, salt: Bytes, c: nat, length: nat)
    requires c >= 1 && length <= 0xFFFF_FFFF * 32
    ensures Derived(h, password, salt, c, length) == RfcBlocks(h, password, salt, c, (length + 31) / 32)[..length]
  {
    BlocksAreRfc(h, password, salt, c, (length + 31) / 32);
  }

  lemma {:induction false} BlocksAreRfc(h: Hash, password: Bytes, salt: Bytes, c: nat, n: nat)
    requires c >= 1 && n <= 0xFFFF_FFFF
    ensures Blocks(h, password, salt, c, n) == RfcBlocks(h, password, salt, c, n)
  {
    hide BlockF, BeBytes;
    if n > 0 {
      BlocksAreRfc(h, password, salt, c, n - 1);
      assert Counter(n - 1) == n;
    }
  }

  /** The iterates of a block: the code of the salt and the counter, and then of the one before. */
  ghost predicate IsChain(h: Hash, password: Bytes, salt: Bytes, counter: Bytes, us: seq<Digest>) {
    && us != [] && us[0] == HmacOf(h, password, salt + counter)
    && forall j :: 0 < j < |us| ==> us[j] == HmacOf(h, password, us[j - 1])
  }

  /** How many of the iterates have a bit set. */
  function SetIn(us: seq<Digest>, i: nat, b: nat): nat
    requires i < 32
  {
    if us == [] then 0 else SetIn(us[..|us| - 1], i, b) + Bit(us[|us| - 1][i], b)
  }

  ghost predicate IsFolded(us: seq<Digest>, t: Digest) {
    forall i: nat, b: nat :: i < 32 && b < 8 ==> Bit(t[i], b) == SetIn(us, i, b) % 2
  }

  /** **A block is that of RFC 8018**: a bit of it is set when it is in an odd number of the c iterates. */
  lemma {:induction false} BlockIsRfc(h: Hash, password: Bytes, salt: Bytes, counter: Bytes, c: nat)
    returns (us: seq<Digest>)
    requires c >= 1
    ensures |us| == c && us[c - 1] == Iterate(h, password, salt, counter, c)
    ensures IsChain(h, password, salt, counter, us) && IsFolded(us, BlockF(h, password, salt, counter, c))
  {
    hide HmacOf, Bit, IsFolded;
    if c == 1 {
      us := [Iterate(h, password, salt, counter, 1)];
      FoldedOne(us[0]);
    } else {
      var before := BlockIsRfc(h, password, salt, counter, c - 1);
      var u := Iterate(h, password, salt, counter, c);
      us := before + [u];
      FoldedSnoc(before, BlockF(h, password, salt, counter, c - 1), u);
    }
  }

  lemma FoldedOne(u: Digest)
    ensures IsFolded([u], u)
  {
    assert [u][..0] == [];
  }

  lemma FoldedSnoc(us: seq<Digest>, t: Digest, u: Digest)
    requires IsFolded(us, t)
    ensures IsFolded(us + [u], XorBytes(t, u))
  {
    var more := us + [u];
    assert more[..|us|] == us;
    forall i: nat, b: nat | i < 32 && b < 8 ensures Bit(XorBytes(t, u)[i], b) == SetIn(more, i, b) % 2 {
      XorBitsAt(t[i], u[i], 8, b);
      hide Bit, XorBytes;
      assert SetIn(more, i, b) == SetIn(us, i, b) + Bit(u[i], b);
    }
  }

  /** **Each byte of a derived key** is the byte of its block, blocks of 32 bytes numbered from one. */
  lemma DerivedByteIsRfc(h: Hash, password: Bytes, salt: Bytes, c: nat, length: nat, n: nat)
    requires c >= 1 && n < length <= 0xFFFF_FFFF * 32
    ensures exists us, t: Digest ::
      && |us| == c && IsChain(h, password, salt, BeBytes(n / 32 + 1, 4), us) && IsFolded(us, t)
      && Derived(h, password, salt, c, length)[n] == t[n % 32]
  {
    hide BeBytes, HmacOf, Bit, BlockF;
    var block := n / 32 + 1;
    DerivedIsRfc(h, password, salt, c, length);
    RfcBlockAt(h, password, salt, c, (length + 31) / 32, n);
    var us := BlockIsRfc(h, password, salt, BeBytes(block, 4), c);
  }

  lemma {:induction false} RfcBlockAt(h: Hash, password: Bytes, salt: Bytes, c: nat, blocks: nat, n: nat)
    requires c >= 1 && n < 32 * blocks
    ensures RfcBlocks(h, password, salt, c, blocks)[n] == BlockF(h, password, salt, BeBytes(n / 32 + 1, 4), c)[n % 32]
  {
    hide BeBytes, BlockF;
    if n < 32 * (blocks - 1) {
      RfcBlockAt(h, password, salt, c, blocks - 1, n);
    } else {
      assert n / 32 == blocks - 1 && n % 32 == n - 32 * (blocks - 1);
    }
  }
}
