/** Standard base64 with padding: section 4 of RFC 4648. */
module Base64 {
  import opened Prelude
  import opened Bytes

  const UPPER: string := "ABCDEFGHIJKLMNOPQRSTUVWXYZ"
  const LOWER: string := "abcdefghijklmnopqrstuvwxyz"
  const REST: string := "0123456789+/"
  const ALPHABET: string := UPPER + LOWER + REST

  /** A six-bit value. */
  type Sextet = v: int | 0 <= v < 64

  function Symbol(v: Sextet): char {
    assert |ALPHABET| == 64;
    ALPHABET[v]
  }

  /** Where a character first stands in the alphabet. */
  function PositionFrom(c: char, from: nat): (v: Option<Sextet>)
    requires from <= 64
    ensures v.Some? ==> Symbol(v.value) == c
    decreases 64 - from
  {
    if from == 64 then None
    else if Symbol(from) == c then Some(from)
    else PositionFrom(c, from + 1)
  }

  function Position(c: char): (v: Option<Sextet>)
    ensures v.Some? ==> Symbol(v.value) == c
  {
    PositionFrom(c, 0)
  }

  /** The alphabet by ranges: no symbol occurs twice and none is the padding. */
  lemma SymbolRanges(v: Sextet)
    ensures Symbol(v) ==
      if v < 26 then ('A' as int + v) as char
      else if v < 52 then ('a' as int + v - 26) as char
      else if v < 62 then ('0' as int + v - 52) as char
      else if v == 62 then '+'
      else '/'
  {
    assert v < 26 ==> Symbol(v) == UPPER[v];
    assert 26 <= v < 52 ==> Symbol(v) == LOWER[v - 26];
    assert 52 <= v ==> Symbol(v) == REST[v - 52];
  }

  lemma {:induction false} PositionOf(v: Sextet, from: nat)
    requires from <= v
    ensures PositionFrom(Symbol(v), from) == Some(v)
    ensures Symbol(v) != '='
    decreases v - from
  {
    SymbolRanges(v);
    SymbolRanges(from);
    if from < v {
      hide Symbol;
      PositionOf(v, from + 1);
    }
  }

  // ---------- Encoding ----------

  function At(b: Bytes, i: nat): (n: nat)
    ensures n < 0x100
  {
    if i < |b| then b[i] else 0
  }

  /** Up to three bytes as one 24-bit group, padded with zeros. */
  function Group(b: Bytes): (n: nat)
    requires 1 <= |b| <= 3
    ensures n < 0x100_0000
  {
    At(b, 0) * 0x1_0000 + At(b, 1) * 0x100 + At(b, 2)
  }

  function Quad(b: Bytes): (q: string)
    requires 1 <= |b| <= 3
    ensures |q| == 4
  {
    var n := Group(b);
    [Symbol(n / 0x4_0000), Symbol(n / 0x1000 % 64),
     if |b| > 1 then Symbol(n / 64 % 64) else '=',
     if |b| > 2 then Symbol(n % 64) else '=']
  }

  function Encoded(bytes: Bytes): string {
    if bytes == [] then ""
    else if |bytes| <= 3 then Quad(bytes)
    else Quad(bytes[..3]) + Encoded(bytes[3..])
  }

  method EncodeChunk(chunk: Bytes, out0: string) returns (out: string)
    requires 1 <= |chunk| <= 3
    ensures out == out0 + Quad(chunk)
  {
    hide Symbol;
    var n: nat := match |chunk|
      case 3 => At(chunk, 0) * 0x1_0000 + At(chunk, 1) * 0x100 + At(chunk, 2)
      case 2 => At(chunk, 0) * 0x1_0000 + At(chunk, 1) * 0x100
      case _ => At(chunk, 0) * 0x1_0000;
    assert n == Group(chunk);
    hide Group;
    out := out0 + [Symbol(n / 0x4_0000)];
    out := out + [Symbol(n / 0x1000 % 64)];
    out := out + [if |chunk| > 1 then Symbol(n / 64 % 64) else '='];
    out := out + [if |chunk| > 2 then Symbol(n % 64) else '='];
  }

  method Encode(bytes: Bytes) returns (out: string)
    ensures out == Encoded(bytes)
  {
    hide Quad, Encoded;
    out := "";
    EmptyEncoding();
    var at := 0;
    assert bytes[0..] == bytes;
    while at < |bytes|
      invariant at <= |bytes|
      invariant out + Encoded(bytes[at..]) == Encoded(bytes)
    {
      var end := if at + 3 < |bytes| then at + 3 else |bytes|;
      NextChunk(bytes[at..]);
      assert bytes[at..end] == bytes[at..][..end - at] && bytes[end..] == bytes[at..][end - at..];
      out := EncodeChunk(bytes[at..end], out);
      at := end;
    }
    assert bytes[at..] == [];
  }

  lemma EmptyEncoding()
    ensures Encoded([]) == ""
  {
  }

  lemma NextChunk(bytes: Bytes)
    requires bytes != []
    ensures var k := if |bytes| < 3 then |bytes| else 3;
      Encoded(bytes) == Quad(bytes[..k]) + Encoded(bytes[k..])
  {
    hide Quad;
    if |bytes| <= 3 {
      assert bytes[..|bytes|] == bytes && bytes[|bytes|..] == [];
      assert Quad(bytes) + "" == Quad(bytes);
    }
  }

  // ---------- Decoding ----------

  function TrailingPads(q: string): (p: nat)
    ensures p <= |q|
    ensures forall i :: |q| - p <= i < |q| ==> q[i] == '='
    ensures p < |q| ==> q[|q| - 1 - p] != '='
  {
    if q == [] || q[|q| - 1] != '=' then 0 else 1 + TrailingPads(q[..|q| - 1])
  }

  /** The six-bit values of a run of characters. */
  function Sextets(q: string): (v: Option<seq<nat>>)
    ensures v.Some? ==>
      |v.value| == |q| && forall i :: 0 <= i < |q| ==> v.value[i] < 64 && Position(q[i]) == Some(v.value[i])
    ensures v.None? ==> exists i :: 0 <= i < |q| && Position(q[i]) == None
  {
    if q == [] then Some([])
    else
      match (Sextets(q[..|q| - 1]), Position(q[|q| - 1]))
      case (Some(v), Some(last)) => Some(v + [last])
      case _ => None
  }

  /** Sextet `i` of a group, in its place. */
  function Weight(i: nat): (w: nat)
    requires i < 4
  {
    if i == 0 then 0x4_0000 else if i == 1 then 0x1000 else if i == 2 then 64 else 1
  }

  function Assemble(v: seq<nat>): (n: nat)
    requires |v| <= 4
  {
    if v == [] then 0 else Assemble(v[..|v| - 1]) + v[|v| - 1] * Weight(|v| - 1)
  }

  lemma AssembleNone()
    ensures Assemble([]) == 0
  {
  }

  lemma AssembleSnoc(v: seq<nat>, last: nat)
    requires |v| < 4
    ensures Assemble(v + [last]) == Assemble(v) + last * Weight(|v|)
  {
    assert (v + [last])[..|v|] == v;
  }

  function GroupBytes(n: nat, pad: nat): (b: Bytes)
    ensures |b| == if pad < 1 then 3 else if pad < 2 then 2 else 1
  {
    [n / 0x1_0000 % 0x100] + (if pad < 2 then [n / 0x100 % 0x100] else []) + (if pad < 1 then [n % 0x100] else [])
  }

  function QuadDecoded(q: string): (b: Option<Bytes>)
    requires |q| == 4
    ensures b.Some? ==> 1 <= |b.value| <= 3
  {
    var pad := TrailingPads(q);
    if pad > 2 then None
    else
      match Sextets(q[..4 - pad])
      case None => None
      case Some(v) => Some(GroupBytes(Assemble(v), pad))
  }

  function Decoded(s: string): Option<Bytes> {
    if |s| % 4 != 0 then None
    else if s == "" then Some([])
    else
      match (QuadDecoded(s[..4]), Decoded(s[4..]))
      case (Some(b), Some(rest)) => Some(b + rest)
      case _ => None
  }

  method CountPads(q: string) returns (pad: nat)
    requires |q| == 4
    ensures pad == TrailingPads(q)
  {
    pad := 0;
    while pad < 4 && q[3 - pad] == '='
      invariant pad <= 4 && TrailingPads(q) == pad + TrailingPads(q[..4 - pad])
    {
      assert q[..4 - pad][..3 - pad] == q[..3 - pad];
      pad := pad + 1;
    }
  }

  method AddSextets(q: string) returns (n: Option<nat>)
    requires |q| <= 4
    ensures n == if Sextets(q).None? then None else Some(Assemble(Sextets(q).value))
  {
    hide Position, Symbol, Assemble;
    ghost var vs: seq<nat> := [];
    var sum: nat := 0;
    AssembleNone();
    for i := 0 to |q|
      invariant Sextets(q[..i]) == Some(vs) && sum == Assemble(vs)
    {
      assert q[..i + 1][..i] == q[..i];
      match Position(q[i]) {
        case None =>
          NoSextet(q, i);
          return None;
        case Some(v) =>
          AssembleSnoc(vs, v);
          vs := vs + [v];
          sum := sum + v * Weight(i);
      }
    }
    assert q[..|q|] == q;
    n := Some(sum);
  }

  method DecodeQuad(q: string) returns (b: Option<Bytes>)
    requires |q| == 4
    ensures b == QuadDecoded(q)
  {
    hide Position, Symbol, GroupBytes, Assemble, TrailingPads, Sextets;
    var pad := CountPads(q);
    if pad > 2 || '=' in q[..4 - pad] {
      PaddingIsNoSymbol(q, pad);
      return None;
    }
    var n := AddSextets(q[..4 - pad]);
    if n.None? {
      return None;
    }
    var out := PutGroup(n.value, pad);
    b := Some(out);
  }

  method PutGroup(n: nat, pad: nat) returns (out: Bytes)
    ensures out == GroupBytes(n, pad)
  {
    out := [n / 0x1_0000 % 0x100];
    if pad < 2 {
      out := out + [n / 0x100 % 0x100];
    }
    if pad < 1 {
      out := out + [n % 0x100];
    }
  }

  lemma NoSextet(q: string, i: nat)
    requires i < |q| && Position(q[i]) == None
    ensures Sextets(q) == None
  {
  }

  lemma PaddingIsNoSymbol(q: string, pad: nat)
    requires |q| == 4 && pad == TrailingPads(q) && (pad > 2 || '=' in q[..4 - pad])
    ensures QuadDecoded(q) == None
  {
    hide TrailingPads, Sextets, GroupBytes, Assemble, Position;
    if pad <= 2 {
      var head := q[..4 - pad];
      var i :| 0 <= i < |head| && head[i] == '=';
      PadHasNoPosition();
      NoSextet(head, i);
    }
  }

  lemma PadHasNoPosition()
    ensures Position('=') == None
  {
    hide PositionFrom;
    var v := Position('=');
    if v.Some? {
      PositionOf(v.value, 0);
    }
  }

  method Decode(s: string) returns (r: Option<Bytes>)
    ensures r == Decoded(s)
  {
    hide QuadDecoded;
    if |s| % 4 != 0 {
      return None;
    }
    var out: Bytes := [];
    assert s[0..] == s && forall rest: Bytes :: out + rest == rest;
    for k := 0 to |s| / 4
      invariant Decoded(s[4 * k..]) == None ==> Decoded(s) == None
      invariant forall rest :: Decoded(s[4 * k..]) == Some(rest) ==> Decoded(s) == Some(out + rest)
    {
      var t := s[4 * k..];
      assert t[4..] == s[4 * (k + 1)..] && t[..4] == s[4 * k..4 * k + 4];
      var b := DecodeQuad(s[4 * k..4 * k + 4]);
      if b.None? {
        return None;
      }
      ghost var before := out;
      out := out + b.value;
      forall rest | Decoded(t[4..]) == Some(rest) ensures Decoded(s) == Some(out + rest) {
        assert before + (b.value + rest) == out + rest;
      }
    }
    assert s[4 * (|s| / 4)..] == "";
    assert out + [] == out;
    r := Some(out);
  }

  // ---------- The round trip ----------

  lemma ThreeSextets(q: string, a: Sextet, b: Sextet, c: Sextet, d: Sextet)
    requires q == [Symbol(a), Symbol(b), Symbol(c), Symbol(d)]
    ensures QuadDecoded(q) == Some(GroupBytes(Assemble([a, b, c, d]), 0))
  {
    PositionOf(a, 0);
    PositionOf(b, 0);
    PositionOf(c, 0);
    PositionOf(d, 0);
    hide Symbol, PositionFrom;
    var v := Sextets(q[..4]);
    assert v.Some?;
    assert v.value == [a, b, c, d];
  }

  lemma TwoSextets(q: string, a: Sextet, b: Sextet, c: Sextet)
    requires q == [Symbol(a), Symbol(b), Symbol(c), '=']
    ensures QuadDecoded(q) == Some(GroupBytes(Assemble([a, b, c]), 1))
  {
    PositionOf(a, 0);
    PositionOf(b, 0);
    PositionOf(c, 0);
    hide Symbol, PositionFrom;
    assert q[..3] == [Symbol(a), Symbol(b), Symbol(c)];
    assert TrailingPads(q) == 1 by { assert TrailingPads(q[..3]) == 0; }
    var v := Sextets(q[..3]);
    assert v.Some?;
    assert v.value == [a, b, c];
  }

  lemma OneSextet(q: string, a: Sextet, b: Sextet)
    requires q == [Symbol(a), Symbol(b), '=', '=']
    ensures QuadDecoded(q) == Some(GroupBytes(Assemble([a, b]), 2))
  {
    PositionOf(a, 0);
    PositionOf(b, 0);
    hide Symbol, PositionFrom;
    assert q[..2] == [Symbol(a), Symbol(b)];
    assert TrailingPads(q) == 2 by {
      assert q[..3][..2] == q[..2];
      assert TrailingPads(q[..2]) == 0 && TrailingPads(q[..3]) == 1;
    }
    var v := Sextets(q[..2]);
    assert v.Some?;
    assert v.value == [a, b];
  }

  /** A group is its four sextets, and its three bytes. */
  lemma GroupParts(n: nat)
    requires n < 0x100_0000
    ensures n == n / 0x4_0000 * 0x4_0000 + n / 0x1000 % 64 * 0x1000 + n / 64 % 64 * 64 + n % 64
    ensures n == n / 0x1_0000 * 0x1_0000 + n / 0x100 % 0x100 * 0x100 + n % 0x100
  {
    NestedDivision(n);
    Division(n, 64);
    Division(n / 64, 64);
    Division(n / 0x1000, 64);
    Division(n, 0x100);
    Division(n / 0x100, 0x100);
  }

  lemma Division(n: nat, d: nat)
    requires d > 0
    ensures n == n / d * d + n % d
  {
  }

  lemma NestedDivision(n: nat)
    ensures n / 0x1000 == n / 64 / 64 && n / 0x4_0000 == n / 0x1000 / 64 && n / 0x1_0000 == n / 0x100 / 0x100
  {
  }

  lemma BytesOfGroup(x: nat, y: nat, z: nat)
    requires x < 0x100 && y < 0x100 && z < 0x100
    ensures var n := x * 0x1_0000 + y * 0x100 + z;
      && GroupBytes(n, 0) == [x, y, z] && GroupBytes(n, 1) == [x, y] && GroupBytes(n, 2) == [x]
      && n / 0x100 == x * 0x100 + y && n / 0x1_0000 == x
  {
    var n := x * 0x1_0000 + y * 0x100 + z;
    assert n / 0x100 == x * 0x100 + y;
    assert n / 0x1_0000 == x;
  }

  lemma AssembleAll(a: nat, b: nat, c: nat, d: nat)
    ensures Assemble([a, b]) == a * 0x4_0000 + b * 0x1000
    ensures Assemble([a, b, c]) == a * 0x4_0000 + b * 0x1000 + c * 64
    ensures Assemble([a, b, c, d]) == a * 0x4_0000 + b * 0x1000 + c * 64 + d
  {
    var v := [a, b, c, d];
    assert [a, b, c][..2] == [a, b] && [a, b][..1] == [a] && v[..3] == [a, b, c];
    assert Assemble([a]) == a * 0x4_0000;
  }

  lemma GroupRoundTrip(b: Bytes)
    requires 1 <= |b| <= 3
    ensures GroupBytes(Group(b), 3 - |b|) == b
  {
    var x, y, z := At(b, 0), At(b, 1), At(b, 2);
    assert b == if |b| == 3 then [x, y, z] else if |b| == 2 then [x, y] else [x];
    assert Group(b) == x * 0x1_0000 + y * 0x100 + z;
    hide GroupBytes, At, Group;
    BytesOfGroup(x, y, z);
  }

  /** The sextets of a group, and that those padding replaces are zero. */
  lemma GroupSextets(b: Bytes)
    requires 1 <= |b| <= 3
    ensures var n := Group(b);
      && n == n / 0x4_0000 * 0x4_0000 + n / 0x1000 % 64 * 0x1000 + n / 64 % 64 * 64 + n % 64
      && (|b| < 3 ==> n % 64 == 0)
      && (|b| < 2 ==> n / 64 % 64 == 0)
  {
    var n, x, y := Group(b), At(b, 0), At(b, 1);
    assert |b| < 3 ==> n == (x * 0x100 + y) * 0x100;
    assert |b| < 2 ==> n == x * 0x100 * 0x100;
    GroupParts(n);
    hide Group, At;
    if |b| == 2 {
      ShortGroup(x * 0x100 + y);
    } else if |b| == 1 {
      ShortGroup(x * 0x100);
    }
  }

  lemma SextetsGiveBytes(q: string, pad: nat, v0: Sextet, v1: Sextet, v2: Sextet, v3: Sextet)
    requires pad <= 2
    requires q == [Symbol(v0), Symbol(v1), if pad < 2 then Symbol(v2) else '=', if pad < 1 then Symbol(v3) else '=']
    requires (pad >= 1 ==> v3 == 0) && (pad >= 2 ==> v2 == 0)
    ensures QuadDecoded(q) == Some(GroupBytes(Assemble([v0, v1, v2, v3]), pad))
  {
    hide Symbol, QuadDecoded, Assemble, GroupBytes;
    AssembleAll(v0, v1, v2, v3);
    if pad == 0 {
      ThreeSextets(q, v0, v1, v2, v3);
    } else if pad == 1 {
      TwoSextets(q, v0, v1, v2);
    } else {
      OneSextet(q, v0, v1);
    }
  }

  lemma QuadSextets(b: Bytes) returns (v0: Sextet, v1: Sextet, v2: Sextet, v3: Sextet)
    requires 1 <= |b| <= 3
    ensures Quad(b) == [Symbol(v0), Symbol(v1), if |b| > 1 then Symbol(v2) else '=', if |b| > 2 then Symbol(v3) else '=']
    ensures Group(b) == Assemble([v0, v1, v2, v3])
    ensures (|b| < 3 ==> v3 == 0) && (|b| < 2 ==> v2 == 0)
  {
    GroupSextets(b);
    hide Symbol, Group, Assemble;
    var n := Group(b);
    v0, v1, v2, v3 := n / 0x4_0000, n / 0x1000 % 64, n / 64 % 64, n % 64;
    AssembleAll(v0, v1, v2, v3);
  }

  lemma QuadRoundTrip(b: Bytes)
    requires 1 <= |b| <= 3
    ensures QuadDecoded(Quad(b)) == Some(b)
  {
    hide Symbol, QuadDecoded, Group, GroupBytes, Assemble, Quad;
    GroupRoundTrip(b);
    var v0, v1, v2, v3 := QuadSextets(b);
    SextetsGiveBytes(Quad(b), 3 - |b|, v0, v1, v2, v3);
  }

  /** A group whose last byte is zero ends in a zero sextet; with two, in two. */
  lemma ShortGroup(m: nat)
    ensures m * 0x100 % 64 == 0
    ensures m % 0x100 == 0 ==> m * 0x100 / 64 % 64 == 0
  {
    assert m * 0x100 == 64 * (m * 4);
    assert m * 0x100 / 64 == m * 4;
    if m % 0x100 == 0 {
      var k := m / 0x100;
      assert m * 4 == 64 * (k * 16);
    }
  }

  /** **Decoding undoes encoding**, for every byte string. */
  lemma {:induction false} RoundTrip(bytes: Bytes)
    ensures Decoded(Encoded(bytes)) == Some(bytes)
  {
    hide Quad, QuadDecoded;
    if bytes != [] {
      NextChunk(bytes);
      var k := if |bytes| < 3 then |bytes| else 3;
      var head, rest := bytes[..k], bytes[k..];
      QuadRoundTrip(head);
      RoundTrip(rest);
      EncodedLength(rest);
      QuadThenRest(Quad(head), Encoded(rest));
      assert bytes == head + rest;
    }
  }

  lemma QuadThenRest(q: string, t: string)
    requires |q| == 4 && |t| % 4 == 0
    ensures Decoded(q + t) == Joined(QuadDecoded(q), Decoded(t))
  {
    hide QuadDecoded;
    var s := q + t;
    assert s[..4] == q && s[4..] == t;
    DecodedUnfolds(s);
    hide Decoded;
  }

  lemma DecodedUnfolds(s: string)
    requires s != "" && |s| % 4 == 0
    ensures Decoded(s) == Joined(QuadDecoded(s[..4]), Decoded(s[4..]))
  {
    hide QuadDecoded;
  }

  lemma {:induction false} EncodedLength(bytes: Bytes)
    ensures |Encoded(bytes)| == (|bytes| + 2) / 3 * 4
  {
    hide Quad;
    if |bytes| > 3 {
      EncodedLength(bytes[3..]);
    }
  }

  lemma EncodingInjective(a: Bytes, b: Bytes)
    ensures Encoded(a) == Encoded(b) ==> a == b
  {
    RoundTrip(a);
    RoundTrip(b);
  }

  /** The text of two decoded texts joined, or nothing. */
  function Joined(a: Option<Bytes>, b: Option<Bytes>): Option<Bytes> {
    if a.Some? && b.Some? then Some(a.value + b.value) else None
  }

  /** **Decoding distributes over concatenation** wherever the first text is whole groups, padded or not. */
  lemma {:induction false} DecodeConcat(s: string, t: string)
    requires |s| % 4 == 0
    ensures Decoded(s + t) == Joined(Decoded(s), Decoded(t))
  {
    hide QuadDecoded, Joined, Decoded;
    DecodedNothing(t);
    DecodedNothing(s + t);
    if s == "" {
      assert s + t == t;
      JoinedFacts(Some([]), Some([]), Decoded(t));
    } else if |t| % 4 == 0 {
      DecodeConcat(s[4..], t);
      assert s == s[..4] + s[4..] && s + t == s[..4] + (s[4..] + t);
      QuadThenRest(s[..4], s[4..]);
      QuadThenRest(s[..4], s[4..] + t);
      JoinedFacts(QuadDecoded(s[..4]), Decoded(s[4..]), Decoded(t));
    } else {
      JoinedFacts(Decoded(s), Decoded(t), Decoded(t));
    }
  }

  lemma DecodedNothing(t: string)
    ensures |t| % 4 != 0 ==> Decoded(t) == None
    ensures Decoded("") == Some([])
  {
  }

  lemma JoinedFacts(a: Option<Bytes>, b: Option<Bytes>, c: Option<Bytes>)
    ensures Joined(a, Joined(b, c)) == Joined(Joined(a, b), c)
    ensures b == None ==> Joined(a, b) == None
    ensures Joined(Some([]), c) == c
  {
    if a.Some? && b.Some? && c.Some? {
      assert a.value + (b.value + c.value) == a.value + b.value + c.value;
    }
    assert c.Some? ==> [] + c.value == c.value;
  }

  lemma {:induction false} EncodedHasNoComma(bytes: Bytes)
    ensures ',' !in Encoded(bytes)
  {
    if bytes != [] {
      NextChunk(bytes);
      var k := if |bytes| < 3 then |bytes| else 3;
      QuadHasNoComma(bytes[..k]);
      EncodedHasNoComma(bytes[k..]);
    }
  }

  lemma QuadHasNoComma(b: Bytes)
    requires 1 <= |b| <= 3
    ensures ',' !in Quad(b)
  {
    forall v: Sextet ensures Symbol(v) != ',' {
      SymbolRanges(v);
    }
    hide Symbol, Group;
  }

  // ---------- Which texts are encodings ----------

  /** A group whose unused bits are zero. */
  predicate CanonicalQuad(q: string)
    requires |q| == 4
  {
    var pad := TrailingPads(q);
    && (pad == 1 ==> Position(q[2]).Some? && Position(q[2]).value % 4 == 0)
    && (pad == 2 ==> Position(q[1]).Some? && Position(q[1]).value % 16 == 0)
  }

  /** Padding only at the very end, over zero bits. */
  predicate Canonical(s: string)
    requires |s| % 4 == 0
  {
    if s == "" then true
    else if |s| == 4 then CanonicalQuad(s)
    else s[3] != '=' && Canonical(s[4..])
  }

  lemma DecodedParts(q: string) returns (v: seq<nat>)
    requires |q| == 4 && QuadDecoded(q).Some?
    ensures var pad := TrailingPads(q);
      && pad <= 2 && |v| == 4 - pad
      && (forall i :: 0 <= i < 4 - pad ==> v[i] < 64 && q[i] == Symbol(v[i]) && Position(q[i]) == Some(v[i]))
      && (forall i :: 4 - pad <= i < 4 ==> q[i] == '=')
      && QuadDecoded(q).value == GroupBytes(Assemble(v), pad)
  {
    hide Symbol, PositionFrom, Position, GroupBytes, Assemble;
    v := Sextets(q[..4 - TrailingPads(q)]).value;
  }

  lemma QuadCanonicalExactly(q: string)
    requires |q| == 4 && QuadDecoded(q).Some?
    ensures Quad(QuadDecoded(q).value) == q <==> CanonicalQuad(q)
  {
    hide Symbol, PositionFrom, Position, GroupBytes, Assemble, QuadDecoded, Sextets, TrailingPads, Quad;
    var v := DecodedParts(q);
    SymbolsDiffer();
    if |v| == 4 {
      assert v == [v[0], v[1], v[2], v[3]];
      AssembleAll(v[0], v[1], v[2], v[3]);
      NoneCut(v[0], v[1], v[2], v[3]);
    } else if |v| == 3 {
      assert v == [v[0], v[1], v[2]];
      AssembleAll(v[0], v[1], v[2], 0);
      OneCut(v[0], v[1], v[2]);
    } else {
      assert v == [v[0], v[1]];
      AssembleAll(v[0], v[1], 0, 0);
      TwoCut(v[0], v[1]);
    }
  }

  // What encoding writes back for a decoded group: bits beyond the last whole byte become zero.

  lemma CutGroup(n: nat)
    requires n < 0x100_0000
    ensures Group(GroupBytes(n, 0)) == n
    ensures Group(GroupBytes(n, 1)) == n / 0x100 * 0x100
    ensures Group(GroupBytes(n, 2)) == n / 0x1_0000 * 0x1_0000
  {
    var x, y, z := n / 0x1_0000, n / 0x100 % 0x100, n % 0x100;
    GroupParts(n);
    hide GroupBytes;
    BytesOfGroup(x, y, z);
    ThreeBytes(x, y, z);
  }

  lemma ThreeBytes(x: u8, y: u8, z: u8)
    ensures Group([x, y, z]) == x as int * 0x1_0000 + y as int * 0x100 + z
    ensures Group([x, y]) == x as int * 0x1_0000 + y as int * 0x100
    ensures Group([x]) == x as int * 0x1_0000
  {
  }

  lemma SextetsOfGroup(a: nat, b: nat, c: nat, d: nat)
    requires a < 64 && b < 64 && c < 64 && d < 64
    ensures var n := a * 0x4_0000 + b * 0x1000 + c * 64 + d;
      n / 0x4_0000 == a && n / 0x1000 % 64 == b && n / 64 % 64 == c && n % 64 == d
  {
    var n := a * 0x4_0000 + b * 0x1000 + c * 64 + d;
    assert n / 64 == a * 0x1000 + b * 64 + c;
    assert n / 0x1000 == a * 64 + b;
  }

  lemma NoneCut(a: nat, b: nat, c: nat, d: nat)
    requires a < 64 && b < 64 && c < 64 && d < 64
    ensures Quad(GroupBytes(a * 0x4_0000 + b * 0x1000 + c * 64 + d, 0)) == [Symbol(a), Symbol(b), Symbol(c), Symbol(d)]
  {
    hide Symbol, Group, GroupBytes;
    SextetsOfGroup(a, b, c, d);
    CutGroup(a * 0x4_0000 + b * 0x1000 + c * 64 + d);
  }

  lemma OneCut(a: nat, b: nat, c: nat)
    requires a < 64 && b < 64 && c < 64
    ensures Quad(GroupBytes(a * 0x4_0000 + b * 0x1000 + c * 64, 1)) == [Symbol(a), Symbol(b), Symbol(c / 4 * 4), '=']
  {
    hide Symbol, Group, GroupBytes;
    var n := a * 0x4_0000 + b * 0x1000 + c * 64;
    CutGroup(n);
    assert n / 0x100 * 0x100 == a * 0x4_0000 + b * 0x1000 + c / 4 * 4 * 64;
    SextetsOfGroup(a, b, c / 4 * 4, 0);
  }

  lemma TwoCut(a: nat, b: nat)
    requires a < 64 && b < 64
    ensures Quad(GroupBytes(a * 0x4_0000 + b * 0x1000, 2)) == [Symbol(a), Symbol(b / 16 * 16), '=', '=']
  {
    hide Symbol, Group, GroupBytes;
    var n := a * 0x4_0000 + b * 0x1000;
    CutGroup(n);
    assert n / 0x1_0000 * 0x1_0000 == a * 0x4_0000 + b / 16 * 16 * 0x1000;
    SextetsOfGroup(a, b / 16 * 16, 0, 0);
  }

  lemma SymbolsDiffer()
    ensures forall v: Sextet, w: Sextet :: Symbol(v) == Symbol(w) ==> v == w
  {
    forall v: Sextet, w: Sextet | Symbol(v) == Symbol(w) ensures v == w {
      PositionOf(v, 0);
      PositionOf(w, 0);
    }
  }

  /** **Encoding undoes decoding exactly on canonical texts**: others decode too, and to the same bytes. */
  lemma {:induction false} EncodeDecodeExactly(s: string)
    requires Decoded(s).Some?
    ensures Encoded(Decoded(s).value) == s <==> Canonical(s)
  {
    hide QuadDecoded, Decoded, Quad, CanonicalQuad, Encoded;
    DecodedEnds(s);
    if s != "" {
      DecodedUnfolds(s);
      var q, t := s[..4], s[4..];
      var b, rest := QuadDecoded(q).value, Decoded(t).value;
      EncodeDecodeExactly(t);
      QuadCanonicalExactly(q);
      assert s == q + t;
      if |s| == 4 {
        DecodedEnds(t);
        LastQuad(b, rest);
        assert q == s;
      } else {
        PadsShorten(q);
        DecodedIsNotEmpty(t);
        if q[3] != '=' {
          FullQuadIsCanonical(q);
          WholeQuad(b, rest);
        } else {
          EarlyPadding(b, rest, s);
        }
      }
    }
  }

  lemma DecodedEnds(s: string)
    requires Decoded(s).Some?
    ensures |s| % 4 == 0
    ensures s == "" ==> Decoded(s).value == [] && Encoded([]) == ""
  {
    hide QuadDecoded, Quad;
  }

  lemma LastQuad(b: Bytes, rest: Bytes)
    requires 1 <= |b| <= 3
    ensures rest == [] ==> Encoded(b + rest) == Quad(b)
  {
    assert rest == [] ==> b + rest == b;
  }

  lemma WholeQuad(b: Bytes, rest: Bytes)
    requires |b| == 3 && rest != []
    ensures Encoded(b + rest) == Quad(b) + Encoded(rest)
  {
    hide Quad;
    assert (b + rest)[..3] == b && (b + rest)[3..] == rest;
  }

  lemma DecodedIsNotEmpty(s: string)
    requires s != "" && Decoded(s).Some?
    ensures Decoded(s).value != []
  {
  }

  lemma PadsShorten(q: string)
    requires |q| == 4 && QuadDecoded(q).Some?
    ensures |QuadDecoded(q).value| == 3 <==> q[3] != '='
  {
  }

  lemma FullQuadIsCanonical(q: string)
    requires |q| == 4 && q[3] != '='
    ensures CanonicalQuad(q)
  {
  }

  /** A group that ends in padding before the last one is never written. */
  lemma EarlyPadding(b: Bytes, rest: Bytes, s: string)
    requires |s| > 4 && s[3] == '=' && |b| < 3 && rest != []
    ensures Encoded(b + rest) != s
  {
    var x := b + rest;
    if |x| > 3 {
      QuadEnd(x[..3]);
    } else {
      EncodedLength(x);
    }
  }

  lemma QuadEnd(b: Bytes)
    requires |b| == 3
    ensures Quad(b)[3] != '='
  {
    PositionOf(Group(b) % 64, 0);
  }

  /** Two texts for one byte string. */
  lemma TwoTextsOneString()
    ensures Decoded("Zm8=") == Some([0x66, 0x6F]) && Decoded("Zm9=") == Some([0x66, 0x6F])
  {
    hide QuadDecoded, Decoded;
    ZeroBitsQuad();
    OneBitQuad();
    OneQuad("Zm8=");
    OneQuad("Zm9=");
  }

  lemma OneQuad(q: string)
    requires |q| == 4
    ensures Decoded(q) == QuadDecoded(q)
  {
    hide QuadDecoded;
    DecodedUnfolds(q);
    assert q[..4] == q && q[4..] == "";
    JoinedWithNothing(QuadDecoded(q));
    assert Decoded("") == Some([]);
  }

  lemma JoinedWithNothing(b: Option<Bytes>)
    ensures Joined(b, Some([])) == b
  {
    assert b.Some? ==> b.value + [] == b.value;
  }

  lemma ZeroBitsQuad()
    ensures QuadDecoded("Zm8=") == Some([0x66, 0x6F])
  {
    hide QuadDecoded, Symbol, Assemble, GroupBytes;
    SymbolsOfText();
    TwoSextets("Zm8=", 25, 38, 60);
    AssembleAll(25, 38, 60, 0);
    BytesOfGroup(0x66, 0x6F, 0);
  }

  lemma OneBitQuad()
    ensures QuadDecoded("Zm9=") == Some([0x66, 0x6F])
  {
    hide QuadDecoded, Symbol, Assemble, GroupBytes;
    SymbolsOfText();
    TwoSextets("Zm9=", 25, 38, 61);
    AssembleAll(25, 38, 61, 0);
    BytesOfGroup(0x66, 0x6F, 64);
  }

  lemma SymbolsOfText()
    ensures Symbol(25) == 'Z' && Symbol(38) == 'm' && Symbol(60) == '8' && Symbol(61) == '9'
  {
    hide Symbol;
    SymbolRanges(25);
    SymbolRanges(38);
    SymbolRanges(60);
    SymbolRanges(61);
  }

  /** Four characters that stand for up to three bytes: six bits each, the highest first, zeros for bytes
      that are missing, and padding for characters that hold none of theirs. */
  ghost predicate IsQuad(q: string, x: u8, y: Option<u8>, z: Option<u8>) {
    exists v0: Sextet, v1: Sextet, v2: Sextet, v3: Sextet :: QuadOf(q, x, y, z, v0, v1, v2, v3)
  }

  ghost predicate QuadOf(
    q: string, x: u8, y: Option<u8>, z: Option<u8>, v0: Sextet, v1: Sextet, v2: Sextet, v3: Sextet)
  {
    && v0 * 0x4_0000 + v1 * 0x1000 + v2 * 0x40 + v3
         == x * 0x1_0000 + (if y.Some? then y.value else 0) * 0x100 + (if z.Some? then z.value else 0)
    && q == [Symbol(v0), Symbol(v1), if y.Some? then Symbol(v2) else '=', if z.Some? then Symbol(v3) else '=']
  }

  lemma QuadIs(b: Bytes)
    requires 1 <= |b| <= 3
    ensures IsQuad(Quad(b), b[0], if |b| > 1 then Some(b[1]) else None, if |b| > 2 then Some(b[2]) else None)
  {
    var y, z := if |b| > 1 then Some(b[1]) else None, if |b| > 2 then Some(b[2]) else None;
    hide Quad, Symbol, Assemble;
    var v0, v1, v2, v3 := QuadSextets(b);
    AssembleAll(v0, v1, v2, v3);
    assert QuadOf(Quad(b), b[0], y, z, v0, v1, v2, v3);
  }

  /** **Each group of an encoding is that of section 4 of RFC 4648.** */
  lemma {:induction false} EncodedIsRfc(bytes: Bytes, g: nat)
    requires 3 * g < |bytes|
    ensures 4 * g + 4 <= |Encoded(bytes)|
    ensures IsQuad(Encoded(bytes)[4 * g..4 * g + 4], bytes[3 * g],
                   if 3 * g + 1 < |bytes| then Some(bytes[3 * g + 1]) else None,
                   if 3 * g + 2 < |bytes| then Some(bytes[3 * g + 2]) else None)
  {
    hide Quad, IsQuad, Encoded;
    NextChunk(bytes);
    var k := if |bytes| < 3 then |bytes| else 3;
    if g == 0 {
      QuadIs(bytes[..k]);
      assert Encoded(bytes)[..4] == Quad(bytes[..k]);
    } else {
      var rest := bytes[3..];
      EncodedIsRfc(rest, g - 1);
      assert Encoded(bytes)[4 * g..4 * g + 4] == Encoded(rest)[4 * (g - 1)..4 * (g - 1) + 4];
    }
  }
}
