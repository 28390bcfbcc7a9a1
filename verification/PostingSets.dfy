/** How a posting set is written as bytes, and a decoder for it. */
module PostingSets {
  import opened Prelude
  import opened Bytes

  /** A string, as its UTF-8 bytes. */
  type Utf8 = Bytes

  /** A debit is negative. */
  datatype Leg = Leg(
    id: u64, account: Utf8, minor: i128, currency: Utf8, scale: u32,
    epoch: u64, valueDate: i64, narrative: Utf8, consumes: Option<Utf8>)

  const TWO_32: nat := 0x1_0000_0000

  function BeU32(n: u32): (b: Bytes) ensures |b| == 4 { BeBytes(n, 4) }
  function BeU64(n: u64): (b: Bytes) ensures |b| == 8 { BeBytes(n, 8) }
  function BeI64(x: i64): (b: Bytes) ensures |b| == 8 { Widths(); BeBytes(Unsigned(x, 8), 8) }
  function BeI128(x: i128): (b: Bytes) ensures |b| == 16 { Widths(); BeBytes(Unsigned(x, 16), 16) }

  /** A length, cast to 32 bits as the source casts it. */
  function Length32(n: nat): u32 {
    n % TWO_32
  }

  function PutStr(s: Utf8): Bytes {
    BeU32(Length32(|s|)) + s
  }

  function TagBytes(consumes: Option<Utf8>): Bytes {
    if consumes.None? then [0] else [1] + PutStr(consumes.value)
  }

  function LegBytes(l: Leg): Bytes {
    BeU64(l.id) + (PutStr(l.account) + (BeI128(l.minor) + (PutStr(l.currency) + (BeU32(l.scale)
    + (BeU64(l.epoch) + (BeI64(l.valueDate) + (PutStr(l.narrative) + TagBytes(l.consumes))))))))
  }

  function LegsBytes(legs: seq<Leg>): Bytes {
    if legs == [] then [] else LegBytes(legs[0]) + LegsBytes(legs[1..])
  }

  /** A whole set: its identity, its leg count, its legs in order. */
  function SetBytes(txn: Utf8, legs: seq<Leg>): Bytes {
    PutStr(txn) + (BeU32(Length32(|legs|)) + LegsBytes(legs))
  }

  lemma {:induction false} LegsBytesSnoc(legs: seq<Leg>, l: Leg)
    ensures LegsBytes(legs + [l]) == LegsBytes(legs) + LegBytes(l)
  {
    hide LegBytes;
    if legs == [] {
      assert legs + [l] == [l] && [l][1..] == [];
    } else {
      assert (legs + [l])[1..] == legs[1..] + [l];
      LegsBytesSnoc(legs[1..], l);
      assert LegBytes(legs[0]) + (LegsBytes(legs[1..]) + LegBytes(l))
          == LegBytes(legs[0]) + LegsBytes(legs[1..]) + LegBytes(l);
    }
  }

  /** Append one leg's fields to the output. */
  method PutLeg(out0: Bytes, l: Leg) returns (out: Bytes)
    ensures out == out0 + LegBytes(l)
  {
    out := out0 + BeU64(l.id);
    out := out + PutStr(l.account);
    out := out + BeI128(l.minor);
    out := out + PutStr(l.currency);
    out := out + BeU32(l.scale);
    out := out + BeU64(l.epoch);
    out := out + BeI64(l.valueDate);
    out := out + PutStr(l.narrative);
    match l.consumes {
      case None => out := out + [0];
      case Some(tag) =>
        out := out + [1];
        out := out + PutStr(tag);
    }
    NineParts(out0, BeU64(l.id), PutStr(l.account), BeI128(l.minor), PutStr(l.currency), BeU32(l.scale),
              BeU64(l.epoch), BeI64(l.valueDate), PutStr(l.narrative), TagBytes(l.consumes));
  }

  lemma NineParts(o: Bytes, a: Bytes, b: Bytes, c: Bytes, d: Bytes, e: Bytes, f: Bytes, g: Bytes, h: Bytes, i: Bytes)
    ensures o + a + b + c + d + e + f + g + h + i == o + (a + (b + (c + (d + (e + (f + (g + (h + i))))))))
  {
  }

  method Encode(txn: Utf8, legs: seq<Leg>) returns (out: Bytes)
    ensures out == SetBytes(txn, legs)
  {
    hide LegBytes;
    out := PutStr(txn);
    out := out + BeU32(Length32(|legs|));
    ghost var head := out;
    for i := 0 to |legs|
      invariant out == head + LegsBytes(legs[..i])
    {
      out := PutLeg(out, legs[i]);
      LegsBytesSnoc(legs[..i], legs[i]);
      assert legs[..i + 1] == legs[..i] + [legs[i]];
    }
    assert legs[..|legs|] == legs;
  }

  // ---------- A decoder ----------

  /** A parsed value and the bytes after it. */
  type Parse<T> = Option<(T, Bytes)>

  function Take(b: Bytes, n: nat): Parse<Bytes> {
    if n <= |b| then Some((b[..n], b[n..])) else None
  }

  function ReadNat(b: Bytes, width: nat): Parse<nat> {
    match Take(b, width)
    case None => None
    case Some((head, rest)) => Some((FromBe(head), rest))
  }

  function ReadInt(b: Bytes, width: nat): Parse<int> {
    match Take(b, width)
    case None => None
    case Some((head, rest)) => FromBeBound(head); Some((Signed(FromBe(head), width), rest))
  }

  function ReadStr(b: Bytes): Parse<Utf8> {
    match ReadNat(b, 4)
    case None => None
    case Some((n, rest)) => Take(rest, n)
  }

  function ReadTag(b: Bytes): Parse<Option<Utf8>> {
    match Take(b, 1)
    case None => None
    case Some((head, rest)) =>
      if head == [0] then Some((None, rest))
      else if head == [1] then
        match ReadStr(rest)
        case None => None
        case Some((tag, more)) => Some((Some(tag), more))
      else None
  }

  /** A leg as read: numbers in whatever range the bytes hold. */
  datatype Fields = Fields(
    id: nat, account: Utf8, minor: int, currency: Utf8, scale: nat,
    epoch: nat, valueDate: int, narrative: Utf8, consumes: Option<Utf8>)

  function FieldsOf(l: Leg): Fields {
    Fields(l.id, l.account, l.minor, l.currency, l.scale, l.epoch, l.valueDate, l.narrative, l.consumes)
  }

  /** The second half of a leg: scale, stamp, narrative and tag. */
  function ReadTail(b: Bytes, f: Fields): Parse<Fields> {
    match ReadNat(b, 4)
    case None => None
    case Some((scale, b1)) =>
      match ReadNat(b1, 8)
      case None => None
      case Some((epoch, b2)) =>
        match ReadInt(b2, 8)
        case None => None
        case Some((valueDate, b3)) =>
          match ReadStr(b3)
          case None => None
          case Some((narrative, b4)) =>
            match ReadTag(b4)
            case None => None
            case Some((consumes, b5)) =>
              Some((f.(scale := scale, epoch := epoch, valueDate := valueDate,
                       narrative := narrative, consumes := consumes), b5))
  }

  function ReadLeg(b: Bytes): Parse<Fields> {
    match ReadNat(b, 8)
    case None => None
    case Some((id, b1)) =>
      match ReadStr(b1)
      case None => None
      case Some((account, b2)) =>
        match ReadInt(b2, 16)
        case None => None
        case Some((minor, b3)) =>
          match ReadStr(b3)
          case None => None
          case Some((currency, b4)) =>
            ReadTail(b4, Fields(id, account, minor, currency, 0, 0, 0, [], None))
  }

  function ReadLegs(b: Bytes, count: nat): Parse<seq<Fields>> {
    if count == 0 then Some(([], b))
    else
      match ReadLeg(b)
      case None => None
      case Some((l, rest)) =>
        match ReadLegs(rest, count - 1)
        case None => None
        case Some((ls, more)) => Some(([l] + ls, more))
  }

  function Decode(b: Bytes): Parse<(Utf8, seq<Fields>)> {
    match ReadStr(b)
    case None => None
    case Some((txn, b1)) =>
      match ReadNat(b1, 4)
      case None => None
      case Some((count, b2)) =>
        match ReadLegs(b2, count)
        case None => None
        case Some((legs, rest)) => Some(((txn, legs), rest))
  }

  // ---------- The round trip ----------

  /** Every length fits the 32 bits it is written in. */
  ghost predicate LegFits(l: Leg) {
    && |l.account| < TWO_32 && |l.currency| < TWO_32 && |l.narrative| < TWO_32
    && (l.consumes.Some? ==> |l.consumes.value| < TWO_32)
  }

  ghost predicate SetFits(txn: Utf8, legs: seq<Leg>) {
    |txn| < TWO_32 && |legs| < TWO_32 && forall i :: 0 <= i < |legs| ==> LegFits(legs[i])
  }

  lemma TakeBack(a: Bytes, rest: Bytes)
    ensures Take(a + rest, |a|) == Some((a, rest))
  {
  }

  lemma NatBack(n: nat, width: nat, rest: Bytes)
    requires n < Pow256(width)
    ensures ReadNat(BeBytes(n, width) + rest, width) == Some((n, rest))
  {
    TakeBack(BeBytes(n, width), rest);
    BeRoundTrip(n, width);
  }

  lemma IntBack(x: int, width: nat, rest: Bytes)
    requires 0 <= 2 * x + Pow256(width) < 2 * Pow256(width)
    ensures ReadInt(BeBytes(Unsigned(x, width), width) + rest, width) == Some((x, rest))
  {
    TakeBack(BeBytes(Unsigned(x, width), width), rest);
    BeRoundTrip(Unsigned(x, width), width);
    SignedRoundTrip(x, width);
  }

  lemma StrBack(s: Utf8, rest: Bytes)
    requires |s| < TWO_32
    ensures ReadStr(PutStr(s) + rest) == Some((s, rest))
  {
    Widths();
    assert PutStr(s) + rest == BeBytes(|s|, 4) + (s + rest);
    NatBack(|s|, 4, s + rest);
    TakeBack(s, rest);
  }

  lemma TagBack(tag: Option<Utf8>, rest: Bytes)
    requires tag.Some? ==> |tag.value| < TWO_32
    ensures ReadTag(TagBytes(tag) + rest) == Some((tag, rest))
  {
    if tag.None? {
      TakeBack([0], rest);
    } else {
      assert TagBytes(tag) + rest == [1] + (PutStr(tag.value) + rest);
      TakeBack([1], PutStr(tag.value) + rest);
      StrBack(tag.value, rest);
    }
  }

  function TailBytes(l: Leg, rest: Bytes): Bytes {
    BeU32(l.scale) + (BeU64(l.epoch) + (BeI64(l.valueDate) + (PutStr(l.narrative) + (TagBytes(l.consumes) + rest))))
  }

  lemma TailBack(l: Leg, f: Fields, rest: Bytes)
    requires LegFits(l)
    ensures ReadTail(TailBytes(l, rest), f) == Some((f.(scale := l.scale, epoch := l.epoch,
      valueDate := l.valueDate, narrative := l.narrative, consumes := l.consumes), rest))
  {
    Widths();
    var b4 := TagBytes(l.consumes) + rest;
    var b3 := PutStr(l.narrative) + b4;
    var b2 := BeI64(l.valueDate) + b3;
    var b1 := BeU64(l.epoch) + b2;
    NatBack(l.scale, 4, b1);
    NatBack(l.epoch, 8, b2);
    IntBack(l.valueDate, 8, b3);
    StrBack(l.narrative, b4);
    TagBack(l.consumes, rest);
    hide ReadNat, ReadInt, ReadStr, ReadTag, PutStr, TagBytes;
  }

  lemma LegAssociates(l: Leg, rest: Bytes)
    ensures LegBytes(l) + rest ==
      BeU64(l.id) + (PutStr(l.account) + (BeI128(l.minor) + (PutStr(l.currency) + TailBytes(l, rest))))
  {
    hide BeU64, BeU32, BeI128, BeI64, PutStr, TagBytes;
    NineThen(BeU64(l.id), PutStr(l.account), BeI128(l.minor), PutStr(l.currency), BeU32(l.scale),
             BeU64(l.epoch), BeI64(l.valueDate), PutStr(l.narrative), TagBytes(l.consumes), rest);
  }

  lemma NineThen(a: Bytes, b: Bytes, c: Bytes, d: Bytes, e: Bytes, f: Bytes, g: Bytes, h: Bytes, i: Bytes, r: Bytes)
    ensures a + (b + (c + (d + (e + (f + (g + (h + i))))))) + r
         == a + (b + (c + (d + (e + (f + (g + (h + (i + r))))))))
  {
  }

  lemma LegBack(l: Leg, rest: Bytes)
    requires LegFits(l)
    ensures ReadLeg(LegBytes(l) + rest) == Some((FieldsOf(l), rest))
  {
    Widths();
    LegAssociates(l, rest);
    var b4 := TailBytes(l, rest);
    var b3 := PutStr(l.currency) + b4;
    var b2 := BeI128(l.minor) + b3;
    var b1 := PutStr(l.account) + b2;
    NatBack(l.id, 8, b1);
    StrBack(l.account, b2);
    IntBack(l.minor, 16, b3);
    StrBack(l.currency, b4);
    TailBack(l, Fields(l.id, l.account, l.minor, l.currency, 0, 0, 0, [], None), rest);
    hide ReadNat, ReadInt, ReadStr, ReadTail, PutStr, TailBytes, LegBytes;
  }

  function AllFields(legs: seq<Leg>): (fs: seq<Fields>)
    ensures |fs| == |legs| && forall i :: 0 <= i < |legs| ==> fs[i] == FieldsOf(legs[i])
  {
    if legs == [] then [] else [FieldsOf(legs[0])] + AllFields(legs[1..])
  }

  lemma {:induction false} LegsBack(legs: seq<Leg>, rest: Bytes)
    requires forall i :: 0 <= i < |legs| ==> LegFits(legs[i])
    ensures ReadLegs(LegsBytes(legs) + rest, |legs|) == Some((AllFields(legs), rest))
  {
    hide ReadLeg, LegBytes, FieldsOf;
    if legs == [] {
      assert LegsBytes(legs) + rest == rest;
    } else {
      LegsBack(legs[1..], rest);
      LegBack(legs[0], LegsBytes(legs[1..]) + rest);
      assert LegsBytes(legs) + rest == LegBytes(legs[0]) + (LegsBytes(legs[1..]) + rest);
    }
  }

  /** **The encoding decodes back**, whatever follows it. */
  lemma DecodeEncode(txn: Utf8, legs: seq<Leg>, rest: Bytes)
    requires SetFits(txn, legs)
    ensures Decode(SetBytes(txn, legs) + rest) == Some(((txn, AllFields(legs)), rest))
  {
    hide ReadNat, ReadStr, ReadLegs, PutStr, LegsBytes, BeBytes, Pow256, LegFits, AllFields;
    Widths();
    var b2 := LegsBytes(legs) + rest;
    var b1 := BeU32(|legs|) + b2;
    assert SetBytes(txn, legs) + rest == PutStr(txn) + b1;
    StrBack(txn, b1);
    NatBack(|legs|, 4, b2);
    LegsBack(legs, rest);
  }

  /** **The encoding is injective, and leg order shows**: two sets with one encoding are one set. */
  lemma EncodingInjective(txn: Utf8, legs: seq<Leg>, txn': Utf8, legs': seq<Leg>)
    requires SetFits(txn, legs) && SetFits(txn', legs')
    ensures SetBytes(txn, legs) == SetBytes(txn', legs') <==> txn == txn' && legs == legs'
  {
    DecodeEncode(txn, legs, []);
    DecodeEncode(txn', legs', []);
    if SetBytes(txn, legs) == SetBytes(txn', legs') {
      forall i | 0 <= i < |legs| ensures i < |legs'| && legs[i] == legs'[i] {
        assert AllFields(legs)[i] == AllFields(legs')[i];
        assert FieldsOf(legs[i]) == FieldsOf(legs'[i]);
      }
    }
  }

  // ---------- Past 32 bits ----------

  lemma ReadNatBound(b: Bytes)
    ensures ReadNat(b, 4).Some? ==> ReadNat(b, 4).value.0 < TWO_32
  {
    Widths();
    if 4 <= |b| {
      FromBeBound(b[..4]);
    }
  }

  lemma ReadStrBound(b: Bytes)
    ensures ReadStr(b).Some? ==> |ReadStr(b).value.0| < TWO_32
  {
    ReadNatBound(b);
    hide ReadNat;
  }

  lemma ReadTagBound(b: Bytes)
    ensures ReadTag(b).Some? && ReadTag(b).value.0.Some? ==> |ReadTag(b).value.0.value| < TWO_32
  {
    hide ReadStr;
    if |b| >= 1 {
      ReadStrBound(b[1..]);
    }
  }

  ghost predicate FieldsFit(f: Fields) {
    && |f.account| < TWO_32 && |f.currency| < TWO_32 && |f.narrative| < TWO_32
    && (f.consumes.Some? ==> |f.consumes.value| < TWO_32)
  }

  /** The tail of a leg is short, and leaves the head's texts alone. */
  ghost predicate TailFits(f: Fields, read: Parse<Fields>) {
    read.Some? ==>
      var g := read.value.0;
      && g.account == f.account && g.currency == f.currency && |g.narrative| < TWO_32
      && (g.consumes.Some? ==> |g.consumes.value| < TWO_32)
  }

  lemma ReadTailBound(b: Bytes, f: Fields)
    ensures TailFits(f, ReadTail(b, f))
  {
    hide ReadNat, ReadInt, ReadStr, ReadTag;
    forall x: Bytes ensures ReadStr(x).Some? ==> |ReadStr(x).value.0| < TWO_32 {
      ReadStrBound(x);
    }
    forall x: Bytes ensures ReadTag(x).Some? && ReadTag(x).value.0.Some? ==> |ReadTag(x).value.0.value| < TWO_32 {
      ReadTagBound(x);
    }
  }

  lemma ReadLegBound(b: Bytes)
    ensures ReadLeg(b).Some? ==> FieldsFit(ReadLeg(b).value.0)
  {
    hide ReadNat, ReadInt, ReadStr, ReadTail;
    forall x: Bytes ensures ReadStr(x).Some? ==> |ReadStr(x).value.0| < TWO_32 {
      ReadStrBound(x);
    }
    forall x: Bytes, f: Fields ensures TailFits(f, ReadTail(x, f)) {
      ReadTailBound(x, f);
    }
  }

  lemma {:induction false} ReadLegsBound(b: Bytes, count: nat)
    ensures match ReadLegs(b, count)
            case None => true
            case Some((fs, _)) => |fs| == count && forall i :: 0 <= i < |fs| ==> FieldsFit(fs[i])
    decreases count
  {
    hide ReadLeg, FieldsFit;
    if count > 0 {
      ReadLegBound(b);
      if ReadLeg(b).Some? {
        ReadLegsBound(ReadLeg(b).value.1, count - 1);
      }
    }
  }

  /** **Exactly which sets decode back**: those whose every length fits the 32 bits it is written in. */
  lemma DecodesBackExactly(txn: Utf8, legs: seq<Leg>, rest: Bytes)
    ensures Decode(SetBytes(txn, legs) + rest) == Some(((txn, AllFields(legs)), rest)) <==> SetFits(txn, legs)
  {
    if SetFits(txn, legs) {
      DecodeEncode(txn, legs, rest);
    }
    hide Decode, SetBytes, SetFits;
    if Decode(SetBytes(txn, legs) + rest) == Some(((txn, AllFields(legs)), rest)) {
      DecodedFits(SetBytes(txn, legs) + rest);
      FieldsFitLegs(txn, legs);
    }
  }

  lemma FieldsFitLegs(txn: Utf8, legs: seq<Leg>)
    requires |txn| < TWO_32 && |legs| < TWO_32
    requires forall i :: 0 <= i < |legs| ==> FieldsFit(AllFields(legs)[i])
    ensures SetFits(txn, legs)
  {
    forall i | 0 <= i < |legs| ensures LegFits(legs[i]) {
      assert FieldsFit(AllFields(legs)[i]);
    }
  }

  /** Whatever is decoded is short enough to encode. */
  lemma DecodedFits(b: Bytes)
    ensures match Decode(b)
            case None => true
            case Some(((txn, fs), _)) =>
              |txn| < TWO_32 && |fs| < TWO_32 && forall i :: 0 <= i < |fs| ==> FieldsFit(fs[i])
  {
    hide ReadNat, ReadStr, ReadLegs, FieldsFit;
    ReadStrBound(b);
    if ReadStr(b).Some? {
      var b1 := ReadStr(b).value.1;
      ReadNatBound(b1);
      if ReadNat(b1, 4).Some? {
        ReadLegsBound(ReadNat(b1, 4).value.1, ReadNat(b1, 4).value.0);
      }
    }
  }

  function Zeros(n: nat): (z: Bytes)
    ensures |z| == n && forall i :: 0 <= i < n ==> z[i] == 0
  {
    if n == 0 then [] else Zeros(n - 1) + [0]
  }

  /** A byte string that is also plain ASCII text. */
  ghost predicate IsAscii(s: Utf8) {
    forall i :: 0 <= i < |s| ==> s[i] < 0x80
  }

  /** A leg whose strings are `a`, `c` and `n` zero bytes. */
  function ZeroLeg(a: u32, c: u32, n: u32): Leg {
    Leg(0, Zeros(a), 0, Zeros(c), 0, 0, 0, Zeros(n), None)
  }

  /** The four bytes of a number, by hand. */
  lemma FourBytes(n: u32)
    ensures BeU32(n) == [n / 0x100_0000, n / 0x1_0000 % 0x100, n / 0x100 % 0x100, n % 0x100]
  {
    assert BeBytes(n / 0x100_0000, 1) == [n / 0x100_0000];
    assert BeBytes(n / 0x1_0000, 2) == BeBytes(n / 0x100_0000, 1) + [n / 0x1_0000 % 0x100];
    assert BeBytes(n / 0x100, 3) == BeBytes(n / 0x1_0000, 2) + [n / 0x100 % 0x100];
  }

  lemma AsciiNumber(n: u32, b3: u8, b2: u8, b1: u8, b0: u8)
    requires n == ((b3 * 0x100 + b2) * 0x100 + b1) * 0x100 + b0
    requires b3 < 0x80 && b2 < 0x80 && b1 < 0x80 && b0 < 0x80
    ensures BeU32(n) == [b3, b2, b1, b0] && IsAscii(BeU32(n))
  {
    FourBytes(n);
    FourDigits(b3, b2, b1, b0);
    hide BeU32;
  }

  lemma LastDigit(high: nat, low: nat)
    requires low < 0x100
    ensures (high * 0x100 + low) / 0x100 == high && (high * 0x100 + low) % 0x100 == low
  {
  }

  lemma DivideTwice(n: nat)
    ensures n / 0x1_0000 == n / 0x100 / 0x100
    ensures n / 0x100_0000 == n / 0x1_0000 / 0x100
  {
  }

  lemma FourDigits(b3: nat, b2: nat, b1: nat, b0: nat)
    requires b2 < 0x100 && b1 < 0x100 && b0 < 0x100
    ensures var n := ((b3 * 0x100 + b2) * 0x100 + b1) * 0x100 + b0;
      n / 0x100_0000 == b3 && n / 0x1_0000 % 0x100 == b2 && n / 0x100 % 0x100 == b1 && n % 0x100 == b0
  {
    var high := b3 * 0x100 + b2;
    var middle := high * 0x100 + b1;
    LastDigit(b3, b2);
    LastDigit(high, b1);
    LastDigit(middle, b0);
    DivideTwice(middle * 0x100 + b0);
  }

  lemma {:induction false} ZeroBytes(width: nat)
    ensures BeBytes(0, width) == Zeros(width)
  {
    if width > 0 {
      ZeroBytes(width - 1);
    }
  }

  /** Text whose last four bytes are zero. */
  ghost predicate EndsInZeros(s: Bytes) {
    IsAscii(s) && |s| >= 4 && s[|s| - 4..] == [0, 0, 0, 0]
  }

  lemma AsciiJoin(a: Bytes, b: Bytes)
    requires IsAscii(a) && EndsInZeros(b)
    ensures EndsInZeros(a + b)
  {
  }

  lemma ZeroStr(n: u32)
    requires IsAscii(BeU32(n))
    ensures IsAscii(PutStr(Zeros(n)))
    ensures n >= 3 ==> EndsInZeros(PutStr(Zeros(n)) + [0])
  {
    hide BeBytes;
    var s := PutStr(Zeros(n)) + [0];
    assert n >= 3 ==> s[|s| - 4] == 0 && s[|s| - 3] == 0 && s[|s| - 2] == 0 && s[|s| - 1] == 0;
  }

  lemma ZeroLegBytes(a: u32, c: u32, n: u32)
    requires IsAscii(BeU32(a)) && IsAscii(BeU32(c)) && IsAscii(BeU32(n)) && n >= 3
    ensures var legs := LegBytes(ZeroLeg(a, c, n));
            |legs| == 57 + a + c + n && EndsInZeros(legs)
  {
    ZeroStr(a);
    ZeroStr(c);
    ZeroStr(n);
    ZeroBytes(8);
    ZeroBytes(16);
    ZeroBytes(4);
    var word, long, short := BeU64(0), BeI128(0), BeU32(0);
    assert IsAscii(word) && IsAscii(long) && IsAscii(short) && BeI64(0) == word;
    hide Zeros, BeBytes, PutStr, IsAscii, EndsInZeros, BeU64, BeU32, BeI64, BeI128;
    JoinEight(word, PutStr(Zeros(a)), long, PutStr(Zeros(c)), short, word, word, PutStr(Zeros(n)) + [0]);
    assert |PutStr(Zeros(a))| == 4 + a && |PutStr(Zeros(c))| == 4 + c && |PutStr(Zeros(n))| == 4 + n by {
      StrLength(a);
      StrLength(c);
      StrLength(n);
    }
  }

  lemma StrLength(n: u32)
    ensures |PutStr(Zeros(n))| == 4 + n
  {
  }

  lemma JoinEight(a: Bytes, b: Bytes, c: Bytes, d: Bytes, e: Bytes, f: Bytes, g: Bytes, h: Bytes)
    requires IsAscii(a) && IsAscii(b) && IsAscii(c) && IsAscii(d) && IsAscii(e) && IsAscii(f) && IsAscii(g)
    requires EndsInZeros(h)
    ensures EndsInZeros(a + (b + (c + (d + (e + (f + (g + h)))))))
  {
    hide IsAscii, EndsInZeros;
    AsciiJoin(g, h);
    AsciiJoin(f, g + h);
    AsciiJoin(e, f + (g + h));
    AsciiJoin(d, e + (f + (g + h)));
    AsciiJoin(c, d + (e + (f + (g + h))));
    AsciiJoin(b, c + (d + (e + (f + (g + h)))));
    AsciiJoin(a, b + (c + (d + (e + (f + (g + h))))));
  }

  /** **The condition is needed**: a name of 2^32 bytes is written with length zero, and its bytes can
      stand for another set's leg. Both sets are ASCII text throughout. */
  lemma LongNamesCollide()
    ensures exists l: Leg, s: Utf8 ::
      SetFits([], [l]) && |s| == TWO_32 && IsAscii(s) && SetBytes([], [l]) == SetBytes(s, [])
  {
    var a: u32, c: u32, n: u32 := 0x7F7F_7F7F, 0x7F7F_7F48, 0x0101_0100;
    hide LegBytes, Zeros, BeBytes;
    AsciiNumber(a, 0x7F, 0x7F, 0x7F, 0x7F);
    AsciiNumber(c, 0x7F, 0x7F, 0x7F, 0x48);
    AsciiNumber(n, 0x01, 0x01, 0x01, 0x00);
    hide BeU32;
    ZeroLegBytes(a, c, n);
    FourBytes(1);
    FourBytes(0);
    var l := ZeroLeg(a, c, n);
    OneLegCollides(l, LegBytes(l));
  }

  lemma OneLegCollides(l: Leg, legs: Bytes)
    requires LegFits(l) && legs == LegBytes(l) && BeU32(1) == [0, 0, 0, 1] && BeU32(0) == [0, 0, 0, 0]
    requires |legs| == TWO_32 && EndsInZeros(legs)
    ensures exists s: Utf8 ::
      SetFits([], [l]) && |s| == TWO_32 && IsAscii(s) && SetBytes([], [l]) == SetBytes(s, [])
  {
    hide LegBytes, BeBytes;
    var x := BeU32(1) + legs;
    var s := x[..TWO_32];
    assert x == s + [0, 0, 0, 0];
    assert [l][1..] == [] && LegsBytes([l]) == legs + [];
    assert SetBytes([], [l]) == [0, 0, 0, 0] + x;
    assert SetBytes(s, []) == ([0, 0, 0, 0] + s) + ([0, 0, 0, 0] + []);
  }
}
