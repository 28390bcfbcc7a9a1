/** Decimal numerals and splitting, as the formats print and read them. */
module Text {
  import opened Prelude

  function Digit(d: nat): (c: char)
    requires d < 10
    ensures '0' <= c <= '9' && (c as int) - ('0' as int) == d
  {
    ('0' as int + d) as char
  }

  predicate IsDigit(c: char) {
    '0' <= c <= '9'
  }

  function DigitValue(c: char): (d: nat)
    requires IsDigit(c)
    ensures d < 10
  {
    c as int - '0' as int
  }

  /** A number in decimal, without leading zeros. */
  function Decimal(n: nat): (s: string)
    ensures |s| > 0 && forall i :: 0 <= i < |s| ==> IsDigit(s[i])
  {
    if n < 10 then [Digit(n)] else Decimal(n / 10) + [Digit(n % 10)]
  }

  function FromDecimal(s: string): nat
    requires forall i :: 0 <= i < |s| ==> IsDigit(s[i])
  {
    if s == [] then 0 else 10 * FromDecimal(s[..|s| - 1]) + DigitValue(s[|s| - 1])
  }

  lemma {:induction false} DecimalRoundTrip(n: nat)
    ensures FromDecimal(Decimal(n)) == n
  {
    if n < 10 {
      assert Decimal(n)[..0] == [];
    } else {
      DecimalRoundTrip(n / 10);
      assert Decimal(n)[..|Decimal(n)| - 1] == Decimal(n / 10);
    }
  }

  function Pow10(n: nat): nat {
    if n == 0 then 1 else 10 * Pow10(n - 1)
  }

  /** A numeral's digits weigh ten times as much as those after them, and a single digit is its place
      from zero. */
  lemma {:induction false} FromDecimalAppend(a: string, b: string)
    requires (forall i :: 0 <= i < |a| ==> IsDigit(a[i])) && (forall i :: 0 <= i < |b| ==> IsDigit(b[i]))
    ensures FromDecimal(a + b) == FromDecimal(a) * Pow10(|b|) + FromDecimal(b)
    ensures |a| == 1 ==> a[0] as int == '0' as int + FromDecimal(a)
  {
    assert |a| == 1 ==> a[..0] == "";
    if b == "" {
      assert a + b == a;
    } else {
      var init := b[..|b| - 1];
      FromDecimalAppend(a, init);
      assert (a + b)[..|a + b| - 1] == a + init;
      TimesTen(FromDecimal(a), Pow10(|init|));
    }
  }

  lemma TimesTen(x: nat, y: nat)
    ensures 10 * (x * y) == x * (10 * y)
  {
  }

  lemma DecimalInjective(m: nat, n: nat)
    requires Decimal(m) == Decimal(n)
    ensures m == n
  {
    DecimalRoundTrip(m);
    DecimalRoundTrip(n);
  }

  // ---------- Splitting ----------

  /** The pieces between separators; one empty piece for the empty text. */
  function Split(s: string, sep: char): (parts: seq<string>)
    ensures parts != []
    ensures forall i :: 0 <= i < |parts| ==> sep !in parts[i]
  {
    if s == "" then [""]
    else
      var rest := Split(s[1..], sep);
      if s[0] == sep then [""] + rest else [[s[0]] + rest[0]] + rest[1..]
  }

  function Join(parts: seq<string>, sep: char): string {
    if parts == [] then ""
    else if |parts| == 1 then parts[0]
    else parts[0] + [sep] + Join(parts[1..], sep)
  }

  lemma {:induction false} JoinSplit(s: string, sep: char)
    ensures Join(Split(s, sep), sep) == s
  {
    if s != "" {
      JoinSplit(s[1..], sep);
      var rest, parts := Split(s[1..], sep), Split(s, sep);
      if s[0] == sep {
        assert parts[1..] == rest;
        assert "" + [sep] + s[1..] == s;
      } else {
        assert parts[1..] == rest[1..];
        assert s == [s[0]] + s[1..];
      }
    }
  }

  lemma {:induction false} SplitPiece(p: string, sep: char)
    requires sep !in p
    ensures Split(p, sep) == [p]
  {
    if p != "" {
      SplitPiece(p[1..], sep);
      assert p == [p[0]] + p[1..];
    }
  }

  lemma {:induction false} SplitFirst(p: string, t: string, sep: char)
    requires sep !in p
    ensures Split(p + [sep] + t, sep) == [p] + Split(t, sep)
  {
    var s := p + [sep] + t;
    if p == "" {
      assert s[1..] == t;
    } else {
      SplitFirst(p[1..], t, sep);
      assert s[1..] == p[1..] + [sep] + t;
      assert [p[0]] + p[1..] == p;
    }
  }

  lemma {:induction false} SplitJoin(parts: seq<string>, sep: char)
    requires parts != [] && forall i :: 0 <= i < |parts| ==> sep !in parts[i]
    ensures Split(Join(parts, sep), sep) == parts
  {
    if |parts| == 1 {
      SplitPiece(parts[0], sep);
    } else {
      SplitJoin(parts[1..], sep);
      SplitFirst(parts[0], Join(parts[1..], sep), sep);
    }
  }

  lemma JoinTwoThree(a: string, b: string, c: string, sep: char)
    ensures Join([a, b], sep) == a + [sep] + b
    ensures Join([a, b, c], sep) == (a + [sep] + b) + ([sep] + c)
  {
    assert [a, b][1..] == [b] && [a, b, c][1..] == [b, c] && [b, c][1..] == [c];
    assert Join([b, c], sep) == b + [sep] + c;
  }

  /** The text on either side of the first separator. */
  function SplitOnce(s: string, sep: char): (r: Option<(string, string)>)
    ensures r.None? <==> sep !in s
    ensures r.Some? ==> s == r.value.0 + [sep] + r.value.1 && sep !in r.value.0
  {
    if s == "" then None
    else if s[0] == sep then Some(("", s[1..]))
    else
      match SplitOnce(s[1..], sep)
      case None => None
      case Some((k, v)) => Some(([s[0]] + k, v))
  }

  lemma {:induction false} SplitOnceAt(k: string, v: string, sep: char)
    requires sep !in k
    ensures SplitOnce(k + [sep] + v, sep) == Some((k, v))
  {
    var s := k + [sep] + v;
    if k == "" {
      assert s[1..] == v;
    } else {
      SplitOnceAt(k[1..], v, sep);
      assert s[1..] == k[1..] + [sep] + v;
      assert [k[0]] + k[1..] == k;
    }
  }

  // ---------- Parsing a number ----------

  ghost predicate AllDigits(s: string) {
    forall i :: 0 <= i < |s| ==> IsDigit(s[i])
  }

  /** Parse an unsigned 32-bit number: an optional plus sign, then digits, with overflow refused. */
  method ParseU32(s: string) returns (n: Option<u32>)
    ensures n == U32Of(s)
  {
    if s == "" {
      return None;
    }
    var at := if s[0] == '+' then 1 else 0;
    if at == |s| {
      return None;
    }
    ghost var digits := s[at..];
    var value: nat := 0;
    assert s[at..at] == "" && FromDecimal("") == 0;
    hide FromDecimal, DigitsFit;
    for i := at to |s|
      invariant AllDigits(s[at..i]) && value == FromDecimal(s[at..i]) && value < 0x1_0000_0000
    {
      assert s[at..i + 1] == s[at..i] + [s[i]];
      FromDecimalSnoc(s[at..i], s[i]);
      if !IsDigit(s[i]) {
        assert digits[i - at] == s[i];
        FitsExactly(digits);
        return None;
      }
      value := 10 * value + DigitValue(s[i]);
      if value >= 0x1_0000_0000 {
        assert digits[..i + 1 - at] == s[at..i + 1];
        TooLarge(digits, i + 1 - at);
        return None;
      }
    }
    assert s[at..|s|] == digits;
    FitsExactly(digits);
    n := Some(value);
  }

  lemma FromDecimalSnoc(s: string, c: char)
    requires AllDigits(s)
    ensures AllDigits(s + [c]) <==> IsDigit(c)
    ensures IsDigit(c) ==> FromDecimal(s + [c]) == 10 * FromDecimal(s) + DigitValue(c)
  {
    assert (s + [c])[..|s|] == s && (s + [c])[|s|] == c;
  }

  lemma FitsExactly(digits: string)
    ensures DigitsFit(digits) <==> AllDigits(digits) && FromDecimal(digits) < 0x1_0000_0000
  {
  }

  function U32Of(s: string): Option<u32> {
    var digits := if s != "" && s[0] == '+' then s[1..] else s;
    if digits != "" && DigitsFit(digits) then Some(FromDecimal(digits)) else None
  }

  predicate DigitsFit(digits: string) {
    (forall i :: 0 <= i < |digits| ==> IsDigit(digits[i])) && FromDecimal(digits) < 0x1_0000_0000
  }

  lemma TooLarge(digits: string, k: nat)
    requires k <= |digits| && AllDigits(digits[..k]) && FromDecimal(digits[..k]) >= 0x1_0000_0000
    ensures !DigitsFit(digits)
  {
    if AllDigits(digits) {
      MoreDigits(digits, k);
    }
  }

  lemma {:induction false} MoreDigits(s: string, k: nat)
    requires k <= |s| && AllDigits(s)
    ensures FromDecimal(s[..k]) <= FromDecimal(s)
  {
    if k < |s| {
      MoreDigits(s[..|s| - 1], k);
      assert s[..|s| - 1][..k] == s[..k];
    } else {
      assert s[..k] == s;
    }
  }

  lemma U32RoundTrip(n: u32)
    ensures U32Of(Decimal(n)) == Some(n)
  {
    DecimalRoundTrip(n);
    assert IsDigit(Decimal(n)[0]);
  }

  /** **Which texts are counts**: digits, at least one, after at most one plus sign, with a value below 2^32. */
  lemma U32Exactly(s: string, n: u32)
    ensures U32Of(s) == Some(n) <==> Spells(s, n) || (s != "" && s[0] == '+' && Spells(s[1..], n))
  {
  }

  ghost predicate Spells(digits: string, n: nat) {
    digits != "" && (forall i :: 0 <= i < |digits| ==> '0' <= digits[i] <= '9') && FromDecimal(digits) == n
  }
}
