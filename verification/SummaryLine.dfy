/** One machine-readable line per event: how it is printed, and how it is read back. */
module SummaryLine {
  import opened Prelude
  import opened Text

  const PREFIX: string := "NLSBENCH/1"
  const SCHEMA_ERROR: string := "schema_error"
  const HEADER_COUNT: string := "header%20"
  const VALUE_COUNT: string := "%20values%20"
  const NOT_MEASURED: string := "n/a"

  /** White space, as Unicode defines it. */
  predicate IsSpace(c: char) {
    var n := c as int;
    || 0x09 <= n <= 0x0D || n == 0x20 || n == 0x85 || n == 0xA0 || n == 0x1680 || 0x2000 <= n <= 0x200A
    || n == 0x2028 || n == 0x2029 || n == 0x202F || n == 0x205F || n == 0x3000
  }

  ghost predicate NoSpace(s: string) {
    forall i :: 0 <= i < |s| ==> !IsSpace(s[i])
  }

  // ---------- Escaping ----------

  predicate BecomesSpace(c: char) {
    c == '\n' || c == '\r' || c == '\t'
  }

  function EscapeChar(c: char): (s: string)
    ensures s != ""
  {
    if c == '%' then "%25"
    else if c == ' ' then "%20"
    else if c == '=' then "%3D"
    else if BecomesSpace(c) then "%20"
    else [c]
  }

  function EscapeAll(v: string): string {
    if v == "" then "" else EscapeAll(v[..|v| - 1]) + EscapeChar(v[|v| - 1])
  }

  function Escaped(v: string): (s: string)
    ensures s != ""
  {
    var s := EscapeAll(v);
    if s == "" then "-" else s
  }

  method Escape(v: string) returns (s: string)
    ensures s == Escaped(v)
  {
    s := "";
    for i := 0 to |v|
      invariant s == EscapeAll(v[..i])
    {
      assert v[..i + 1][..i] == v[..i];
      match v[i] {
        case '%' => s := s + "%25";
        case ' ' => s := s + "%20";
        case '=' => s := s + "%3D";
        case c =>
          s := s + if c == '\n' || c == '\r' || c == '\t' then "%20" else [c];
      }
    }
    assert v[..|v|] == v;
    if s == "" {
      return "-";
    }
  }

  function HexDigit(c: char): (d: Option<nat>)
    ensures d.Some? ==> d.value < 16
  {
    if '0' <= c <= '9' then Some(c as int - '0' as int)
    else if 'a' <= c <= 'f' then Some(c as int - 'a' as int + 10)
    else if 'A' <= c <= 'F' then Some(c as int - 'A' as int + 10)
    else None
  }

  /** Two characters read as a byte in base 16: a leading plus sign is allowed. */
  function HexByte(a: char, b: char): (n: Option<nat>)
    ensures n.Some? ==> n.value < 0x100
  {
    match HexDigit(b)
    case None => None
    case Some(lo) =>
      if a == '+' then Some(lo)
      else
        match HexDigit(a)
        case None => None
        case Some(hi) => Some(16 * hi + lo)
  }

  /** A digit in base 16, in either case. */
  ghost predicate IsHex(c: char, d: nat) {
    d < 16 && (c == "0123456789abcdef"[d] || c == "0123456789ABCDEF"[d])
  }

  /** **Which pairs of characters are a byte**: two digits in base 16, or a plus sign and one. */
  lemma HexByteExactly(a: char, b: char, n: nat)
    ensures HexByte(a, b) == Some(n) <==>
      exists hi: nat, lo: nat :: Leads(a, hi) && IsHex(b, lo) && n == 16 * hi + lo
  {
    HexDigitExactly(a);
    HexDigitExactly(b);
    var hi := if a == '+' then Some(0) else HexDigit(a);
    assert forall d: nat :: Leads(a, d) <==> hi == Some(d);
    hide HexDigit, IsHex, Leads;
    if HexByte(a, b) == Some(n) {
      assert Leads(a, hi.value) && IsHex(b, HexDigit(b).value) && n == 16 * hi.value + HexDigit(b).value;
    }
  }

  ghost predicate Leads(c: char, d: nat) {
    IsHex(c, d) || (c == '+' && d == 0)
  }

  lemma HexDigitExactly(c: char)
    ensures forall d: nat :: HexDigit(c) == Some(d) <==> IsHex(c, d)
    ensures c == '+' ==> HexDigit(c) == None
  {
  }

  function UnescapeAll(b: string): string {
    if b == "" then ""
    else if b[0] == '%' && |b| > 2 && HexByte(b[1], b[2]).Some? then
      [HexByte(b[1], b[2]).value as char] + UnescapeAll(b[3..])
    else [b[0]] + UnescapeAll(b[1..])
  }

  function Unescaped(v: string): string {
    if v == "-" then "" else UnescapeAll(v)
  }

  lemma UnescapeStep(s: string)
    ensures s == "" ==> UnescapeAll(s) == ""
    ensures |s| > 2 && s[0] == '%' && HexByte(s[1], s[2]).Some? ==>
      UnescapeAll(s) == [HexByte(s[1], s[2]).value as char] + UnescapeAll(s[3..])
    ensures s != "" && !(|s| > 2 && s[0] == '%' && HexByte(s[1], s[2]).Some?) ==>
      UnescapeAll(s) == [s[0]] + UnescapeAll(s[1..])
  {
  }

  method Unescape(v: string) returns (out: string)
    ensures out == Unescaped(v)
  {
    hide HexByte, UnescapeAll;
    if v == "-" {
      return "";
    }
    out := "";
    var i := 0;
    assert v[0..] == v;
    while i < |v|
      invariant i <= |v|
      invariant out + UnescapeAll(v[i..]) == UnescapeAll(v)
    {
      ghost var rest := v[i..];
      UnescapeStep(rest);
      if v[i] == '%' && i + 2 < |v| {
        var n := HexByte(v[i + 1], v[i + 2]);
        if n.Some? {
          assert rest[3..] == v[i + 3..];
          out := out + [n.value as char];
          i := i + 3;
          continue;
        }
      }
      assert rest[1..] == v[i + 1..];
      out := out + [v[i]];
      i := i + 1;
    }
    assert v[i..] == "";
    UnescapeStep("");
  }

  /** A value with newline, carriage return and tab turned into spaces. */
  function Flat(v: string): (r: string)
    ensures |r| == |v| && forall i :: 0 <= i < |v| ==> r[i] == if BecomesSpace(v[i]) then ' ' else v[i]
  {
    if v == "" then "" else [if BecomesSpace(v[0]) then ' ' else v[0]] + Flat(v[1..])
  }

  lemma UnescapeChar(c: char, rest: string)
    ensures UnescapeAll(EscapeChar(c) + rest) == [if BecomesSpace(c) then ' ' else c] + UnescapeAll(rest)
  {
    var s := EscapeChar(c) + rest;
    assert HexByte('2', '5') == Some(0x25) && HexByte('2', '0') == Some(0x20) && HexByte('3', 'D') == Some(0x3D);
    hide HexByte;
    if |EscapeChar(c)| == 3 {
      assert s[0] == '%' && s[1] == EscapeChar(c)[1] && s[2] == EscapeChar(c)[2] && s[3..] == rest;
    } else {
      assert s[0] == c && s[1..] == rest;
    }
  }

  lemma {:induction false} UnescapeEscape(v: string, rest: string)
    ensures UnescapeAll(EscapeAll(v) + rest) == Flat(v) + UnescapeAll(rest)
  {
    hide EscapeChar, BecomesSpace, UnescapeAll, Flat;
    if v == "" {
      assert EscapeAll(v) + rest == rest;
      assert Flat(v) + UnescapeAll(rest) == UnescapeAll(rest);
    } else {
      var init, last := v[..|v| - 1], v[|v| - 1];
      var flat := [if BecomesSpace(last) then ' ' else last];
      assert EscapeAll(v) == EscapeAll(init) + EscapeChar(last);
      hide EscapeAll;
      UnescapeEscape(init, EscapeChar(last) + rest);
      UnescapeChar(last, rest);
      FlatSnoc(init, last);
      assert v == init + [last];
      Associates(EscapeAll(init), EscapeChar(last), rest);
      Associates(Flat(init), flat, UnescapeAll(rest));
    }
  }

  lemma FlatSnoc(v: string, c: char)
    ensures Flat(v + [c]) == Flat(v) + [if BecomesSpace(c) then ' ' else c]
  {
  }

  /** **What escaping does**: each character by itself, to its own escape or to itself. */
  lemma {:induction false} EscapeExactly(a: string, b: string, c: char)
    ensures EscapeAll(a + b) == EscapeAll(a) + EscapeAll(b)
    ensures EscapeAll([c]) ==
      match c
      case '%' => "%25"
      case '=' => "%3D"
      case ' ' => "%20"
      case '\n' => "%20"
      case '\r' => "%20"
      case '\t' => "%20"
      case _ => [c]
  {
    assert [c][..0] == "";
    hide EscapeChar;
    if b == "" {
      assert a + b == a;
    } else {
      var init := b[..|b| - 1];
      EscapeExactly(a, init, c);
      assert (a + b)[..|a + b| - 1] == a + init;
      Associates(EscapeAll(a), EscapeAll(init), EscapeChar(b[|b| - 1]));
    }
  }

  lemma EscapeLength(v: string)
    ensures |EscapeAll(v)| >= |v|
    ensures |v| == 1 ==> EscapeAll(v) == EscapeChar(v[0])
  {
    if v != "" {
      EscapeLength(v[..|v| - 1]);
      assert |v| == 1 ==> v[..|v| - 1] == "";
    }
  }

  /** **Unescaping undoes escaping**, up to the three characters that become spaces, for every value
      but one: the text `-` reads back as the empty text. */
  lemma RoundTripExactly(v: string)
    ensures Unescaped(Escaped(v)) == Flat(v) <==> v != "-"
  {
    UnescapeEscape(v, "");
    assert EscapeAll(v) + "" == EscapeAll(v) && Flat(v) + UnescapeAll("") == Flat(v);
    EscapeLength(v);
    if Escaped(v) == "-" && v != "" {
      assert |v| == 1 && EscapeChar(v[0]) == "-";
      assert v == [v[0]];
    }
    if v == "-" {
      assert EscapeChar('-') == "-";
    }
  }

  /** No white space but the four kinds escaping removes. */
  ghost predicate Plain(v: string) {
    forall i :: 0 <= i < |v| && IsSpace(v[i]) ==> v[i] == ' ' || BecomesSpace(v[i])
  }

  lemma {:induction false} EscapedIsOneToken(v: string)
    requires Plain(v)
    ensures NoSpace(EscapeAll(v)) && NoSpace(Escaped(v))
    ensures '=' !in EscapeAll(v) && '=' !in Escaped(v)
  {
    if v != "" {
      var init, last := v[..|v| - 1], v[|v| - 1];
      assert forall i :: 0 <= i < |init| ==> init[i] == v[i];
      EscapedIsOneToken(init);
      EscapeCharIsToken(last);
      hide IsSpace, EscapeChar;
    }
  }

  lemma EscapeCharIsToken(c: char)
    requires IsSpace(c) ==> c == ' ' || BecomesSpace(c)
    ensures NoSpace(EscapeChar(c)) && '=' !in EscapeChar(c)
  {
  }

  // ---------- Trimming and tokens ----------

  function TrimStart(s: string): string {
    if s != "" && IsSpace(s[0]) then TrimStart(s[1..]) else s
  }

  function TrimEnd(s: string): string {
    if s != "" && IsSpace(s[|s| - 1]) then TrimEnd(s[..|s| - 1]) else s
  }

  function Trim(s: string): string {
    TrimEnd(TrimStart(s))
  }

  /** **Trimming takes off all the white space at both ends, and nothing else.** */
  lemma TrimExactly(s: string) returns (i: nat, j: nat)
    ensures i <= j <= |s| && Trim(s) == s[i..j]
    ensures forall k :: 0 <= k < |s| && !(i <= k < j) ==> IsSpace(s[k])
    ensures i < j ==> !IsSpace(s[i]) && !IsSpace(s[j - 1])
  {
    hide IsSpace;
    i := TrimStartExactly(s);
    var rest := TrimStart(s);
    var n := TrimEndExactly(rest);
    j := i + n;
    assert rest == s[i..] && rest[..n] == s[i..j];
    forall k | j <= k < |s| ensures IsSpace(s[k]) {
      assert s[k] == rest[k - i];
    }
    assert i < j ==> s[i] == rest[0] && s[j - 1] == rest[n - 1];
  }

  lemma {:induction false} TrimStartExactly(s: string) returns (i: nat)
    ensures i <= |s| && TrimStart(s) == s[i..] && (i < |s| ==> !IsSpace(s[i]))
    ensures forall k :: 0 <= k < i ==> IsSpace(s[k])
  {
    hide IsSpace;
    i := 0;
    if s != "" && IsSpace(s[0]) {
      var m := TrimStartExactly(s[1..]);
      i := m + 1;
    }
  }

  lemma {:induction false} TrimEndExactly(s: string) returns (n: nat)
    ensures n <= |s| && TrimEnd(s) == s[..n] && (n > 0 ==> !IsSpace(s[n - 1]))
    ensures forall k :: n <= k < |s| ==> IsSpace(s[k])
  {
    hide IsSpace;
    n := |s|;
    if s != "" && IsSpace(s[|s| - 1]) {
      n := TrimEndExactly(s[..|s| - 1]);
    }
  }

  /** The leading run without white space. */
  function Word(s: string): (w: string)
    ensures |w| <= |s| && w == s[..|w|] && NoSpace(w)
    ensures |w| < |s| ==> IsSpace(s[|w|])
    ensures s != "" && !IsSpace(s[0]) ==> w != ""
  {
    if s == "" || IsSpace(s[0]) then "" else [s[0]] + Word(s[1..])
  }

  /** The runs without white space, in order. */
  function Tokens(s: string): (ts: seq<string>)
    ensures forall i :: 0 <= i < |ts| ==> ts[i] != "" && NoSpace(ts[i])
    decreases |s|
  {
    if s == "" then []
    else if IsSpace(s[0]) then Tokens(s[1..])
    else [Word(s)] + Tokens(s[|Word(s)|..])
  }

  // ---------- Printing ----------

  function Pair(name: string, value: string): string {
    name + ['='] + Escaped(value)
  }

  function Pairs(names: seq<string>, values: seq<string>): seq<string>
    requires |names| == |values|
  {
    seq(|names|, i requires 0 <= i < |names| => Pair(Trim(names[i]), values[i]))
  }

  /** Each token after a space. */
  function Laid(ts: seq<string>): string {
    if ts == [] then "" else Laid(ts[..|ts| - 1]) + " " + ts[|ts| - 1]
  }

  function Mismatch(n: nat, m: nat): string {
    SCHEMA_ERROR + ['='] + (HEADER_COUNT + Decimal(n) + (VALUE_COUNT + Decimal(m)))
  }

  /** The tokens a line is made of. */
  function LineTokens(kind: string, header: string, values: seq<string>): seq<string> {
    var names := Split(header, ',');
    [Pair("kind", kind)] + (if |names| != |values| then [Mismatch(|names|, |values|)] else Pairs(names, values))
  }

  method PrintLine(kind: string, header: string, values: seq<string>) returns (s: string)
    ensures s == Printed(kind, header, values)
  {
    hide Escaped, Trim, Split, Decimal, Mismatch, Pair, Laid, Pairs;
    var names := Split(header, ',');
    var kindText := Escape(kind);
    s := PREFIX + " kind=" + kindText;
    ghost var first := Pair("kind", kind);
    FirstToken(kind);
    if |names| != |values| {
      LaidSnoc([first], Mismatch(|names|, |values|));
      assert [first] + [Mismatch(|names|, |values|)] == LineTokens(kind, header, values);
      s := s + " " + Mismatch(|names|, |values|);
      return;
    }
    assert [first] + [] == [first] && Pairs([], []) == [] by { NoPairs(); }
    for i := 0 to |names|
      invariant s == PREFIX + Laid([first] + Pairs(names[..i], values[..i]))
    {
      var text := Escape(values[i]);
      NextPair(first, names, values, i);
      s := s + " ";
      s := s + Trim(names[i]);
      s := s + "=";
      s := s + text;
    }
    assert names[..|names|] == names && values[..|values|] == values;
  }

  lemma NoPairs()
    ensures Pairs([], []) == []
  {
  }

  lemma FirstToken(kind: string)
    ensures PREFIX + " kind=" + Escaped(kind) == PREFIX + Laid([Pair("kind", kind)])
  {
    hide Escaped;
    LaidOne(Pair("kind", kind));
    hide Laid;
    assert " kind=" + Escaped(kind) == " " + ("kind" + ['='] + Escaped(kind));
  }

  lemma NextPair(first: string, names: seq<string>, values: seq<string>, i: nat)
    requires i < |names| == |values|
    ensures Laid([first] + Pairs(names[..i + 1], values[..i + 1]))
         == Laid([first] + Pairs(names[..i], values[..i])) + " " + Trim(names[i]) + "=" + Escaped(values[i])
  {
    hide Escaped, Trim;
    var before, pair := [first] + Pairs(names[..i], values[..i]), Pair(Trim(names[i]), values[i]);
    assert [first] + Pairs(names[..i + 1], values[..i + 1]) == before + [pair];
    hide Pairs;
    LaidSnoc(before, pair);
    hide Laid;
    assert Laid(before) + " " + pair == Laid(before) + " " + Trim(names[i]) + "=" + Escaped(values[i]);
  }

  lemma LaidOne(t: string)
    ensures Laid([t]) == " " + t
  {
    assert [t][..0] == [];
  }

  lemma LaidSnoc(ts: seq<string>, t: string)
    ensures Laid(ts + [t]) == Laid(ts) + " " + t
  {
    assert (ts + [t])[..|ts|] == ts;
  }

  // ---------- Parsing ----------

  datatype Line = Line(kind: string, fields: map<string, string>)

  /** Every token is a pair with a name. */
  ghost predicate Named(ts: seq<string>) {
    forall i :: 0 <= i < |ts| ==> SplitOnce(ts[i], '=').Some? && SplitOnce(ts[i], '=').value.0 != ""
  }

  function NameOf(t: string): string {
    match SplitOnce(t, '=')
    case Some((k, _)) => k
    case None => ""
  }

  function ValueOf(t: string): string {
    match SplitOnce(t, '=')
    case Some((_, v)) => v
    case None => ""
  }

  ghost predicate NamesDiffer(ts: seq<string>) {
    forall i, j :: 0 <= i < j < |ts| ==> NameOf(ts[i]) != NameOf(ts[j])
  }

  ghost function NamesIn(ts: seq<string>): set<string> {
    set i | 0 <= i < |ts| :: NameOf(ts[i])
  }

  /** The value of the last token of a name. */
  ghost function Lookup(ts: seq<string>, name: string): string {
    if ts == [] then ""
    else if NameOf(ts[|ts| - 1]) == name then ValueOf(ts[|ts| - 1])
    else Lookup(ts[..|ts| - 1], name)
  }

  ghost function Fields(ts: seq<string>): map<string, string> {
    map k | k in NamesIn(ts) && k != "kind" :: Lookup(ts, k)
  }

  /** **What a line means**: it has the prefix, every token is a named pair, no name is repeated, and one
      is the kind; then it is the map from names to values. Otherwise it is no line at all. */
  ghost function Parsed(text: string): Option<Line> {
    match StripPrefix(Trim(text), PREFIX)
    case None => None
    case Some(rest) => Meaning(Tokens(rest))
  }

  function StripPrefix(s: string, prefix: string): Option<string> {
    if |prefix| <= |s| && s[..|prefix|] == prefix then Some(s[|prefix|..]) else None
  }

  ghost function Meaning(ts: seq<string>): Option<Line> {
    if Named(ts) && NamesDiffer(ts) && "kind" in NamesIn(ts)
    then Some(Line(Unescaped(Lookup(ts, "kind")), Fields(ts)))
    else None
  }

  method Parse(text: string) returns (r: Option<Line>)
    ensures r == Parsed(text)
  {
    hide Meaning, Tokens, StripPrefix;
    match StripPrefix(Trim(text), PREFIX) {
      case None =>
        r := None;
      case Some(rest) =>
        r := ParseTokens(Tokens(rest));
    }
  }

  /** What the loop has read so far. */
  ghost predicate Reads(ts: seq<string>, kind: Option<string>, fields: map<string, string>) {
    && Named(ts) && NamesDiffer(ts) && fields == Fields(ts)
    && kind == if "kind" in NamesIn(ts) then Some(Unescaped(Lookup(ts, "kind"))) else None
  }

  method ParseTokens(ts: seq<string>) returns (r: Option<Line>)
    ensures r == Meaning(ts)
  {
    hide Reads, Unescaped, Meaning;
    var fields: map<string, string> := map[];
    var kind: Option<string> := None;
    ReadNothing();
    for i := 0 to |ts|
      invariant Reads(ts[..i], kind, fields)
    {
      assert ts[..i + 1] == ts[..i] + [ts[i]];
      ReadOne(ts, i, kind, fields);
      match SplitOnce(ts[i], '=') {
        case None =>
          return None;
        case Some((k, v)) =>
          if k == "" {
            return None;
          }
          if k == "kind" {
            if kind.Some? {
              return None;
            }
            var plain := Unescape(v);
            kind := Some(plain);
          } else {
            if k in fields {
              return None;
            }
            fields := fields[k := v];
          }
      }
    }
    assert ts[..|ts|] == ts;
    ReadAll(ts, kind, fields);
    r := if kind.None? then None else Some(Line(kind.value, fields));
  }

  lemma ReadNothing()
    ensures Reads([], None, map[])
  {
  }

  lemma ReadAll(ts: seq<string>, kind: Option<string>, fields: map<string, string>)
    requires Reads(ts, kind, fields)
    ensures Meaning(ts) == if kind.None? then None else Some(Line(kind.value, fields))
  {
  }

  /** One more token: it extends what was read, or no line can begin like this. */
  lemma ReadOne(ts: seq<string>, i: nat, kind: Option<string>, fields: map<string, string>)
    requires i < |ts| && Reads(ts[..i], kind, fields)
    ensures var k, v, cut := NameOf(ts[i]), ValueOf(ts[i]), ts[..i] + [ts[i]];
      && (SplitOnce(ts[i], '=').None? || k == "" || k in fields || (k == "kind" && kind.Some?) ==> Meaning(ts) == None)
      && (SplitOnce(ts[i], '=').Some? && k != "" && k != "kind" && k !in fields ==> Reads(cut, kind, fields[k := v]))
      && (SplitOnce(ts[i], '=').Some? && k == "kind" && kind.None? ==> Reads(cut, Some(Unescaped(v)), fields))
  {
    var k, before := NameOf(ts[i]), ts[..i];
    assert k in NamesIn(before) <==> k in fields || (k == "kind" && kind.Some?);
    hide SplitOnce, Unescaped, NameOf, ValueOf, Lookup, NamesIn, Reads, Meaning;
    if k in NamesIn(before) {
      Repeated(ts, i);
    } else if SplitOnce(ts[i], '=').None? || k == "" {
      Unnamed(ts, i);
    } else {
      ReadsNew(before, ts[i], kind, fields);
    }
  }

  lemma Repeated(ts: seq<string>, i: nat)
    requires i < |ts| && NameOf(ts[i]) in NamesIn(ts[..i])
    ensures Meaning(ts) == None
  {
    hide NameOf;
    var before := ts[..i];
    var j :| 0 <= j < |before| && NameOf(before[j]) == NameOf(ts[i]);
    assert NameOf(ts[j]) == NameOf(ts[i]);
  }

  lemma Unnamed(ts: seq<string>, i: nat)
    requires i < |ts| && (SplitOnce(ts[i], '=').None? || NameOf(ts[i]) == "")
    ensures Meaning(ts) == None
  {
    hide SplitOnce;
  }

  lemma NamesSnoc(ts: seq<string>, t: string)
    ensures NamesIn(ts + [t]) == NamesIn(ts) + {NameOf(t)}
  {
    hide NameOf;
    var cut := ts + [t];
    assert cut[|ts|] == t;
    assert forall i :: 0 <= i < |ts| ==> cut[i] == ts[i];
  }

  lemma ReadsNew(before: seq<string>, t: string, kind: Option<string>, fields: map<string, string>)
    requires Reads(before, kind, fields)
    requires SplitOnce(t, '=').Some? && NameOf(t) != "" && NameOf(t) !in NamesIn(before)
    ensures Reads(before + [t], if NameOf(t) == "kind" then Some(Unescaped(ValueOf(t))) else kind,
                  if NameOf(t) == "kind" then fields else fields[NameOf(t) := ValueOf(t)])
  {
    NewName(before, t);
    hide SplitOnce, NameOf, ValueOf, NamesIn, Lookup, Unescaped, NamesDiffer, Named, Fields;
    NamesSnoc(before, t);
    FieldsSnoc(before, t);
    LookupSnoc(before, t, "kind");
  }

  lemma FieldsSnoc(before: seq<string>, t: string)
    requires NameOf(t) !in NamesIn(before)
    ensures Fields(before + [t]) ==
      if NameOf(t) == "kind" then Fields(before) else Fields(before)[NameOf(t) := ValueOf(t)]
  {
    hide NameOf, ValueOf, NamesIn, Lookup;
    NamesSnoc(before, t);
    forall k ensures Lookup(before + [t], k) == if NameOf(t) == k then ValueOf(t) else Lookup(before, k) {
      LookupSnoc(before, t, k);
    }
  }

  lemma NewName(before: seq<string>, t: string)
    requires Named(before) && NamesDiffer(before)
    requires SplitOnce(t, '=').Some? && NameOf(t) != "" && NameOf(t) !in NamesIn(before)
    ensures Named(before + [t]) && NamesDiffer(before + [t])
  {
    hide SplitOnce;
    var cut := before + [t];
    assert forall i :: 0 <= i < |before| ==> cut[i] == before[i];
  }

  lemma LookupSnoc(before: seq<string>, t: string, k: string)
    ensures Lookup(before + [t], k) == if NameOf(t) == k then ValueOf(t) else Lookup(before, k)
  {
    hide NameOf, ValueOf;
    assert (before + [t])[..|before|] == before;
  }

  /** A line with a repeated name is no line, whatever else it says. */
  lemma RepeatedNameNeverParses(text: string, i: nat, j: nat)
    requires StripPrefix(Trim(text), PREFIX).Some?
    requires var ts := Tokens(StripPrefix(Trim(text), PREFIX).value); i < j < |ts| && NameOf(ts[i]) == NameOf(ts[j])
    ensures Parsed(text) == None
  {
  }

  // ---------- The round trip ----------

  lemma TrimIsIdle(s: string)
    requires s != "" && !IsSpace(s[0]) && !IsSpace(s[|s| - 1])
    ensures Trim(s) == s
  {
  }

  lemma {:induction false} WordOf(w: string, rest: string)
    requires NoSpace(w) && (rest == "" || IsSpace(rest[0]))
    ensures Word(w + rest) == w
  {
    if w == "" {
      assert w + rest == rest;
    } else {
      assert (w + rest)[1..] == w[1..] + rest;
      WordOf(w[1..], rest);
    }
  }

  /** Tokens laid out with spaces are read back, before any text that starts afresh. */
  lemma {:induction false} TokensOfLaid(ts: seq<string>, rest: string)
    requires forall i :: 0 <= i < |ts| ==> ts[i] != "" && NoSpace(ts[i])
    requires rest == "" || IsSpace(rest[0])
    ensures Tokens(Laid(ts) + rest) == ts + Tokens(rest)
  {
    hide NoSpace, Tokens, IsSpace;
    if ts == [] {
      assert Laid(ts) + rest == rest;
    } else {
      var init, last := ts[..|ts| - 1], ts[|ts| - 1];
      var more := " " + last + rest;
      LaidTwice(ts, rest);
      hide Laid;
      assert IsSpace(more[0]) by { SpaceIsSpace(); }
      TokensOfLaid(init, more);
      OneToken(last, rest);
      assert ts == init + [last];
    }
  }

  lemma SpaceIsSpace()
    ensures IsSpace(' ')
  {
  }

  lemma LaidTwice(ts: seq<string>, rest: string)
    requires ts != []
    ensures Laid(ts) + rest == Laid(ts[..|ts| - 1]) + (" " + ts[|ts| - 1] + rest)
  {
    var before, last := Laid(ts[..|ts| - 1]), ts[|ts| - 1];
    assert Laid(ts) == before + " " + last;
    hide Laid;
    FourTexts(before, " ", last, rest);
  }

  lemma FourTexts(a: string, b: string, c: string, d: string)
    ensures a + b + c + d == a + (b + c + d)
  {
  }

  lemma OneToken(t: string, rest: string)
    requires t != "" && NoSpace(t) && (rest == "" || IsSpace(rest[0]))
    ensures Tokens(" " + t + rest) == [t] + Tokens(rest)
  {
    hide IsSpace, Tokens, Word;
    var s, r := " " + t + rest, t + rest;
    SpaceIsSpace();
    assert s[0] == ' ' && s[1..] == r;
    SkipSpace(s);
    WordOf(t, rest);
    assert r[|t|..] == rest && r[0] == t[0];
    TakeWord(r);
  }

  lemma SkipSpace(s: string)
    requires s != "" && IsSpace(s[0])
    ensures Tokens(s) == Tokens(s[1..])
  {
  }

  lemma TakeWord(s: string)
    requires s != "" && !IsSpace(s[0])
    ensures Tokens(s) == [Word(s)] + Tokens(s[|Word(s)|..])
  {
  }

  ghost predicate GoodName(n: string) {
    n != "" && n != "kind" && NoSpace(n) && '=' !in n
  }

  /** A header whose names can each be printed, with a value for each. */
  ghost predicate NamedHeader(header: string, values: seq<string>) {
    var names := Split(header, ',');
    && |names| == |values|
    && (forall i :: 0 <= i < |names| ==> GoodName(Trim(names[i])) && Plain(values[i]))
  }

  /** And whose names can be told apart. */
  ghost predicate GoodHeader(header: string, values: seq<string>) {
    NamedHeader(header, values) && Differ(Split(header, ','))
  }

  ghost predicate Differ(names: seq<string>) {
    forall i, j :: 0 <= i < j < |names| ==> Trim(names[i]) != Trim(names[j])
  }

  lemma PairIsToken(name: string, value: string)
    requires name != "" && NoSpace(name) && '=' !in name && Plain(value)
    ensures Pair(name, value) != "" && NoSpace(Pair(name, value))
    ensures SplitOnce(Pair(name, value), '=').Some?
    ensures NameOf(Pair(name, value)) == name && ValueOf(Pair(name, value)) == Escaped(value)
  {
    EscapedIsOneToken(value);
    SplitOnceAt(name, Escaped(value), '=');
    hide Escaped;
  }

  lemma PrefixStripped(prefix: string, ts: seq<string>)
    requires prefix != "" && !IsSpace(prefix[0])
    requires ts != [] && forall i :: 0 <= i < |ts| ==> ts[i] != "" && NoSpace(ts[i])
    ensures StripPrefix(Trim(prefix + Laid(ts)), prefix) == Some(Laid(ts))
  {
    hide IsSpace, Trim;
    LastOfLaid(ts);
    hide Laid;
    var laid := Laid(ts);
    var s := prefix + laid;
    assert s[0] == prefix[0] && s[|s| - 1] == laid[|laid| - 1];
    TrimIsIdle(s);
    assert s[..|prefix|] == prefix && s[|prefix|..] == laid;
  }

  lemma LastOfLaid(ts: seq<string>)
    requires ts != [] && ts[|ts| - 1] != "" && NoSpace(ts[|ts| - 1])
    ensures var laid := Laid(ts); laid != "" && !IsSpace(laid[|laid| - 1])
  {
    hide IsSpace;
    var last := ts[|ts| - 1];
    assert Laid(ts)[|Laid(ts)| - 1] == last[|last| - 1];
  }

  lemma LaidTokens(ts: seq<string>)
    requires forall i :: 0 <= i < |ts| ==> ts[i] != "" && NoSpace(ts[i])
    ensures Tokens(Laid(ts)) == ts
  {
    hide NoSpace, Tokens;
    TokensOfLaid(ts, "");
    assert Laid(ts) + "" == Laid(ts);
    NoTokens();
    assert ts + [] == ts;
  }

  /** A printed line is read as its own tokens. */
  lemma PrintedTokens(ts: seq<string>)
    requires ts != [] && forall i :: 0 <= i < |ts| ==> ts[i] != "" && NoSpace(ts[i])
    ensures Parsed(PREFIX + Laid(ts)) == Meaning(ts)
  {
    hide Meaning, Tokens, Trim, NoSpace, Laid, StripPrefix;
    PrefixStripped(PREFIX, ts);
    LaidTokens(ts);
  }

  lemma NoTokens()
    ensures Tokens("") == []
  {
  }

  /** What tokens with different names mean, name by name. */
  lemma {:induction false} LookupAt(ts: seq<string>, i: nat)
    requires NamesDiffer(ts) && i < |ts|
    ensures Lookup(ts, NameOf(ts[i])) == ValueOf(ts[i])
  {
    hide NameOf, ValueOf;
    if i < |ts| - 1 {
      var init := ts[..|ts| - 1];
      assert forall k :: 0 <= k < |init| ==> init[k] == ts[k];
      LookupAt(init, i);
    }
  }

  /** The raw text a line carries for a name, unescaped. */
  function TextOf(l: Line, name: string): Option<string> {
    if name in l.fields then Some(Unescaped(l.fields[name])) else None
  }

  /** Exactly the header's names, each with the raw text of its own value. */
  ghost predicate Carries(l: Line, names: seq<string>, values: seq<string>)
    requires |names| == |values|
  {
    && (forall k :: k in l.fields ==> exists i :: 0 <= i < |names| && k == Trim(names[i]))
    && (forall i :: 0 <= i < |names| ==>
          Trim(names[i]) in l.fields && l.fields[Trim(names[i])] == Escaped(values[i]))
  }

  /** The printed line. */
  function Printed(kind: string, header: string, values: seq<string>): string {
    PREFIX + Laid(LineTokens(kind, header, values))
  }

  /** **Printing then parsing gives the line back**: the kind, exactly the header's names, and each value
      under its own name, up to the characters that become spaces, for every value but `-`. */
  lemma LineRoundTrip(kind: string, header: string, values: seq<string>)
    requires Plain(kind) && GoodHeader(header, values)
    ensures var names, r := Split(header, ','), Parsed(Printed(kind, header, values));
      && r.Some? && Carries(r.value, names, values)
      && (kind != "-" ==> r.value.kind == Flat(kind))
      && (forall i :: 0 <= i < |names| && values[i] != "-" ==>
            TextOf(r.value, Trim(names[i])) == Some(Flat(values[i])))
  {
    var names := Split(header, ',');
    var ts := LineTokens(kind, header, values);
    hide Escaped, Trim, Split, SplitOnce, Flat, Unescaped, Plain, NoSpace, Laid, Meaning, LineTokens, Parsed, GoodName;
    RoundTripExactly(kind);
    PrintedIsRead(kind, header, values);
    forall i | 0 <= i < |names|
      ensures values[i] != "-" ==> Unescaped(Escaped(values[i])) == Flat(values[i])
    {
      RoundTripExactly(values[i]);
    }
  }

  /** **A printed line parses exactly when its header repeats no name.** */
  lemma PrintedParsesExactlyWhen(kind: string, header: string, values: seq<string>)
    requires Plain(kind) && NamedHeader(header, values)
    ensures Parsed(Printed(kind, header, values)).Some? <==> Differ(Split(header, ','))
  {
    var names, ts := Split(header, ','), LineTokens(kind, header, values);
    hide Trim, Split, LineTokens, Parsed, Escaped, Plain, NoSpace, NamedHeader, NameOf, ValueOf, SplitOnce, Laid,
         StripPrefix, Tokens;
    if Differ(names) {
      LineRoundTrip(kind, header, values);
    } else {
      var i, j :| 0 <= i < j < |names| && Trim(names[i]) == Trim(names[j]);
      forall k | 0 <= k < |ts| ensures ts[k] != "" && NoSpace(ts[k]) {
        TokenFacts(kind, header, values, k);
      }
      TokenCount(kind, header, values);
      TokenFacts(kind, header, values, i + 1);
      TokenFacts(kind, header, values, j + 1);
      PrefixStripped(PREFIX, ts);
      LaidTokens(ts);
      RepeatedNameNeverParses(Printed(kind, header, values), i + 1, j + 1);
    }
  }

  /** The tokens of a printed line, one by one. */
  ghost predicate TokensAre(ts: seq<string>, kind: string, names: seq<string>, values: seq<string>)
    requires |names| == |values|
  {
    && |ts| == |names| + 1
    && (forall i :: 0 <= i < |ts| ==>
          && ts[i] != "" && NoSpace(ts[i]) && SplitOnce(ts[i], '=').Some?
          && NameOf(ts[i]) == (if i == 0 then "kind" else Trim(names[i - 1]))
          && ValueOf(ts[i]) == Escaped(if i == 0 then kind else values[i - 1]))
  }

  lemma PrintedIsRead(kind: string, header: string, values: seq<string>)
    requires Plain(kind) && GoodHeader(header, values)
    ensures var r := Parsed(Printed(kind, header, values));
      r.Some? && r.value.kind == Unescaped(Escaped(kind)) && Carries(r.value, Split(header, ','), values)
  {
    var names, ts := Split(header, ','), LineTokens(kind, header, values);
    hide Escaped, Trim, Split, SplitOnce, Plain, NoSpace, Laid, LineTokens, Meaning, NameOf, ValueOf, Unescaped, Parsed;
    TokenCount(kind, header, values);
    forall i | 0 <= i < |ts|
      ensures ts[i] != "" && NoSpace(ts[i]) && SplitOnce(ts[i], '=').Some?
      ensures NameOf(ts[i]) == if i == 0 then "kind" else Trim(names[i - 1])
      ensures ValueOf(ts[i]) == Escaped(if i == 0 then kind else values[i - 1])
    {
      TokenFacts(kind, header, values, i);
    }
    assert TokensAre(ts, kind, names, values);
    PrintedTokens(ts);
    PairsAreRead(ts, kind, header, values);
  }

  lemma TokenCount(kind: string, header: string, values: seq<string>)
    requires NamedHeader(header, values)
    ensures |LineTokens(kind, header, values)| == |Split(header, ',')| + 1
  {
  }

  lemma PairsAreRead(ts: seq<string>, kind: string, header: string, values: seq<string>)
    requires GoodHeader(header, values) && TokensAre(ts, kind, Split(header, ','), values)
    ensures var r := Meaning(ts);
      r.Some? && r.value.kind == Unescaped(Escaped(kind)) && Carries(r.value, Split(header, ','), values)
  {
    var names := Split(header, ',');
    hide Escaped, Trim, Split, SplitOnce, Plain, NoSpace, Meaning, NameOf, ValueOf, Unescaped;
    assert Named(ts) && NamesDiffer(ts) by { NamedTokens(ts); }
    MeaningOfPairs(ts);
    hide Named, NamesDiffer;
    var l := Meaning(ts).value;
    forall k | k in l.fields ensures exists i :: 0 <= i < |names| && k == Trim(names[i]) {
      var i :| 1 <= i < |ts| && k == NameOf(ts[i]);
      assert k == Trim(names[i - 1]);
    }
    forall i | 0 <= i < |names|
      ensures Trim(names[i]) in l.fields && l.fields[Trim(names[i])] == Escaped(values[i])
    {
      assert NameOf(ts[i + 1]) == Trim(names[i]) && ValueOf(ts[i + 1]) == Escaped(values[i]);
    }
  }

  lemma NamedTokens(ts: seq<string>)
    requires forall i :: 0 <= i < |ts| ==> SplitOnce(ts[i], '=').Some? && NameOf(ts[i]) != ""
    ensures Named(ts)
  {
    hide SplitOnce;
  }

  lemma TokenFacts(kind: string, header: string, values: seq<string>, i: nat)
    requires Plain(kind) && NamedHeader(header, values) && i < |LineTokens(kind, header, values)|
    ensures var ts, names := LineTokens(kind, header, values), Split(header, ',');
      && |ts| == 1 + |names|
      && ts[i] != "" && NoSpace(ts[i])
      && SplitOnce(ts[i], '=').Some?
      && NameOf(ts[i]) == (if i == 0 then "kind" else Trim(names[i - 1]))
      && ValueOf(ts[i]) == Escaped(if i == 0 then kind else values[i - 1])
  {
    var names := Split(header, ',');
    hide Escaped, Trim, Split, SplitOnce, Plain, NoSpace, Pair, GoodName, NameOf, ValueOf, IsSpace;
    if i == 0 {
      KindIsName();
      PairIsToken("kind", kind);
    } else {
      HeaderName(header, values, i - 1);
      hide NamedHeader;
      PairIsToken(Trim(names[i - 1]), values[i - 1]);
    }
  }

  lemma HeaderName(header: string, values: seq<string>, i: nat)
    requires NamedHeader(header, values) && i < |values|
    ensures var n := Trim(Split(header, ',')[i]); n != "" && NoSpace(n) && '=' !in n && Plain(values[i])
  {
    hide Trim, Split, NoSpace, Plain;
    assert GoodName(Trim(Split(header, ',')[i]));
  }

  lemma KindIsName()
    ensures NoSpace("kind") && '=' !in "kind"
  {
  }

  lemma MeaningOfPairs(ts: seq<string>)
    requires ts != [] && Named(ts) && NamesDiffer(ts) && NameOf(ts[0]) == "kind"
    ensures var r := Meaning(ts);
      && r.Some? && r.value.kind == Unescaped(ValueOf(ts[0]))
      && (forall k :: k in r.value.fields ==> exists i :: 1 <= i < |ts| && k == NameOf(ts[i]))
      && (forall i :: 1 <= i < |ts| ==>
            NameOf(ts[i]) in r.value.fields && r.value.fields[NameOf(ts[i])] == ValueOf(ts[i]))
  {
    hide NameOf, ValueOf, Unescaped, Lookup;
    forall i | 0 <= i < |ts| ensures Lookup(ts, NameOf(ts[i])) == ValueOf(ts[i]) {
      LookupAt(ts, i);
    }
  }

  /** **A header that does not match its values is reported in the line**, and no value is printed. */
  lemma MismatchIsReported(kind: string, header: string, values: seq<string>)
    requires Plain(kind) && |Split(header, ',')| != |values|
    ensures var r := Parsed(Printed(kind, header, values));
      r.Some? && r.value.fields.Keys == {"schema_error"}
  {
    var n, m := |Split(header, ',')|, |values|;
    hide Escaped, Split, SplitOnce, Plain, NoSpace, Laid, Mismatch, Pair, Parsed, Meaning, NameOf, IsSpace;
    KindIsName();
    PairIsToken("kind", kind);
    MismatchIsToken(n, m);
    TwoTokens(Pair("kind", kind), Mismatch(n, m));
    assert LineTokens(kind, header, values) == [Pair("kind", kind), Mismatch(n, m)];
  }

  /** **The text of a line**: the fixed prefix and the kind, and then the two counts when they differ, or one
      pair after another. */
  lemma PrintedExactly(kind: string, header: string, values: seq<string>)
    ensures var names := Split(header, ',');
      var start := "NLSBENCH/1 kind=" + Escaped(kind);
      Printed(kind, header, values) ==
        if |names| != |values|
        then start + " schema_error=header%20" + Decimal(|names|) + "%20values%20" + Decimal(|values|)
        else start + Listed(names, values, |values|)
  {
    var names := Split(header, ',');
    hide Escaped, Split, Decimal;
    FirstToken(kind);
    assert "NLSBENCH/1" + " kind=" == "NLSBENCH/1 kind=";
    if |names| != |values| {
      MismatchLaid(Pair("kind", kind), |names|, |values|);
      assert [Pair("kind", kind)] + [Mismatch(|names|, |values|)] == LineTokens(kind, header, values);
    } else {
      LaidIsListed(Pair("kind", kind), names, values, |values|);
      assert names[..|values|] == names && values[..|values|] == values;
      Associates(PREFIX, Laid([Pair("kind", kind)]), Listed(names, values, |values|));
    }
    hide Laid, Pair, Mismatch;
  }

  lemma MismatchLaid(first: string, n: nat, m: nat)
    ensures PREFIX + Laid([first] + [Mismatch(n, m)])
         == PREFIX + Laid([first]) + " schema_error=header%20" + Decimal(n) + "%20values%20" + Decimal(m)
  {
    LaidSnoc([first], Mismatch(n, m));
    MismatchText(Decimal(n), Decimal(m));
    hide Laid, Decimal;
    Associates(Laid([first]), " ", Mismatch(n, m));
    Associates(PREFIX, Laid([first]), " " + Mismatch(n, m));
    FourParts(PREFIX + Laid([first]), " schema_error=header%20", Decimal(n), "%20values%20", Decimal(m));
  }

  lemma MismatchText(n: string, m: string)
    ensures " " + (SCHEMA_ERROR + ['='] + (HEADER_COUNT + n + (VALUE_COUNT + m)))
         == " schema_error=header%20" + n + "%20values%20" + m
  {
    SixParts(" ", SCHEMA_ERROR, ['='], HEADER_COUNT, n, VALUE_COUNT, m);
    assert " " + SCHEMA_ERROR + ['='] + HEADER_COUNT == " schema_error=header%20";
  }

  lemma SixParts(o: string, a: string, b: string, c: string, n: string, d: string, m: string)
    ensures o + (a + b + (c + n + (d + m))) == o + a + b + c + n + d + m
  {
  }

  lemma FourParts(o: string, a: string, b: string, c: string, d: string)
    ensures o + a + b + c + d == o + (a + b + c + d)
  {
  }

  /** The first `n` pairs, each after a space. */
  function Listed(names: seq<string>, values: seq<string>, n: nat): string
    requires n <= |names| && n <= |values|
  {
    if n == 0 then "" else Listed(names, values, n - 1) + " " + Trim(names[n - 1]) + "=" + Escaped(values[n - 1])
  }

  lemma {:induction false} LaidIsListed(first: string, names: seq<string>, values: seq<string>, n: nat)
    requires n <= |names| == |values|
    ensures Laid([first] + Pairs(names[..n], values[..n])) == Laid([first]) + Listed(names, values, n)
  {
    hide Escaped, Trim;
    if n == 0 {
      assert Pairs(names[..0], values[..0]) == [];
      assert [first] + [] == [first];
    } else {
      LaidIsListed(first, names, values, n - 1);
      NextPair(first, names, values, n - 1);
      hide Laid, Pairs;
      FiveParts(Laid([first]), Listed(names, values, n - 1), " ", Trim(names[n - 1]), "=", Escaped(values[n - 1]));
    }
  }

  lemma FiveParts(o: string, a: string, b: string, c: string, d: string, e: string)
    ensures o + a + b + c + d + e == o + (a + b + c + d + e)
  {
  }

  lemma TwoTokens(a: string, b: string)
    requires a != "" && b != "" && NoSpace(a) && NoSpace(b)
    requires SplitOnce(a, '=').Some? && SplitOnce(b, '=').Some?
    requires NameOf(a) == "kind" && NameOf(b) == SCHEMA_ERROR
    ensures var r := Parsed(PREFIX + Laid([a, b]));
      r.Some? && r.value.fields.Keys == {SCHEMA_ERROR}
  {
    hide NoSpace, SplitOnce, Parsed, Meaning, Laid, NameOf, Trim, Tokens;
    var ts := [a, b];
    NamedTokens(ts);
    PrintedTokens(ts);
    MeaningOfPairs(ts);
    assert NameOf(ts[1]) == SCHEMA_ERROR;
  }

  lemma MismatchIsToken(n: nat, m: nat)
    ensures Mismatch(n, m) != "" && NoSpace(Mismatch(n, m))
    ensures SplitOnce(Mismatch(n, m), '=').Some? && NameOf(Mismatch(n, m)) == SCHEMA_ERROR
  {
    var left, right := HEADER_COUNT + Decimal(n), VALUE_COUNT + Decimal(m);
    FixedTexts();
    DigitsAreNoSpace(n);
    DigitsAreNoSpace(m);
    SplitOnceAt(SCHEMA_ERROR, left + right, '=');
    hide SplitOnce, IsSpace;
  }

  lemma FixedTexts()
    ensures NoSpace(SCHEMA_ERROR) && NoSpace(HEADER_COUNT) && NoSpace(VALUE_COUNT) && NoSpace(['='])
    ensures '=' !in SCHEMA_ERROR && SCHEMA_ERROR != "" && SCHEMA_ERROR != "kind"
  {
  }

  lemma DigitsAreNoSpace(n: nat)
    ensures NoSpace(Decimal(n))
  {
    hide Decimal;
  }

  // ---------- A numeric field ----------

  datatype Field = Missing | NotMeasured | Num(n: real) | Malformed(text: string)

  /** A field as a number; `parse` is the source's number parser, on finite numbers only. */
  function NumOf(l: Line, name: string, parse: string -> Option<real>): Field {
    if name !in l.fields then Missing
    else if l.fields[name] == NOT_MEASURED then NotMeasured
    else Numeric(Unescaped(l.fields[name]), parse)
  }

  function Numeric(plain: string, parse: string -> Option<real>): Field {
    match parse(Trim(plain))
    case Some(n) => Num(n)
    case None => Malformed(plain)
  }

  /** **The four outcomes stay four** from printer to reader: a name the header lacks is missing, `n/a` is
      not measured, and any other value is the number it spells or malformed. */
  lemma OutcomeOfPrinted(kind: string, header: string, values: seq<string>, name: string, parse: string -> Option<real>)
    requires Plain(kind) && GoodHeader(header, values)
    ensures var names, l := Split(header, ','), Parsed(Printed(kind, header, values));
      l.Some? &&
      var field := NumOf(l.value, name, parse);
      && (field == Missing <==> forall i :: 0 <= i < |names| ==> Trim(names[i]) != name)
      && (forall i :: 0 <= i < |names| && Trim(names[i]) == name ==>
            && (field == NotMeasured <==> values[i] == "n/a")
            && (values[i] != "n/a" && values[i] != "-" ==>
                  match parse(Trim(Flat(values[i])))
                  case Some(n) => field == Num(n)
                  case None => field == Malformed(Flat(values[i]))))
  {
    hide Escaped, Split, Flat, Unescaped, Parsed, Printed, GoodName, NumOf, Trim, Plain;
    LineRoundTrip(kind, header, values);
    var names, l := Split(header, ','), Parsed(Printed(kind, header, values)).value;
    NumCases(l, name, parse);
    forall i | 0 <= i < |names| && Trim(names[i]) == name
      ensures NumOf(l, name, parse) == NotMeasured <==> values[i] == NOT_MEASURED
    {
      NotMeasuredExactly(values[i]);
    }
  }

  /** Which outcome a raw field gives. */
  lemma NumCases(l: Line, name: string, parse: string -> Option<real>)
    ensures NumOf(l, name, parse) == Missing <==> name !in l.fields
    ensures NumOf(l, name, parse) == NotMeasured <==> (name in l.fields && l.fields[name] == NOT_MEASURED)
    ensures name in l.fields && l.fields[name] != NOT_MEASURED ==>
      NumOf(l, name, parse) == Numeric(TextOf(l, name).value, parse)
  {
    hide Unescaped, Trim;
  }

  lemma NotMeasuredExactly(v: string)
    ensures Escaped(v) == NOT_MEASURED <==> v == NOT_MEASURED
  {
    RoundTripExactly(v);
    if v == NOT_MEASURED {
      EscapedNotMeasured();
    } else {
      UnescapedNotMeasured();
      EscapedDash();
      if Flat(v) == NOT_MEASURED {
        FlatNotMeasured(v);
      }
    }
  }

  lemma FlatNotMeasured(v: string)
    requires Flat(v) == NOT_MEASURED
    ensures v == NOT_MEASURED
  {
    assert forall i :: 0 <= i < 3 ==> v[i] == Flat(v)[i];
  }

  lemma EscapedDash()
    ensures Escaped("-") == "-"
  {
    assert "-"[..0] == "";
  }

  lemma EscapedNotMeasured()
    ensures Escaped(NOT_MEASURED) == NOT_MEASURED
  {
    EscapeIsIdle(NOT_MEASURED);
    hide EscapeAll;
  }

  /** A text with nothing to escape is left as it is. */
  lemma {:induction false} EscapeIsIdle(v: string)
    requires forall i :: 0 <= i < |v| ==> v[i] != '%' && v[i] != ' ' && v[i] != '=' && !BecomesSpace(v[i])
    ensures EscapeAll(v) == v
  {
    if v != "" {
      EscapeIsIdle(v[..|v| - 1]);
      assert v == v[..|v| - 1] + [v[|v| - 1]];
    }
  }

  lemma UnescapedNotMeasured()
    ensures Unescaped(NOT_MEASURED) == NOT_MEASURED
  {
    assert NOT_MEASURED[1..] == "/a" && "/a"[1..] == "a" && "a"[1..] == "";
    assert UnescapeAll("a") == "a";
    assert UnescapeAll("/a") == "/a";
  }
}
