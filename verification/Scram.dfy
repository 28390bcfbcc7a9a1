/** The client side of SCRAM-SHA-256 (RFC 5802), against a conforming server. */
module Scram {
  import opened Prelude
  import opened Bytes
  import opened Text
  import opened KeyDerivation
  import Base64

  /** The hash, and how text becomes bytes. Nothing is assumed of either. */
  datatype Primitives = Primitives(hash: Hash, utf8: string -> Bytes)

  datatype ScramError = Malformed(what: string) | NonceMismatch | ServerSignature

  datatype Client = Client(password: Bytes, clientNonce: string, firstBare: string)

  function NewClient(p: Primitives, password: string, clientNonce: string): Client {
    Client(p.utf8(password), clientNonce, "n=,r=" + clientNonce)
  }

  predicate StartsWith(s: string, prefix: string) {
    |prefix| <= |s| && s[..|prefix|] == prefix
  }

  // ---------- The server's first message ----------

  /** The value of the last attribute of a name, among the pieces of a message. */
  function LastAttr(parts: seq<string>, name: string): Option<string> {
    if parts == [] then None
    else
      match SplitOnce(parts[|parts| - 1], '=')
      case Some((k, v)) => if k == name then Some(v) else LastAttr(parts[..|parts| - 1], name)
      case None => LastAttr(parts[..|parts| - 1], name)
  }

  function Attr(message: string, name: string): Option<string> {
    LastAttr(Split(message, ','), name)
  }

  datatype Offer = Offer(nonce: string, salt: Bytes, iterations: u32)

  /** What the server proposes, or the first thing wrong with it. */
  function OfferOf(clientNonce: string, serverFirst: string): (r: Result<Offer, ScramError>)
    ensures r.Ok? ==> r.value.iterations >= 1
  {
    match (Attr(serverFirst, "r"), Attr(serverFirst, "s"), Attr(serverFirst, "i"))
    case (Some(nonce), Some(saltText), Some(count)) =>
      if !StartsWith(nonce, clientNonce) || |nonce| == |clientNonce| then Err(NonceMismatch)
      else if Base64.Decoded(saltText).None? then Err(Malformed("salt"))
      else if U32Of(count).None? || U32Of(count).value < 1 then Err(Malformed("iteration count"))
      else Ok(Offer(nonce, Base64.Decoded(saltText).value, U32Of(count).value))
    case _ => Err(Malformed(serverFirst))
  }

  // ---------- Keys and messages: section 3 of RFC 5802 ----------

  function Salted(p: Primitives, password: Bytes, salt: Bytes, iterations: u32): Digest
    requires iterations >= 1
  {
    Derived(p.hash, password, salt, iterations, 32)
  }

  function ClientKey(p: Primitives, salted: Digest): Digest {
    HmacOf(p.hash, salted, p.utf8("Client Key"))
  }

  function StoredKey(p: Primitives, salted: Digest): Digest {
    p.hash(ClientKey(p, salted))
  }

  function ServerKey(p: Primitives, salted: Digest): Digest {
    HmacOf(p.hash, salted, p.utf8("Server Key"))
  }

  function WithoutProof(nonce: string): string {
    "c=biws,r=" + nonce
  }

  function AuthMessage(firstBare: string, serverFirst: string, withoutProof: string): string {
    firstBare + "," + serverFirst + "," + withoutProof
  }

  function Signature(p: Primitives, key: Digest, auth: string): Digest {
    HmacOf(p.hash, key, p.utf8(auth))
  }

  /** The client's key, masked by its signature. */
  function Proof(p: Primitives, salted: Digest, auth: string): Digest {
    XorBytes(ClientKey(p, salted), Signature(p, StoredKey(p, salted), auth))
  }

  /** The client's final message, and the signature it expects back. */
  function Final(p: Primitives, c: Client, serverFirst: string, o: Offer): (string, Digest)
    requires o.iterations >= 1
  {
    var salted := Salted(p, c.password, o.salt, o.iterations);
    var auth := AuthMessage(c.firstBare, serverFirst, WithoutProof(o.nonce));
    (WithoutProof(o.nonce) + ",p=" + Base64.Encoded(Proof(p, salted, auth)),
     Signature(p, ServerKey(p, salted), auth))
  }

  /** `v` is the value of the last piece that starts with the name and an equals sign. */
  ghost predicate IsLast(parts: seq<string>, name: string, v: Option<string>) {
    match v
    case None => forall j :: 0 <= j < |parts| ==> !StartsWith(parts[j], name + "=")
    case Some(t) =>
      exists j :: 0 <= j < |parts| && parts[j] == name + "=" + t
        && forall k :: j < k < |parts| ==> !StartsWith(parts[k], name + "=")
  }

  lemma PieceOf(part: string, name: string)
    requires '=' !in name
    ensures match SplitOnce(part, '=')
            case Some((k, v)) => (k == name <==> StartsWith(part, name + "=")) && (k == name ==> part == name + "=" + v)
            case None => !StartsWith(part, name + "=")
  {
    if StartsWith(part, name + "=") {
      var v := part[|name| + 1..];
      assert part == name + ['='] + v;
      SplitOnceAt(name, v, '=');
    }
  }

  lemma {:induction false} LastAttrIsLast(parts: seq<string>, name: string)
    requires '=' !in name
    ensures IsLast(parts, name, LastAttr(parts, name))
  {
    if parts != [] {
      var n := |parts| - 1;
      PieceOf(parts[n], name);
      LastAttrIsLast(parts[..n], name);
      hide SplitOnce, StartsWith;
    }
  }

  /** What is taken of a first message's attributes, or the first thing wrong with them. */
  ghost function Taken(clientNonce: string, message: string, r: Option<string>, s: Option<string>, i: Option<string>)
    : Result<Offer, ScramError>
  {
    if r.None? || s.None? || i.None? then Err(Malformed(message))
    else if !(clientNonce < r.value) then Err(NonceMismatch)
    else if Base64.Decoded(s.value) == None then Err(Malformed("salt"))
    else if U32Of(i.value) == None || U32Of(i.value) == Some(0) then Err(Malformed("iteration count"))
    else Ok(Offer(r.value, Base64.Decoded(s.value).value, U32Of(i.value).value))
  }

  /** **Every first message** is judged by the last attribute of each name: one missing, then a nonce that
      does not strictly extend ours, then the salt, then the count. */
  lemma OfferExactly(clientNonce: string, message: string)
    ensures exists r, s, i ::
      && IsLast(Split(message, ','), "r", r) && IsLast(Split(message, ','), "s", s)
      && IsLast(Split(message, ','), "i", i)
      && OfferOf(clientNonce, message) == Taken(clientNonce, message, r, s, i)
  {
    var parts := Split(message, ',');
    LastAttrIsLast(parts, "r");
    LastAttrIsLast(parts, "s");
    LastAttrIsLast(parts, "i");
    OfferIsTaken(clientNonce, message);
    hide Split, LastAttr, IsLast, OfferOf, Taken;
  }

  lemma OfferIsTaken(clientNonce: string, message: string)
    ensures OfferOf(clientNonce, message)
         == Taken(clientNonce, message, Attr(message, "r"), Attr(message, "s"), Attr(message, "i"))
  {
    hide Attr, Base64.Decoded, U32Of;
    var r := Attr(message, "r");
    if r.Some? {
      ProperPrefix(r.value, clientNonce);
    }
    hide StartsWith;
  }

  lemma ProperPrefix(s: string, t: string)
    ensures t < s <==> StartsWith(s, t) && |s| != |t|
  {
  }

  /** The channel-binding text is the encoding of the header `n,,`, bytes 6E 2C 2C. */
  lemma BindingIsEncodedHeader()
    ensures Base64.Encoded([0x6E, 0x2C, 0x2C]) == "biws"
  {
    hide Base64.Symbol, Base64.Group;
    var b: Bytes := [0x6E, 0x2C, 0x2C];
    HeaderGroup();
    Base64.SymbolRanges(27);
    Base64.SymbolRanges(34);
    Base64.SymbolRanges(48);
    Base64.SymbolRanges(44);
    assert Base64.Encoded(b) == Base64.Quad(b);
    assert ['b', 'i', 'w', 's'] == "biws";
  }

  lemma HeaderGroup()
    ensures Base64.Group([0x6E, 0x2C, 0x2C]) == 0x6E2C2C
    ensures 0x6E2C2C / 0x4_0000 == 27 && 0x6E2C2C / 0x1000 % 64 == 34
    ensures 0x6E2C2C / 64 % 64 == 48 && 0x6E2C2C % 64 == 44
  {
  }

  /** **The keys and messages are those of section 3 of RFC 5802**, from the derived key on. */
  lemma MessagesAreRfc(p: Primitives, password: string, clientNonce: string, serverFirst: string, o: Offer)
    requires o.iterations >= 1
    ensures var salted: Digest := Derived(p.hash, p.utf8(password), o.salt, o.iterations, 32);
      var clientKey := HmacOf(p.hash, salted, p.utf8("Client Key"));
      var serverKey := HmacOf(p.hash, salted, p.utf8("Server Key"));
      var auth := p.utf8("n=,r=" + clientNonce + "," + serverFirst + ",c=biws,r=" + o.nonce);
      var mask := HmacOf(p.hash, p.hash(clientKey), auth);
      && Final(p, NewClient(p, password, clientNonce), serverFirst, o)
           == ("c=biws,r=" + o.nonce + ",p=" + Base64.Encoded(XorBytes(clientKey, mask)),
               HmacOf(p.hash, serverKey, auth))
      && Register(p, p.utf8(password), o.salt, o.iterations)
           == Verifier(o.salt, o.iterations, p.hash(clientKey), serverKey)
  {
    hide HmacOf, Derived, Base64.Encoded, XorBytes;
    assert AuthMessage("n=,r=" + clientNonce, serverFirst, WithoutProof(o.nonce))
        == "n=,r=" + clientNonce + "," + serverFirst + ",c=biws,r=" + o.nonce;
  }

  /** Consume the server's first message. */
  method ClientFinal(p: Primitives, c: Client, serverFirst: string)
      returns (r: Result<(string, Digest), ScramError>)
    ensures match OfferOf(c.clientNonce, serverFirst)
            case Err(e) => r == Err(e)
            case Ok(o) => r == Ok(Final(p, c, serverFirst, o))
  {
    hide HmacOf, Split, SplitOnce, U32Of, Base64.Encoded, Base64.Decoded, Derived;
    var nonce: Option<string>, salt: Option<string>, count: Option<string> := None, None, None;
    var parts := Split(serverFirst, ',');
    for i := 0 to |parts|
      invariant nonce == LastAttr(parts[..i], "r")
      invariant salt == LastAttr(parts[..i], "s")
      invariant count == LastAttr(parts[..i], "i")
    {
      assert parts[..i + 1][..i] == parts[..i];
      match SplitOnce(parts[i], '=') {
        case Some((k, v)) =>
          if k == "r" {
            nonce := Some(v);
          } else if k == "s" {
            salt := Some(v);
          } else if k == "i" {
            count := Some(v);
          }
        case None =>
      }
    }
    assert parts[..|parts|] == parts;
    if nonce.None? || salt.None? || count.None? {
      return Err(Malformed(serverFirst));
    }
    if !StartsWith(nonce.value, c.clientNonce) || |nonce.value| == |c.clientNonce| {
      return Err(NonceMismatch);
    }
    var decoded := Base64.Decode(salt.value);
    if decoded.None? {
      return Err(Malformed("salt"));
    }
    var parsed := ParseU32(count.value);
    if parsed.None? || parsed.value < 1 {
      return Err(Malformed("iteration count"));
    }
    var buffer := new u8[32];
    Pbkdf2(p.hash, c.password, decoded.value, parsed.value, buffer);
    var salted: Digest := buffer[..];
    var clientKey := Hmac(p.hash, salted, p.utf8("Client Key"));
    var storedKey := p.hash(clientKey);
    var serverKey := Hmac(p.hash, salted, p.utf8("Server Key"));
    var withoutProof := "c=biws,r=" + nonce.value;
    var auth := c.firstBare + "," + serverFirst + "," + withoutProof;
    var clientSignature := Hmac(p.hash, storedKey, p.utf8(auth));
    var proof := XorInto(clientKey, clientSignature);
    var text := Base64.Encode(proof);
    var expected := Hmac(p.hash, serverKey, p.utf8(auth));
    r := Ok((withoutProof + ",p=" + text, expected));
  }

  /** Check the server's final message against the signature expected. */
  method Verify(expected: Digest, serverFinal: string) returns (r: Result<(), ScramError>)
    ensures r.Ok? <==> StartsWith(serverFinal, "v=") && Base64.Decoded(serverFinal[2..]) == Some(expected)
    ensures r == Err(ServerSignature) <==>
      (StartsWith(serverFinal, "v=") && Base64.Decoded(serverFinal[2..]) !in [None, Some(expected)])
    ensures StartsWith(serverFinal, "e=") ==> r == Err(Malformed("server error: " + serverFinal[2..]))
    ensures !StartsWith(serverFinal, "e=") && !StartsWith(serverFinal, "v=") ==> r == Err(Malformed(serverFinal))
    ensures StartsWith(serverFinal, "v=") && Base64.Decoded(serverFinal[2..]) == None ==> r == Err(Malformed("signature"))
  {
    hide Base64.Decoded;
    if StartsWith(serverFinal, "e=") {
      return Err(Malformed("server error: " + serverFinal[2..]));
    }
    if !StartsWith(serverFinal, "v=") {
      return Err(Malformed(serverFinal));
    }
    var got := Base64.Decode(serverFinal[2..]);
    if got.None? {
      return Err(Malformed("signature"));
    }
    r := if got.value == expected then Ok(()) else Err(ServerSignature);
  }

  // ---------- A conforming server ----------

  /** What a server keeps for a user: never the password. */
  datatype Verifier = Verifier(salt: Bytes, iterations: u32, storedKey: Digest, serverKey: Digest)

  function Register(p: Primitives, password: Bytes, salt: Bytes, iterations: u32): Verifier
    requires iterations >= 1
  {
    var salted := Salted(p, password, salt, iterations);
    Verifier(salt, iterations, StoredKey(p, salted), ServerKey(p, salted))
  }

  function ServerFirst(v: Verifier, nonce: string): string {
    Join(["r=" + nonce, "s=" + Base64.Encoded(v.salt), "i=" + Decimal(v.iterations)], ',')
  }

  /** Section 3 of RFC 5802: recover the client's key from the proof, and accept when it hashes to the
      stored key; the answer proves the server knows its own. */
  function ServerFinal(p: Primitives, v: Verifier, firstBare: string, nonce: string, clientFinal: string): Option<string> {
    var parts := Split(clientFinal, ',');
    var last := parts[|parts| - 1];
    if |parts| != 3 || parts[0] != "c=biws" || parts[1] != "r=" + nonce || !StartsWith(last, "p=") then None
    else
      ServerAnswer(p, v, AuthMessage(firstBare, ServerFirst(v, nonce), Join(parts[..|parts| - 1], ',')), last[2..])
  }

  function ServerAnswer(p: Primitives, v: Verifier, auth: string, proofText: string): Option<string> {
    match Base64.Decoded(proofText)
    case Some(proof) =>
      if |proof| == 32 && p.hash(XorBytes(proof, Signature(p, v.storedKey, auth))) == v.storedKey
      then Some("v=" + Base64.Encoded(Signature(p, v.serverKey, auth)))
      else None
    case None => None
  }

  // ---------- Completeness ----------

  lemma Piece(name: char, value: string)
    requires name != '='
    ensures SplitOnce([name, '='] + value, '=') == Some(([name], value))
  {
    SplitOnceAt([name], value, '=');
    assert [name] + ['='] + value == [name, '='] + value;
  }

  /** A piece that names none of the three attributes. */
  ghost predicate Foreign(part: string) {
    match SplitOnce(part, '=')
    case None => true
    case Some((k, _)) => k != "r" && k != "s" && k != "i"
  }

  ghost predicate AllForeign(parts: seq<string>) {
    forall i :: 0 <= i < |parts| ==> Foreign(parts[i])
  }

  lemma {:induction false} ForeignSkipped(parts: seq<string>, more: seq<string>, name: string)
    requires AllForeign(more) && name in ["r", "s", "i"]
    ensures LastAttr(parts + more, name) == LastAttr(parts, name)
  {
    if more == [] {
      assert parts + more == parts;
    } else {
      var rest := more[..|more| - 1];
      assert Foreign(more[|more| - 1]);
      hide SplitOnce;
      ForeignSkipped(parts, rest, name);
      assert (parts + more)[..|parts + more| - 1] == parts + rest;
    }
  }

  lemma LastAttrSnoc(parts: seq<string>, k: char, value: string, name: string)
    requires k != '='
    ensures LastAttr(parts + [[k, '='] + value], name) == if [k] == name then Some(value) else LastAttr(parts, name)
  {
    Piece(k, value);
    hide SplitOnce;
    assert (parts + [[k, '='] + value])[..|parts|] == parts;
  }

  /** **Any well-formed first message is parsed**: nonce, salt and count in order, whatever stands before
      them and any other attributes after. So later attributes win over earlier ones of the same name, and
      extensions are ignored, also the mandatory kind, which section 5.1 of RFC 5802 says must be refused. */
  lemma WellFormedIsParsed(clientNonce: string, nonce: string, salt: Bytes, count: u32,
                           before: seq<string>, after: seq<string>)
    requires ',' !in nonce && AllForeign(after)
    requires forall i :: 0 <= i < |before| ==> ',' !in before[i]
    requires forall i :: 0 <= i < |after| ==> ',' !in after[i]
    ensures var three := ["r=" + nonce, "s=" + Base64.Encoded(salt), "i=" + Decimal(count)];
      OfferOf(clientNonce, Join(before + three + after, ',')) ==
        if !(StartsWith(nonce, clientNonce) && |nonce| > |clientNonce|) then Err(NonceMismatch)
        else if count == 0 then Err(Malformed("iteration count"))
        else Ok(Offer(nonce, salt, count))
  {
    var r, s, i := "r=" + nonce, "s=" + Base64.Encoded(salt), "i=" + Decimal(count);
    var parts := before + [r, s, i] + after;
    hide Base64.Encoded, Base64.Decoded, Decimal, U32Of, SplitOnce, Foreign, Join, Split, OfferOf;
    NoComma(salt, count);
    SplitJoin(parts, ',');
    forall name | name in ["r", "s", "i"]
      ensures LastAttr(parts, name) ==
        Some(if name == "r" then nonce else if name == "s" then Base64.Encoded(salt) else Decimal(count))
    {
      ThreeAttrs(before, nonce, Base64.Encoded(salt), Decimal(count), name);
      ForeignSkipped(before + [r, s, i], after, name);
    }
    assert "r" in ["r", "s", "i"] && "s" in ["r", "s", "i"] && "i" in ["r", "s", "i"];
    OfferFrom(clientNonce, Join(parts, ','), nonce, salt, count);
  }

  lemma OfferFrom(clientNonce: string, message: string, nonce: string, salt: Bytes, count: u32)
    requires Attr(message, "r") == Some(nonce)
    requires Attr(message, "s") == Some(Base64.Encoded(salt)) && Attr(message, "i") == Some(Decimal(count))
    ensures OfferOf(clientNonce, message) ==
      if !(StartsWith(nonce, clientNonce) && |nonce| > |clientNonce|) then Err(NonceMismatch)
      else if count == 0 then Err(Malformed("iteration count"))
      else Ok(Offer(nonce, salt, count))
  {
    hide Base64.Encoded, Base64.Decoded, Decimal, U32Of, Attr;
    Base64.RoundTrip(salt);
    U32RoundTrip(count);
  }

  lemma ThreeAttrs(before: seq<string>, nonce: string, salt: string, count: string, name: string)
    requires name in ["r", "s", "i"]
    ensures LastAttr(before + ["r=" + nonce, "s=" + salt, "i=" + count], name) ==
      Some(if name == "r" then nonce else if name == "s" then salt else count)
  {
    hide LastAttr;
    var b1 := before + ["r=" + nonce];
    var b2 := b1 + ["s=" + salt];
    assert before + ["r=" + nonce, "s=" + salt, "i=" + count] == b2 + ["i=" + count];
    LastAttrSnoc(before, 'r', nonce, name);
    LastAttrSnoc(b1, 's', salt, name);
    LastAttrSnoc(b2, 'i', count, name);
    assert ['r', '='] == "r=" && ['s', '='] == "s=" && ['i', '='] == "i=";
    assert ['r'] == "r" && ['s'] == "s" && ['i'] == "i";
  }

  lemma NoComma(salt: Bytes, count: nat)
    ensures ',' !in "s=" + Base64.Encoded(salt)
    ensures ',' !in "i=" + Decimal(count)
  {
    Base64.EncodedHasNoComma(salt);
  }

  /** **The exchange completes** for every password, nonce, salt and count, whatever the hash: the client
      takes the server's first message, the server recovers the client's key from the proof and accepts,
      and the client accepts the server's answer. */
  lemma ExchangeCompletes(p: Primitives, password: string, clientNonce: string, nonce: string,
                          salt: Bytes, iterations: u32)
    requires iterations >= 1 && ',' !in nonce && StartsWith(nonce, clientNonce) && |nonce| > |clientNonce|
    ensures var c := NewClient(p, password, clientNonce);
      var v := Register(p, c.password, salt, iterations);
      var o := Offer(nonce, salt, iterations);
      var (clientFinal, expected) := Final(p, c, ServerFirst(v, nonce), o);
      && OfferOf(clientNonce, ServerFirst(v, nonce)) == Ok(o)
      && ServerFinal(p, v, c.firstBare, nonce, clientFinal) == Some("v=" + Base64.Encoded(expected))
      && Base64.Decoded(Base64.Encoded(expected)) == Some(expected)
  {
    var c := NewClient(p, password, clientNonce);
    var v := Register(p, c.password, salt, iterations);
    var o := Offer(nonce, salt, iterations);
    var salted := Salted(p, c.password, salt, iterations);
    var serverFirst := ServerFirst(v, nonce);
    var auth := AuthMessage(c.firstBare, serverFirst, WithoutProof(nonce));
    var proof := Proof(p, salted, auth);
    hide Salted, Proof, Signature, Base64.Encoded, Base64.Decoded, Split, Join, OfferOf, ServerFirst, AuthMessage,
         ServerAnswer, StoredKey, ServerKey, WithoutProof;
    var (clientFinal, expected) := Final(p, c, serverFirst, o);
    FirstMessageParsed(clientNonce, nonce, v);
    Base64.RoundTrip(expected);
    FinalMessageSplits(nonce, Base64.Encoded(proof), proof);
    ProofAccepted(p, v, salted, auth);
    ServerSees(p, v, c.firstBare, nonce, clientFinal, Base64.Encoded(proof));
  }

  /** The server recovers the client's key from the proof. */
  lemma ProofAccepted(p: Primitives, v: Verifier, salted: Digest, auth: string)
    requires v.storedKey == StoredKey(p, salted) && v.serverKey == ServerKey(p, salted)
    ensures XorBytes(Proof(p, salted, auth), Signature(p, v.storedKey, auth)) == ClientKey(p, salted)
    ensures ServerAnswer(p, v, auth, Base64.Encoded(Proof(p, salted, auth))) ==
      Some("v=" + Base64.Encoded(Signature(p, ServerKey(p, salted), auth)))
  {
    hide Base64.Encoded, Base64.Decoded, Signature, ClientKey;
    Base64.RoundTrip(Proof(p, salted, auth));
    XorUndoes(ClientKey(p, salted), Signature(p, v.storedKey, auth));
  }

  lemma ServerSees(p: Primitives, v: Verifier, firstBare: string, nonce: string, clientFinal: string, text: string)
    requires Split(clientFinal, ',') == ["c=biws", "r=" + nonce, "p=" + text]
    requires Join(["c=biws", "r=" + nonce], ',') == WithoutProof(nonce)
    ensures ServerFinal(p, v, firstBare, nonce, clientFinal) ==
      ServerAnswer(p, v, AuthMessage(firstBare, ServerFirst(v, nonce), WithoutProof(nonce)), text)
  {
    hide Split, Join, ServerAnswer, AuthMessage, ServerFirst, WithoutProof;
    var parts := Split(clientFinal, ',');
    assert parts[..2] == ["c=biws", "r=" + nonce];
    assert ("p=" + text)[2..] == text && ("p=" + text)[..2] == "p=";
  }

  lemma FirstMessageParsed(clientNonce: string, nonce: string, v: Verifier)
    requires v.iterations >= 1 && ',' !in nonce && StartsWith(nonce, clientNonce) && |nonce| > |clientNonce|
    ensures OfferOf(clientNonce, ServerFirst(v, nonce)) == Ok(Offer(nonce, v.salt, v.iterations))
  {
    hide OfferOf;
    var three := ["r=" + nonce, "s=" + Base64.Encoded(v.salt), "i=" + Decimal(v.iterations)];
    assert [] + three + [] == three;
    WellFormedIsParsed(clientNonce, nonce, v.salt, v.iterations, [], []);
  }

  lemma FinalMessageSplits(nonce: string, text: string, proof: Bytes)
    requires ',' !in nonce && text == Base64.Encoded(proof)
    ensures Split(WithoutProof(nonce) + ",p=" + text, ',') == ["c=biws", "r=" + nonce, "p=" + text]
    ensures Join(["c=biws", "r=" + nonce], ',') == WithoutProof(nonce)
  {
    hide Base64.Encoded, Split, Join;
    Base64.EncodedHasNoComma(proof);
    var r, t := "r=" + nonce, "p=" + text;
    JoinTwoThree("c=biws", r, t, ',');
    assert WithoutProof(nonce) == "c=biws" + [','] + r;
    assert ",p=" + text == [','] + t;
    assert WithoutProof(nonce) + ",p=" + text == WithoutProof(nonce) + (",p=" + text);
    SplitJoin(["c=biws", r, t], ',');
  }

  /** **An answer is accepted only with the right signature**: a server that does not compute it fails. */
  lemma AnswerNeedsTheSignature(expected: Digest, given: Digest)
    ensures Base64.Decoded(Base64.Encoded(given)) == Some(expected) <==> given == expected
  {
    Base64.RoundTrip(given);
  }
}
