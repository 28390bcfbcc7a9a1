/** The reference oracle's rows, their serialisation, and the hash chain over epochs. */
module Chain {
  import opened Prelude
  import opened Bytes

  datatype Posting = Posting(txn: u64, acct: u64, cur: u32, amt: i128, valid: i64)

  datatype Outcome = Captured(amount: i128) | Void | Expire

  /** What a batch can hold; nothing in it changes an earlier row. */
  datatype Row =
    | Post(posting: Posting)
    | Hold(id: u64, acct: u64, cur: u32, amount: i128, valid: i64)
    | Resolve(hold: u64, outcome: Outcome, validAt: i64)

  const ZERO_DIGEST: Digest := EIGHT_ZEROS + EIGHT_ZEROS + EIGHT_ZEROS + EIGHT_ZEROS

  datatype EpochRec = EpochRec(id: nat, parent: Digest, hash: Digest, rows: seq<Row>)

  const TAG_POST: Bytes := ['P' as int]
  const TAG_HOLD: Bytes := ['H' as int]
  const TAG_RESOLVE: Bytes := ['R' as int]

  function OutcomeBytes(o: Outcome): Bytes {
    match o
    case Captured(a) => ['p' as int] + LeI128(a)
    case Void => ['v' as int]
    case Expire => ['e' as int]
  }

  function RowBytes(r: Row): (b: Bytes)
    ensures |b| > 0
  {
    match r
    case Post(p) =>
      TAG_POST + (LeU64(p.txn) + (LeU64(p.acct) + (LeU32(p.cur) + (LeI128(p.amt) + LeI64(p.valid)))))
    case Hold(id, acct, cur, amount, valid) =>
      TAG_HOLD + (LeU64(id) + (LeU64(acct) + (LeU32(cur) + (LeI128(amount) + LeI64(valid)))))
    case Resolve(hold, outcome, valid) =>
      TAG_RESOLVE + (LeU64(hold) + (OutcomeBytes(outcome) + LeI64(valid)))
  }

  function RowsBytes(rows: seq<Row>): Bytes {
    if rows == [] then [] else RowBytes(rows[0]) + RowsBytes(rows[1..])
  }

  /** What an epoch is hashed from. */
  function Preimage(parent: Digest, rows: seq<Row>): Bytes {
    parent + RowsBytes(rows)
  }

  lemma {:induction false} RowsBytesSnoc(rows: seq<Row>, r: Row)
    ensures RowsBytes(rows + [r]) == RowsBytes(rows) + RowBytes(r)
  {
    if rows == [] {
      assert rows + [r] == [r] && [r][1..] == [];
    } else {
      assert (rows + [r])[1..] == rows[1..] + [r];
      RowsBytesSnoc(rows[1..], r);
      assert RowBytes(rows[0]) + (RowsBytes(rows[1..]) + RowBytes(r))
          == RowBytes(rows[0]) + RowsBytes(rows[1..]) + RowBytes(r);
    }
  }

  lemma SixParts(f: Bytes, t: Bytes, a: Bytes, b: Bytes, c: Bytes, d: Bytes, e: Bytes)
    ensures f + t + a + b + c + d + e == f + (t + (a + (b + (c + (d + e)))))
  {
  }

  /** Feed one row to the hasher, field by field. */
  method FeedRow(fed0: Bytes, row: Row) returns (fed: Bytes)
    ensures fed == fed0 + RowBytes(row)
  {
    match row {
      case Post(p) =>
        fed := fed0 + TAG_POST;
        fed := fed + LeU64(p.txn);
        fed := fed + LeU64(p.acct);
        fed := fed + LeU32(p.cur);
        fed := fed + LeI128(p.amt);
        fed := fed + LeI64(p.valid);
        SixParts(fed0, TAG_POST, LeU64(p.txn), LeU64(p.acct), LeU32(p.cur), LeI128(p.amt), LeI64(p.valid));
      case Hold(id, acct, cur, amount, valid) =>
        fed := fed0 + TAG_HOLD;
        fed := fed + LeU64(id);
        fed := fed + LeU64(acct);
        fed := fed + LeU32(cur);
        fed := fed + LeI128(amount);
        fed := fed + LeI64(valid);
        SixParts(fed0, TAG_HOLD, LeU64(id), LeU64(acct), LeU32(cur), LeI128(amount), LeI64(valid));
      case Resolve(hold, outcome, valid) =>
        fed := fed0 + TAG_RESOLVE;
        fed := fed + LeU64(hold);
        match outcome {
          case Captured(a) =>
            fed := fed + ['p' as int];
            fed := fed + LeI128(a);
          case Void => fed := fed + ['v' as int];
          case Expire => fed := fed + ['e' as int];
        }
        fed := fed + LeI64(valid);
    }
  }

  /** One epoch's hash: the hasher is fed the parent digest, then each row. */
  method ChainHash(hash: Hash, parent: Digest, rows: seq<Row>) returns (d: Digest)
    ensures d == hash(Preimage(parent, rows))
  {
    hide RowBytes;
    var fed: Bytes := parent;
    for i := 0 to |rows|
      invariant fed == parent + RowsBytes(rows[..i])
    {
      fed := FeedRow(fed, rows[i]);
      RowsBytesSnoc(rows[..i], rows[i]);
      assert rows[..i + 1] == rows[..i] + [rows[i]];
    }
    assert rows[..|rows|] == rows;
    d := hash(fed);
  }

  // ---------- Unique decodability ----------

  lemma AmountFieldsCut(id: u64, acct: u64, cur: u32, amt: i128, valid: i64, x: Bytes,
                        id': u64, acct': u64, cur': u32, amt': i128, valid': i64, y: Bytes)
    requires LeU64(id) + (LeU64(acct) + (LeU32(cur) + (LeI128(amt) + (LeI64(valid) + x))))
          == LeU64(id') + (LeU64(acct') + (LeU32(cur') + (LeI128(amt') + (LeI64(valid') + y))))
    ensures id == id' && acct == acct' && cur == cur' && amt == amt' && valid == valid' && x == y
  {
    Cut(LeU64(id), LeU64(acct) + (LeU32(cur) + (LeI128(amt) + (LeI64(valid) + x))),
        LeU64(id'), LeU64(acct') + (LeU32(cur') + (LeI128(amt') + (LeI64(valid') + y))));
    Cut(LeU64(acct), LeU32(cur) + (LeI128(amt) + (LeI64(valid) + x)),
        LeU64(acct'), LeU32(cur') + (LeI128(amt') + (LeI64(valid') + y)));
    Cut(LeU32(cur), LeI128(amt) + (LeI64(valid) + x), LeU32(cur'), LeI128(amt') + (LeI64(valid') + y));
    Cut(LeI128(amt), LeI64(valid) + x, LeI128(amt'), LeI64(valid') + y);
    Cut(LeI64(valid), x, LeI64(valid'), y);
    LeU64Injective(id, id');
    LeU64Injective(acct, acct');
    LeU32Injective(cur, cur');
    LeI128Injective(amt, amt');
    LeI64Injective(valid, valid');
  }

  lemma OutcomeCut(o: Outcome, x: Bytes, o': Outcome, y: Bytes)
    requires OutcomeBytes(o) + x == OutcomeBytes(o') + y
    ensures o == o' && x == y
  {
    assert (OutcomeBytes(o) + x)[0] == OutcomeBytes(o)[0];
    assert (OutcomeBytes(o') + y)[0] == OutcomeBytes(o')[0];
    Cut(OutcomeBytes(o), x, OutcomeBytes(o'), y);
    if o.Captured? {
      Cut(['p' as int], LeI128(o.amount), ['p' as int], LeI128(o'.amount));
      LeI128Injective(o.amount, o'.amount);
    }
  }

  lemma ResolveFieldsCut(h: u64, o: Outcome, v: i64, x: Bytes, h': u64, o': Outcome, v': i64, y: Bytes)
    requires LeU64(h) + (OutcomeBytes(o) + (LeI64(v) + x)) == LeU64(h') + (OutcomeBytes(o') + (LeI64(v') + y))
    ensures h == h' && o == o' && v == v' && x == y
  {
    Cut(LeU64(h), OutcomeBytes(o) + (LeI64(v) + x), LeU64(h'), OutcomeBytes(o') + (LeI64(v') + y));
    OutcomeCut(o, LeI64(v) + x, o', LeI64(v') + y);
    Cut(LeI64(v), x, LeI64(v'), y);
    LeU64Injective(h, h');
    LeI64Injective(v, v');
  }

  /** **No row's bytes begin another's**: the row that starts a byte string is determined. */
  lemma RowCut(r: Row, x: Bytes, s: Row, y: Bytes)
    requires RowBytes(r) + x == RowBytes(s) + y
    ensures r == s && x == y
  {
    assert (RowBytes(r) + x)[0] == RowBytes(r)[0];
    assert (RowBytes(s) + y)[0] == RowBytes(s)[0];
    match r
    case Post(p) =>
      var q := s.posting;
      PostAssociates(p, x);
      PostAssociates(q, y);
      var a := LeU64(p.txn) + (LeU64(p.acct) + (LeU32(p.cur) + (LeI128(p.amt) + (LeI64(p.valid) + x))));
      var b := LeU64(q.txn) + (LeU64(q.acct) + (LeU32(q.cur) + (LeI128(q.amt) + (LeI64(q.valid) + y))));
      Cut(TAG_POST, a, TAG_POST, b);
      AmountFieldsCut(p.txn, p.acct, p.cur, p.amt, p.valid, x, q.txn, q.acct, q.cur, q.amt, q.valid, y);
    case Hold(id, acct, cur, amount, valid) =>
      HoldAssociates(r, x);
      HoldAssociates(s, y);
      var a := LeU64(id) + (LeU64(acct) + (LeU32(cur) + (LeI128(amount) + (LeI64(valid) + x))));
      var b := LeU64(s.id) + (LeU64(s.acct) + (LeU32(s.cur) + (LeI128(s.amount) + (LeI64(s.valid) + y))));
      Cut(TAG_HOLD, a, TAG_HOLD, b);
      AmountFieldsCut(id, acct, cur, amount, valid, x, s.id, s.acct, s.cur, s.amount, s.valid, y);
    case Resolve(hold, outcome, valid) =>
      ResolveAssociates(r, x);
      ResolveAssociates(s, y);
      var a := LeU64(hold) + (OutcomeBytes(outcome) + (LeI64(valid) + x));
      var b := LeU64(s.hold) + (OutcomeBytes(s.outcome) + (LeI64(s.validAt) + y));
      Cut(TAG_RESOLVE, a, TAG_RESOLVE, b);
      ResolveFieldsCut(hold, outcome, valid, x, s.hold, s.outcome, s.validAt, y);
  }

  lemma PostAssociates(p: Posting, x: Bytes)
    ensures RowBytes(Post(p)) + x == TAG_POST +
      (LeU64(p.txn) + (LeU64(p.acct) + (LeU32(p.cur) + (LeI128(p.amt) + (LeI64(p.valid) + x)))))
  {
    hide LeU64, LeU32, LeI128, LeI64;
  }

  lemma HoldAssociates(r: Row, x: Bytes)
    requires r.Hold?
    ensures RowBytes(r) + x == TAG_HOLD +
      (LeU64(r.id) + (LeU64(r.acct) + (LeU32(r.cur) + (LeI128(r.amount) + (LeI64(r.valid) + x)))))
  {
    hide LeU64, LeU32, LeI128, LeI64;
  }

  lemma ResolveAssociates(r: Row, x: Bytes)
    requires r.Resolve?
    ensures RowBytes(r) + x == TAG_RESOLVE + (LeU64(r.hold) + (OutcomeBytes(r.outcome) + (LeI64(r.validAt) + x)))
  {
    hide LeU64, LeI64, OutcomeBytes;
  }

  /** **The serialisation of a batch determines the batch.** */
  lemma {:induction false} RowsBytesInjective(rows: seq<Row>, rows': seq<Row>)
    requires RowsBytes(rows) == RowsBytes(rows')
    ensures rows == rows'
  {
    if rows != [] && rows' != [] {
      RowCut(rows[0], RowsBytes(rows[1..]), rows'[0], RowsBytes(rows'[1..]));
      RowsBytesInjective(rows[1..], rows'[1..]);
      assert rows == [rows[0]] + rows[1..] && rows' == [rows'[0]] + rows'[1..];
    }
  }

  /** Five fields read back by their places, from byte `at` on. */
  ghost predicate FieldsAt(b: Bytes, id: u64, acct: u64, cur: u32, amt: i128, valid: i64)
    requires |b| == 45
  {
    Widths();
    FromLeBound(b[21..37]);
    FromLeBound(b[37..45]);
    && FromLe(b[1..9]) == id && FromLe(b[9..17]) == acct && FromLe(b[17..21]) == cur
    && Signed(FromLe(b[21..37]), 16) == amt && Signed(FromLe(b[37..45]), 8) == valid
  }

  lemma FieldsBack(tag: Bytes, id: u64, acct: u64, cur: u32, amt: i128, valid: i64)
    requires |tag| == 1
    ensures var b := tag + (LeU64(id) + (LeU64(acct) + (LeU32(cur) + (LeI128(amt) + LeI64(valid)))));
      |b| == 45 && FieldsAt(b, id, acct, cur, amt, valid)
  {
    var b := tag + (LeU64(id) + (LeU64(acct) + (LeU32(cur) + (LeI128(amt) + LeI64(valid)))));
    FieldSlices(tag, LeU64(id), LeU64(acct), LeU32(cur), LeI128(amt), LeI64(valid));
    Widths();
    LeRoundTrip(id, 8);
    LeRoundTrip(acct, 8);
    LeRoundTrip(cur, 4);
    LeRoundTrip(Unsigned(amt, 16), 16);
    LeRoundTrip(Unsigned(valid, 8), 8);
    SignedRoundTrip(amt, 16);
    SignedRoundTrip(valid, 8);
    hide FromLe, LeBytes, Pow256;
  }

  lemma FieldSlices(tag: Bytes, t: Bytes, a: Bytes, c: Bytes, m: Bytes, v: Bytes)
    requires |tag| == 1 && |t| == 8 && |a| == 8 && |c| == 4 && |m| == 16 && |v| == 8
    ensures var b := tag + (t + (a + (c + (m + v))));
      |b| == 45 && b[1..9] == t && b[9..17] == a && b[17..21] == c && b[21..37] == m && b[37..45] == v
  {
  }

  /** **The layout of a row**, read back by offsets: its letter, and then each field little-endian in its
      own width; a resolution has the hold, a letter for the outcome, the amount when captured, and the
      time. */
  lemma RowLayout(r: Row)
    ensures var b := RowBytes(r);
      match r
      case Post(p) => |b| == 45 && b[0] == 0x50 && FieldsAt(b, p.txn, p.acct, p.cur, p.amt, p.valid)
      case Hold(id, acct, cur, amount, valid) =>
        |b| == 45 && b[0] == 0x48 && FieldsAt(b, id, acct, cur, amount, valid)
      case Resolve(hold, outcome, valid) =>
        && |b| == (if outcome.Captured? then 34 else 18)
        && b[0] == 0x52 && FromLe(b[1..9]) == hold
        && b[9] == (match outcome case Captured(_) => 0x70 case Void => 0x76 case Expire => 0x65)
        && FromLe(b[|b| - 8..]) < Pow256(8) && Signed(FromLe(b[|b| - 8..]), 8) == valid
        && (outcome.Captured? ==>
              FromLe(b[10..26]) < Pow256(16) && Signed(FromLe(b[10..26]), 16) == outcome.amount)
  {
    match r
    case Post(p) => FieldsBack(TAG_POST, p.txn, p.acct, p.cur, p.amt, p.valid);
    case Hold(id, acct, cur, amount, valid) => FieldsBack(TAG_HOLD, id, acct, cur, amount, valid);
    case Resolve(hold, outcome, valid) => ResolveLayout(hold, outcome, valid);
  }

  lemma ResolveLayout(hold: u64, outcome: Outcome, valid: i64)
    ensures var b := RowBytes(Resolve(hold, outcome, valid));
      && |b| == (if outcome.Captured? then 34 else 18)
      && b[0] == 0x52 && FromLe(b[1..9]) == hold
      && b[9] == (match outcome case Captured(_) => 0x70 case Void => 0x76 case Expire => 0x65)
      && FromLe(b[|b| - 8..]) < Pow256(8) && Signed(FromLe(b[|b| - 8..]), 8) == valid
      && (outcome.Captured? ==>
            FromLe(b[10..26]) < Pow256(16) && Signed(FromLe(b[10..26]), 16) == outcome.amount)
  {
    ResolveSlices(LeU64(hold), outcome, LeI64(valid));
    Widths();
    LeRoundTrip(hold, 8);
    LeRoundTrip(Unsigned(valid, 8), 8);
    SignedRoundTrip(valid, 8);
    if outcome.Captured? {
      LeRoundTrip(Unsigned(outcome.amount, 16), 16);
      SignedRoundTrip(outcome.amount, 16);
    }
    hide FromLe, LeBytes, Pow256, OutcomeBytes;
  }

  lemma ResolveSlices(hold: Bytes, outcome: Outcome, valid: Bytes)
    requires |hold| == 8 && |valid| == 8
    ensures var b := TAG_RESOLVE + (hold + (OutcomeBytes(outcome) + valid));
      && |b| == (if outcome.Captured? then 34 else 18) && b[0] == 0x52 && b[1..9] == hold
      && b[9] == (match outcome case Captured(_) => 0x70 case Void => 0x76 case Expire => 0x65)
      && b[|b| - 8..] == valid && (outcome.Captured? ==> b[10..26] == LeI128(outcome.amount))
  {
    hide LeI128;
    var b := TAG_RESOLVE + (hold + (OutcomeBytes(outcome) + valid));
    assert outcome.Captured? ==> OutcomeBytes(outcome)[1..] == LeI128(outcome.amount);
    assert outcome.Captured? ==> b[10..26] == OutcomeBytes(outcome)[1..];
  }

  // ---------- The chain ----------

  /** The digest the next epoch takes as its parent. */
  function Tip(epochs: seq<EpochRec>): Digest {
    if epochs == [] then ZERO_DIGEST else epochs[|epochs| - 1].hash
  }

  /** The first parent is thirty-two zero bytes, and every later one the digest before it. */
  lemma TipIs(epochs: seq<EpochRec>)
    ensures epochs == [] ==> forall i :: 0 <= i < 32 ==> Tip(epochs)[i] == 0
    ensures epochs != [] ==> Tip(epochs) == epochs[|epochs| - 1].hash
  {
  }

  ghost predicate LinkedAt(hash: Hash, epochs: seq<EpochRec>, i: nat)
    requires i < |epochs|
  {
    && epochs[i].parent == Tip(epochs[..i])
    && epochs[i].hash == hash(Preimage(epochs[i].parent, epochs[i].rows))
  }

  ghost predicate IsChain(hash: Hash, epochs: seq<EpochRec>) {
    forall i :: 0 <= i < |epochs| ==> LinkedAt(hash, epochs, i)
  }

  lemma ChainPrefix(hash: Hash, epochs: seq<EpochRec>, n: nat)
    requires IsChain(hash, epochs) && n <= |epochs|
    ensures IsChain(hash, epochs[..n])
  {
    forall i | 0 <= i < n ensures LinkedAt(hash, epochs[..n], i) {
      assert LinkedAt(hash, epochs, i) && epochs[..n][..i] == epochs[..i];
    }
  }

  lemma ChainSnoc(hash: Hash, epochs: seq<EpochRec>, e: EpochRec)
    requires IsChain(hash, epochs)
    requires e.parent == Tip(epochs) && e.hash == hash(Preimage(e.parent, e.rows))
    ensures IsChain(hash, epochs + [e])
  {
    forall i | 0 <= i < |epochs + [e]| ensures LinkedAt(hash, epochs + [e], i) {
      if i < |epochs| {
        assert LinkedAt(hash, epochs, i) && (epochs + [e])[..i] == epochs[..i];
      } else {
        assert (epochs + [e])[..i] == epochs;
      }
    }
  }

  /** Recompute the chain forward and compare. */
  method VerifyChain(hash: Hash, epochs: seq<EpochRec>) returns (ok: bool)
    ensures ok <==> IsChain(hash, epochs)
  {
    var parent := ZERO_DIGEST;
    for i := 0 to |epochs|
      invariant parent == Tip(epochs[..i])
      invariant forall j :: 0 <= j < i ==> LinkedAt(hash, epochs, j)
    {
      var e := epochs[i];
      var expected := ChainHash(hash, parent, e.rows);
      if e.parent != parent || e.hash != expected {
        assert !LinkedAt(hash, epochs, i);
        return false;
      }
      parent := e.hash;
      assert epochs[..i + 1][i] == e;
    }
    return true;
  }

  /** What two verified chains with one tip show. */
  datatype Evidence = SameHistory | Collision(left: Bytes, right: Bytes) | ZeroPreimage(message: Bytes)

  ghost predicate SameEpoch(a: EpochRec, b: EpochRec) {
    a.parent == b.parent && a.hash == b.hash && a.rows == b.rows
  }

  ghost predicate Shows(hash: Hash, e1: seq<EpochRec>, e2: seq<EpochRec>, ev: Evidence) {
    match ev
    case SameHistory => |e1| == |e2| && forall i :: 0 <= i < |e1| ==> SameEpoch(e1[i], e2[i])
    case Collision(a, b) => a != b && hash(a) == hash(b)
    case ZeroPreimage(m) => |e1| != |e2| && hash(m) == ZERO_DIGEST
  }

  /** **Tamper evidence, with nothing assumed of the hash.** Two histories that verify and end in one
      digest are the same, or exhibit two different messages with one digest, or, when one is longer
      than the other, a message that hashes to thirty-two zero bytes. */
  lemma {:induction false} TamperEvidence(hash: Hash, e1: seq<EpochRec>, e2: seq<EpochRec>)
    returns (ev: Evidence)
    requires IsChain(hash, e1) && IsChain(hash, e2) && Tip(e1) == Tip(e2)
    ensures Shows(hash, e1, e2, ev)
    decreases |e1|
  {
    hide Preimage;
    var n1, n2 := |e1|, |e2|;
    if n1 == 0 && n2 == 0 {
      ev := SameHistory;
    } else if n1 == 0 {
      assert LinkedAt(hash, e2, n2 - 1);
      ev := ZeroPreimage(Preimage(e2[n2 - 1].parent, e2[n2 - 1].rows));
    } else if n2 == 0 {
      assert LinkedAt(hash, e1, n1 - 1);
      ev := ZeroPreimage(Preimage(e1[n1 - 1].parent, e1[n1 - 1].rows));
    } else {
      var collision := CompareEpochs(hash, e1, e2);
      if collision.Some? {
        ev := collision.value;
      } else {
        ChainPrefix(hash, e1, n1 - 1);
        ChainPrefix(hash, e2, n2 - 1);
        ev := TamperEvidence(hash, e1[..n1 - 1], e2[..n2 - 1]);
        SameUpToLast(hash, e1, e2, ev);
      }
    }
  }

  /** Two last epochs with one digest agree, or their messages collide. */
  lemma CompareEpochs(hash: Hash, e1: seq<EpochRec>, e2: seq<EpochRec>) returns (c: Option<Evidence>)
    requires e1 != [] && e2 != [] && Tip(e1) == Tip(e2)
    requires LinkedAt(hash, e1, |e1| - 1) && LinkedAt(hash, e2, |e2| - 1)
    ensures c.Some? ==> c.value.Collision? && Shows(hash, e1, e2, c.value)
    ensures c.None? ==> SameEpoch(e1[|e1| - 1], e2[|e2| - 1])
    ensures c.None? ==> Tip(e1[..|e1| - 1]) == Tip(e2[..|e2| - 1])
  {
    var a, b := e1[|e1| - 1], e2[|e2| - 1];
    if Preimage(a.parent, a.rows) != Preimage(b.parent, b.rows) {
      c := Some(Collision(Preimage(a.parent, a.rows), Preimage(b.parent, b.rows)));
    } else {
      Cut(a.parent, RowsBytes(a.rows), b.parent, RowsBytes(b.rows));
      RowsBytesInjective(a.rows, b.rows);
      c := None;
    }
  }

  lemma SameUpToLast(hash: Hash, e1: seq<EpochRec>, e2: seq<EpochRec>, ev: Evidence)
    requires e1 != [] && e2 != [] && SameEpoch(e1[|e1| - 1], e2[|e2| - 1])
    requires Shows(hash, e1[..|e1| - 1], e2[..|e2| - 1], ev)
    ensures Shows(hash, e1, e2, ev)
  {
    if ev == SameHistory {
      forall i | 0 <= i < |e1| ensures SameEpoch(e1[i], e2[i]) {
        assert i < |e1| - 1 ==> SameEpoch(e1[..|e1| - 1][i], e2[..|e2| - 1][i]);
      }
    }
  }

  /** What the chain does not cover: an epoch's own number is neither hashed nor checked. */
  lemma EpochNumbersAreNotCovered(hash: Hash, epochs: seq<EpochRec>, i: nat, id: nat)
    requires IsChain(hash, epochs) && i < |epochs|
    ensures IsChain(hash, epochs[i := epochs[i].(id := id)])
    ensures Tip(epochs[i := epochs[i].(id := id)]) == Tip(epochs)
  {
    var forged := epochs[i := epochs[i].(id := id)];
    forall j | 0 <= j < |forged| ensures LinkedAt(hash, forged, j) {
      assert LinkedAt(hash, epochs, j);
      assert j > 0 ==> forged[..j][j - 1].hash == epochs[..j][j - 1].hash;
    }
  }
}
