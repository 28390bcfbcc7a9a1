/** The differential harness: seeded schedules, fault campaigns, and the comparison itself. */
module Schedules {
  import opened Prelude
  import opened Text
  import opened Chain
  import opened ReferenceOracle

  datatype Op =
    | Open(accounts: u64, cur: u32, each: i128)
    | Submit(key: Key, from: u64, to: u64, cur: u32, amt: i128)
    | Duplicate(key: Key)
    | Read(acct: u64, cur: u32, anchor: u64)
    | Evict
    | Crash

  datatype Schedule = Schedule(seed: u64, ops: seq<Op>)

  const ISSUANCE: u64 := 9999
  const OPEN_KEY: Key := "open"

  /** The operations whose amounts the source can negate and multiply without overflow. */
  predicate Representable(op: Op) {
    match op
    case Open(accounts, _, each) => Fits(0 - each * accounts)
    case Submit(_, _, _, _, amt) => Fits(0 - amt)
    case _ => true
  }

  predicate Fits(x: int) {
    -0x8000_0000_0000_0000_0000_0000_0000_0000 <= x < 0x8000_0000_0000_0000_0000_0000_0000_0000
  }

  // ---------- What the oracle is sent ----------

  function Funding(n: u64, cur: u32, each: i128): (rows: seq<Row>)
    ensures |rows| == n
    ensures forall i :: 0 <= i < n ==> rows[i] == Post(Posting(0, i, cur, each, 0))
  {
    if n == 0 then [] else Funding(n - 1, cur, each) + [Post(Posting(0, n - 1, cur, each, 0))]
  }

  function Opening(accounts: u64, cur: u32, each: i128): seq<Row>
    requires Fits(0 - each * accounts)
  {
    Funding(accounts, cur, each) + [Post(Posting(0, ISSUANCE, cur, 0 - each * accounts, 0))]
  }

  method OpeningRows(accounts: u64, cur: u32, each: i128) returns (rows: seq<Row>)
    requires Fits(0 - each * accounts)
    ensures rows == Opening(accounts, cur, each)
  {
    rows := [];
    var a: u64 := 0;
    while a < accounts
      invariant a <= accounts && rows == Funding(a, cur, each)
    {
      rows := rows + [Post(Posting(0, a, cur, each, 0))];
      a := a + 1;
    }
    rows := rows + [Post(Posting(0, ISSUANCE, cur, 0 - each * accounts, 0))];
  }

  function Transfer(from: u64, to: u64, cur: u32, amt: i128): seq<Row>
    requires Fits(0 - amt)
  {
    [Post(Posting(1, from, cur, 0 - amt, 0)), Post(Posting(1, to, cur, amt, 0))]
  }

  lemma {:induction false} FundingAmount(n: u64, cur: u32, each: i128, t: u64, c: u32)
    ensures GroupSum(Funding(n, cur, each), t, c) == if t == 0 && c == cur then n * each else 0
  {
    if n > 0 {
      FundingAmount(n - 1, cur, each, t, c);
      var rows := Funding(n, cur, each);
      AmountSnoc(rows, n - 1, OfGroup(t, c));
      assert rows[..n - 1] == Funding(n - 1, cur, each) && rows[..n] == rows;
    }
  }

  lemma OpeningBalanced(accounts: u64, cur: u32, each: i128)
    requires Fits(0 - each * accounts)
    ensures Balanced(Opening(accounts, cur, each))
  {
    var rows := Opening(accounts, cur, each);
    forall t: u64, c: u32 ensures GroupSum(rows, t, c) == 0 {
      FundingAmount(accounts, cur, each, t, c);
      AmountSnoc(rows, accounts, OfGroup(t, c));
      assert rows[..accounts] == Funding(accounts, cur, each) && rows[..accounts + 1] == rows;
    }
  }

  lemma TransferBalanced(from: u64, to: u64, cur: u32, amt: i128)
    requires Fits(0 - amt)
    ensures Balanced(Transfer(from, to, cur, amt))
  {
    var rows := Transfer(from, to, cur, amt);
    forall t: u64, c: u32 ensures GroupSum(rows, t, c) == 0 {
      AmountSnoc(rows, 1, OfGroup(t, c));
      AmountSnoc(rows, 0, OfGroup(t, c));
      assert rows[..2] == rows && rows[..0] == [];
    }
  }

  lemma {:induction false} FundingReaches(n: u64, cur: u32, each: i128, a: u64, c: u32)
    ensures Amount(Funding(n, cur, each), OfAccount(a, c)) == if c == cur && a < n then each else 0
  {
    if n > 0 {
      FundingReaches(n - 1, cur, each, a, c);
      var rows := Funding(n, cur, each);
      AmountSnoc(rows, n - 1, OfAccount(a, c));
      assert rows[..n - 1] == Funding(n - 1, cur, each) && rows[..n] == rows;
    }
  }

  /** **An opening funds each account once**, out of the issuance account and in its own currency only. */
  lemma OpeningFunds(accounts: u64, cur: u32, each: i128, a: u64, c: u32)
    requires Fits(0 - each * accounts)
    ensures Amount(Opening(accounts, cur, each), OfAccount(a, c))
         == if c != cur then 0 else (if a < accounts then each else 0) - (if a == 9999 then each * accounts else 0)
  {
    var rows := Opening(accounts, cur, each);
    FundingReaches(accounts, cur, each, a, c);
    AmountSnoc(rows, accounts, OfAccount(a, c));
    assert rows[..accounts] == Funding(accounts, cur, each) && rows[..accounts + 1] == rows;
  }

  /** **A transfer moves its amount** from the sender to the receiver, and moves nothing else. */
  lemma TransferMoves(from: u64, to: u64, cur: u32, amt: i128, a: u64, c: u32)
    requires Fits(0 - amt)
    ensures Amount(Transfer(from, to, cur, amt), OfAccount(a, c))
         == if c != cur then 0 else (if a == to then amt else 0) - (if a == from then amt else 0)
  {
    var rows := Transfer(from, to, cur, amt);
    AmountSnoc(rows, 1, OfAccount(a, c));
    AmountSnoc(rows, 0, OfAccount(a, c));
    assert rows[..2] == rows && rows[..0] == [];
  }

  /** What one operation submits: its key and its rows. */
  function Batch(op: Op): Option<Command>
    requires Representable(op)
  {
    match op
    case Open(accounts, cur, each) => Some(Command(OPEN_KEY, Opening(accounts, cur, each)))
    case Submit(key, from, to, cur, amt) => Some(Command(key, Transfer(from, to, cur, amt)))
    case Duplicate(key) => Some(Command(key, []))
    case _ => None
  }

  ghost function Exec(hash: Hash, s: State, op: Op): State
    requires Representable(op)
  {
    match Batch(op)
    case Some(cmd) => Admit(hash, s, cmd.key, cmd.rows).0
    case None => s
  }

  /** **What each operation does to an oracle**: an opening is submitted under the key "open", a transfer
      under its own, and a replay with no rows at all, so that one of an unspent key would seal an empty
      epoch; reads, evictions and crashes leave the oracle as it is. */
  lemma ExecExactly(hash: Hash, s: State, op: Op)
    requires Representable(op)
    ensures match op
            case Open(accounts, cur, each) => Exec(hash, s, op) == Admit(hash, s, "open", Opening(accounts, cur, each)).0
            case Submit(key, from, to, cur, amt) => Exec(hash, s, op) == Admit(hash, s, key, Transfer(from, to, cur, amt)).0
            case Duplicate(key) =>
              Exec(hash, s, op).epochs == if key in s.idem then s.epochs else s.epochs + [NextEpoch(hash, s.epochs, [])]
            case _ => Exec(hash, s, op) == s
  {
    var none: seq<Row> := [];
    assert Balanced(none);
  }

  ghost predicate AllRepresentable(ops: seq<Op>) {
    forall i :: 0 <= i < |ops| ==> Representable(ops[i])
  }

  ghost function ExecAll(hash: Hash, s: State, ops: seq<Op>): State
    requires AllRepresentable(ops)
    decreases |ops|
  {
    if ops == [] then s else ExecAll(hash, Exec(hash, s, ops[0]), ops[1..])
  }

  /** An operation that does what its name says in state `s`: a submission is admitted, a replay
      refused, and a read names a sealed epoch. */
  ghost predicate Proper(hash: Hash, s: State, op: Op) {
    && Representable(op)
    && match op
       case Open(accounts, cur, each) => Admit(hash, s, OPEN_KEY, Opening(accounts, cur, each)).1.Ok?
       case Submit(key, from, to, cur, amt) => Admit(hash, s, key, Transfer(from, to, cur, amt)).1.Ok?
       case Duplicate(key) => Admit(hash, s, key, []).1 == Err(ReferenceOracle.Reject.Duplicate)
       case Read(_, _, anchor) => anchor < |s.epochs|
       case _ => true
  }

  ghost predicate ProperFrom(hash: Hash, s: State, ops: seq<Op>)
    decreases |ops|
  {
    ops == [] || (Proper(hash, s, ops[0]) && ProperFrom(hash, Exec(hash, s, ops[0]), ops[1..]))
  }

  lemma {:induction false} ProperIsRepresentable(hash: Hash, s: State, ops: seq<Op>)
    requires ProperFrom(hash, s, ops)
    ensures AllRepresentable(ops)
    decreases |ops|
  {
    if ops != [] {
      ProperIsRepresentable(hash, Exec(hash, s, ops[0]), ops[1..]);
    }
  }

  lemma {:induction false} ProperSnoc(hash: Hash, s: State, ops: seq<Op>, op: Op)
    requires ProperFrom(hash, s, ops) && AllRepresentable(ops)
    requires Proper(hash, ExecAll(hash, s, ops), op)
    ensures ProperFrom(hash, s, ops + [op]) && AllRepresentable(ops + [op])
    ensures ExecAll(hash, s, ops + [op]) == Exec(hash, ExecAll(hash, s, ops), op)
    decreases |ops|
  {
    hide Exec;
    if ops == [] {
      assert [op][1..] == [] && ops + [op] == [op];
      assert ProperFrom(hash, Exec(hash, s, op), []);
    } else {
      assert (ops + [op])[1..] == ops[1..] + [op];
      ProperSnoc(hash, Exec(hash, s, ops[0]), ops[1..], op);
    }
  }

  // ---------- The generator ----------

  /** The generator's step: multiply and add, wrapping at 64 bits. */
  function LcgStep(state: u64): u64 {
    (state * 6364136223846793005 + 1442695040888963407) % 0x1_0000_0000_0000_0000
  }

  class Lcg {
    var state: u64

    constructor (state: u64)
      ensures this.state == state
    {
      this.state := state;
    }

    /** The top 31 bits of the next state. */
    method Next() returns (x: u64)
      modifies this
      ensures state == (old(state) * 6364136223846793005 + 1442695040888963407) % 0x1_0000_0000_0000_0000
      ensures x == state / 0x2_0000_0000 && x < 0x8000_0000
      ensures state == Stepped(old(state), 1) && x == Drawn(old(state), 1)
    {
      state := LcgStep(state);
      x := state / 0x2_0000_0000;
    }
  }

  /** The state after `n` draws, and the n-th draw. */
  function Stepped(state: u64, n: nat): u64 {
    if n == 0 then state else LcgStep(Stepped(state, n - 1))
  }

  function Drawn(state: u64, n: nat): u64
    requires n > 0
  {
    Stepped(state, n) / 0x2_0000_0000
  }

  lemma {:induction false} StepsAdd(state: u64, m: nat, n: nat)
    ensures Stepped(Stepped(state, m), n) == Stepped(state, m + n)
    ensures n > 0 ==> Drawn(Stepped(state, m), n) == Drawn(state, m + n)
  {
    if n > 0 {
      StepsAdd(state, m, n - 1);
    }
  }

  /** The transfer the next three draws give. */
  function TransferOf(state: u64, seed: u64, accounts: u64, i: nat): (op: Op)
    requires accounts >= 1
    ensures op.Submit? && op.key == TransferKey(seed, i)
  {
    var from, to := Modulo(Drawn(state, 1), accounts), Modulo(Drawn(state, 2), accounts);
    var other := if to == from then Modulo(to + 1, accounts) else to;
    Submit(TransferKey(seed, i), from, other, 840, 1 + Modulo(Drawn(state, 3), 500))
  }

  /** The read the next two draws give. */
  function ReadOf(state: u64, accounts: u64, epochs: nat): (op: Op)
    requires accounts >= 1 && epochs >= 1
    ensures op.Read? && op.anchor < epochs
  {
    Read(Modulo(Drawn(state, 1), accounts), 840, Modulo(Drawn(state, 2), epochs))
  }

  /** Where a generator stands: what it has produced, and its state. */
  datatype Progress = Progress(ops: seq<Op>, keys: seq<Key>, epochs: nat, state: u64)

  /** One turn: of a hundred, forty-five transfers, forty reads, seven evictions, five replays of an
      earlier key, and three crashes. */
  function Turn(p: Progress, seed: u64, accounts: u64, i: nat): (r: Progress)
    requires accounts >= 1 && p.epochs >= 1
    ensures r.epochs >= 1
  {
    Turned(p, seed, accounts, i, Modulo(Drawn(p.state, 1), 100), Stepped(p.state, 1))
  }

  function Turned(p: Progress, seed: u64, accounts: u64, i: nat, pick: nat, s: u64): (r: Progress)
    requires accounts >= 1 && p.epochs >= 1
    ensures r.epochs >= 1
  {
    if pick < 45 then
      Progress(p.ops + [TransferOf(s, seed, accounts, i)], p.keys + [TransferKey(seed, i)], p.epochs + 1,
               Stepped(s, 3))
    else if pick < 85 then
      p.(ops := p.ops + [ReadOf(s, accounts, p.epochs)], state := Stepped(s, 2))
    else if pick < 92 then p.(ops := p.ops + [Evict], state := s)
    else if pick < 97 then
      var k := Modulo(Drawn(s, 1), if |p.keys| > 0 then |p.keys| else 1);
      p.(ops := if k < |p.keys| then p.ops + [Op.Duplicate(p.keys[k])] else p.ops, state := Stepped(s, 1))
    else p.(ops := p.ops + [Crash], state := s)
  }

  function Turns(seed: u64, accounts: u64, n: nat): (p: Progress)
    requires accounts >= 1
    ensures p.epochs >= 1
  {
    if n == 0 then
      Progress([Open(accounts, 840, 1_000_000)], [], 1, Seeded(seed))
    else Turn(Turns(seed, accounts, n - 1), seed, accounts, n - 1)
  }

  /** **What each turn adds**, by its draws: the first picks the kind, and the next three, two or one choose
      the accounts and the amount, the epoch read, or the key replayed. */
  lemma EachTurnIsDrawn(seed: u64, accounts: u64, n: nat)
    requires accounts >= 1
    ensures Turns(seed, accounts, 0)
         == Progress([Open(accounts, 840, 1_000_000)], [], 1,
                     (seed * 0x9E37_79B9_7F4A_7C15 + 1) % 0x1_0000_0000_0000_0000)
    ensures var p, q := Turns(seed, accounts, n), Turns(seed, accounts, n + 1);
      var s := p.state;
      var pick := Drawn(s, 1) % 100;
      var from, to := Drawn(s, 2) % accounts, Drawn(s, 3) % accounts;
      var key := "t-" + Decimal(seed) + "-" + Decimal(n);
      && (pick < 45 ==>
            q == Progress(
              p.ops + [Submit(key, from, if to == from then (to + 1) % accounts else to, 840, 1 + Drawn(s, 4) % 500)],
              p.keys + [key], p.epochs + 1, Stepped(s, 4)))
      && (45 <= pick < 85 ==>
            q == Progress(p.ops + [Read(from, 840, Drawn(s, 3) % p.epochs)], p.keys, p.epochs, Stepped(s, 3)))
      && (85 <= pick < 92 ==> q == Progress(p.ops + [Evict], p.keys, p.epochs, Stepped(s, 1)))
      && (92 <= pick < 97 && p.keys != [] ==>
            q == Progress(p.ops + [Op.Duplicate(p.keys[Drawn(s, 2) % |p.keys|])], p.keys, p.epochs, Stepped(s, 2)))
      && (92 <= pick < 97 && p.keys == [] ==> q == p.(state := Stepped(s, 2)))
      && (97 <= pick ==> q == Progress(p.ops + [Crash], p.keys, p.epochs, Stepped(s, 1)))
  {
    var s := Turns(seed, accounts, n).state;
    StepsAdd(s, 1, 1);
    StepsAdd(s, 1, 2);
    StepsAdd(s, 1, 3);
    hide Stepped, Drawn, Decimal, Turns;
    NextTurnIs(seed, accounts, n);
  }

  lemma NextTurnIs(seed: u64, accounts: u64, n: nat)
    requires accounts >= 1
    ensures Turns(seed, accounts, n + 1) == Turn(Turns(seed, accounts, n), seed, accounts, n)
  {
  }

  /** A longer schedule only goes on from a shorter one of the same seed. */
  lemma {:induction false} LongerGoesOn(seed: u64, accounts: u64, m: nat, n: nat)
    requires accounts >= 1 && m <= n
    ensures Turns(seed, accounts, m).ops <= Turns(seed, accounts, n).ops
    ensures Turns(seed, accounts, m).keys <= Turns(seed, accounts, n).keys
  {
    if m < n {
      LongerGoesOn(seed, accounts, m, n - 1);
      hide Modulo, Drawn, Stepped, TransferKey;
    }
  }

  /** **The keys held for replay are those of the transfers so far, and the epochs counted are the
      transfers and the opening.** */
  lemma {:induction false} KeysAreTransfers(seed: u64, accounts: u64, n: nat)
    requires accounts >= 1
    ensures var p := Turns(seed, accounts, n);
      p.keys == SubmittedKeys(p.ops) && p.epochs == |p.keys| + 1
  {
    if n > 0 {
      KeysAreTransfers(seed, accounts, n - 1);
      TurnKeepsKeys(Turns(seed, accounts, n - 1), seed, accounts, n - 1);
    } else {
      SubmittedSnoc([], Open(accounts, 840, 1_000_000));
    }
  }

  lemma TurnKeepsKeys(p: Progress, seed: u64, accounts: u64, i: nat)
    requires accounts >= 1 && p.epochs >= 1
    requires p.keys == SubmittedKeys(p.ops) && p.epochs == |p.keys| + 1
    ensures var r := Turn(p, seed, accounts, i);
      r.keys == SubmittedKeys(r.ops) && r.epochs == |r.keys| + 1
  {
    hide Modulo, Drawn, Stepped, TransferKey, SubmittedKeys, TransferOf, ReadOf;
    var s := Stepped(p.state, 1);
    SubmittedSnoc(p.ops, TransferOf(s, seed, accounts, i));
    SubmittedSnoc(p.ops, ReadOf(s, accounts, p.epochs));
    SubmittedSnoc(p.ops, Evict);
    SubmittedSnoc(p.ops, Crash);
    forall k: Key {
      SubmittedSnoc(p.ops, Op.Duplicate(k));
    }
  }

  lemma SubmittedSnoc(ops: seq<Op>, op: Op)
    ensures SubmittedKeys(ops + [op]) == SubmittedKeys(ops) + if op.Submit? then [op.key] else []
  {
    assert (ops + [op])[..|ops|] == ops;
    assert ops + [op] != [] && (ops + [op])[|ops|] == op;
  }

  function SubmittedKeys(ops: seq<Op>): seq<Key> {
    if ops == [] then []
    else
      SubmittedKeys(ops[..|ops| - 1]) + if ops[|ops| - 1].Submit? then [ops[|ops| - 1].key] else []
  }

  function TransferKey(seed: u64, i: nat): Key {
    "t-" + Decimal(seed) + "-" + Decimal(i)
  }

  lemma TransferKeysDiffer(seed: u64, i: nat, j: nat)
    ensures TransferKey(seed, i) == TransferKey(seed, j) ==> i == j
    ensures TransferKey(seed, i) != OPEN_KEY
  {
    var stem := "t-" + Decimal(seed) + "-";
    assert TransferKey(seed, i)[|stem|..] == Decimal(i) && TransferKey(seed, j)[|stem|..] == Decimal(j);
    if TransferKey(seed, i) == TransferKey(seed, j) {
      DecimalInjective(i, j);
    }
    assert TransferKey(seed, i)[0] == 't';
  }

  /** Every replay names a transfer submitted before it. */
  ghost predicate ReplaysEarlier(ops: seq<Op>) {
    forall i :: 0 <= i < |ops| && ops[i].Duplicate? ==>
      exists j :: 0 <= j < i && ops[j].Submit? && ops[j].key == ops[i].key
  }

  /** What the generator knows of the oracle its schedule will drive. */
  ghost predicate Generated(
    hash: Hash, seed: u64, ops: seq<Op>, keys: seq<Key>, epochs: nat, i: nat)
  {
    && AllRepresentable(ops) && ProperFrom(hash, INIT, ops) && ReplaysEarlier(ops)
    && (var s := ExecAll(hash, INIT, ops); |s.epochs| == epochs && s.idem == {OPEN_KEY} + Elements(keys))
    && (forall k :: k in keys ==> exists j: nat :: j < i && k == TransferKey(seed, j))
    && (forall k :: k in keys ==> exists j :: 0 <= j < |ops| && ops[j].Submit? && ops[j].key == k)
  }

  lemma GeneratedOpen(hash: Hash, seed: u64, accounts: u64, cur: u32)
    ensures Fits(0 - 1_000_000 * accounts)
    ensures Generated(hash, seed, [Open(accounts, cur, 1_000_000)], [], 1, 0)
  {
    var op := Open(accounts, cur, 1_000_000);
    OpeningBalanced(accounts, cur, 1_000_000);
    assert [] + [op] == [op];
    ProperSnoc(hash, INIT, [], op);
  }

  lemma GeneratedTransfer(
    hash: Hash, seed: u64, ops: seq<Op>, keys: seq<Key>, epochs: nat, i: nat, op: Op)
    requires Generated(hash, seed, ops, keys, epochs, i)
    requires op.Submit? && op.key == TransferKey(seed, i) && Fits(0 - op.amt)
    ensures Generated(hash, seed, ops + [op], keys + [op.key], epochs + 1, i + 1)
  {
    NewKey(hash, seed, ops, keys, epochs, i);
    TransferBalanced(op.from, op.to, op.cur, op.amt);
    hide Balanced, Transfer, ReplaysEarlier, TransferKey;
    ProperSnoc(hash, INIT, ops, op);
    hide ProperFrom;
    ElementsAppend(keys, [op.key]);
    EarlierGrows(ops, op, keys + [op.key]);
  }

  lemma NewKey(hash: Hash, seed: u64, ops: seq<Op>, keys: seq<Key>, epochs: nat, i: nat)
    requires Generated(hash, seed, ops, keys, epochs, i)
    ensures TransferKey(seed, i) !in ExecAll(hash, INIT, ops).idem
  {
    hide ProperFrom, ReplaysEarlier, ExecAll, TransferKey;
    var key := TransferKey(seed, i);
    TransferKeysDiffer(seed, i, i);
    if key in keys {
      var j: nat :| j < i && key == TransferKey(seed, j);
      TransferKeysDiffer(seed, i, j);
    }
  }

  lemma GeneratedQuiet(
    hash: Hash, seed: u64, ops: seq<Op>, keys: seq<Key>, epochs: nat, i: nat, op: Op)
    requires Generated(hash, seed, ops, keys, epochs, i)
    requires op.Evict? || op.Crash? || (op.Read? && op.anchor < epochs) || (op.Duplicate? && op.key in keys)
    ensures Generated(hash, seed, ops + [op], keys, epochs, i + 1)
  {
    ProperSnoc(hash, INIT, ops, op);
    EarlierGrows(ops, op, keys);
  }

  lemma EarlierGrows(ops: seq<Op>, op: Op, keys: seq<Key>)
    requires ReplaysEarlier(ops)
    requires op.Duplicate? ==> exists j :: 0 <= j < |ops| && ops[j].Submit? && ops[j].key == op.key
    requires forall k :: k in keys ==>
      (op.Submit? && op.key == k) || exists j :: 0 <= j < |ops| && ops[j].Submit? && ops[j].key == k
    ensures ReplaysEarlier(ops + [op])
    ensures forall k :: k in keys ==> exists j :: 0 <= j < |ops + [op]| && (ops + [op])[j].Submit? && (ops + [op])[j].key == k
  {
    var after := ops + [op];
    forall i | 0 <= i < |after| && after[i].Duplicate?
      ensures exists j :: 0 <= j < i && after[j].Submit? && after[j].key == after[i].key
    {
      var j :| 0 <= j < i && ops[j].Submit? && ops[j].key == after[i].key;
      assert after[j] == ops[j];
    }
    forall k | k in keys ensures exists j :: 0 <= j < |after| && after[j].Submit? && after[j].key == k {
      if op.Submit? && op.key == k {
        assert after[|ops|] == op;
      } else {
        var j :| 0 <= j < |ops| && ops[j].Submit? && ops[j].key == k;
        assert after[j] == ops[j];
      }
    }
  }

  function Modulo(x: nat, n: nat): (r: nat)
    requires n > 0
    ensures r < n && r <= x
  {
    assert x < n ==> x % n == x;
    x % n
  }

  lemma NextDiffers(x: nat, n: nat)
    requires x < n
    ensures Modulo(x + 1, n) != x <==> n >= 2
  {
    assert x + 1 < n ==> (x + 1) % n == x + 1;
    assert n % n == 0;
  }

  /** A transfer of 1 to 500 between accounts in range, two different ones when there are two. */
  method DrawTransfer(r: Lcg, seed: u64, accounts: u64, i: nat) returns (op: Op)
    requires accounts >= 1
    modifies r
    ensures r.state == Stepped(old(r.state), 3)
    ensures op == TransferOf(old(r.state), seed, accounts, i)
    ensures op.Submit? && op.key == TransferKey(seed, i) && op.cur == 840 && 1 <= op.amt <= 500
    ensures op.from < accounts && op.to < accounts && (op.from != op.to <==> accounts >= 2)
  {
    hide LcgStep, Stepped, Drawn, Modulo, TransferKey;
    ghost var s := r.state;
    var from := r.Next();
    from := Modulo(from, accounts);
    StepsAdd(s, 1, 1);
    var to := r.Next();
    to := Modulo(to, accounts);
    if to == from {
      NextDiffers(to, accounts);
      to := Modulo(to + 1, accounts);
    }
    StepsAdd(s, 2, 1);
    var x := r.Next();
    op := Submit(TransferKey(seed, i), from, to, 840, 1 + Modulo(x, 500));
  }

  /** A read of an account in range at one of the sealed epochs. */
  method DrawRead(r: Lcg, accounts: u64, epochs: nat) returns (op: Op)
    requires accounts >= 1 && epochs >= 1
    modifies r
    ensures r.state == Stepped(old(r.state), 2)
    ensures op == ReadOf(old(r.state), accounts, epochs)
    ensures op.Read? && op.acct < accounts && op.cur == 840 && op.anchor < epochs
  {
    hide LcgStep, Stepped, Drawn, Modulo;
    StepsAdd(r.state, 1, 1);
    var acct := r.Next();
    acct := Modulo(acct, accounts);
    var anchor := r.Next();
    op := Read(acct, 840, Modulo(anchor, epochs));
  }

  /** The state a generator starts from. */
  function Seeded(seed: u64): u64 {
    (seed * 0x9E37_79B9_7F4A_7C15 + 1) % 0x1_0000_0000_0000_0000
  }

  lemma NextTurn(p: Progress, seed: u64, accounts: u64, i: nat, pick: nat, r: Progress)
    requires accounts >= 1 && p.epochs >= 1 && p == Turns(seed, accounts, i)
    requires pick == Modulo(Drawn(p.state, 1), 100) && r == Turned(p, seed, accounts, i, pick, Stepped(p.state, 1))
    ensures r == Turns(seed, accounts, i + 1)
  {
    hide Modulo, Drawn, Stepped, Turned;
  }

  /** **Every generated schedule is valid for the oracle**, whatever the hash, seed and length. */
  method Generate(ghost hash: Hash, seed: u64, accounts: u64, len: nat) returns (s: Schedule)
    requires accounts >= 1
    ensures s.seed == seed && s.ops == Turns(seed, accounts, len).ops
    ensures 0 < |s.ops| <= len + 1 && s.ops[0] == Open(accounts, 840, 1_000_000)
    ensures ProperFrom(hash, INIT, s.ops) && ReplaysEarlier(s.ops)
  {
    hide Generated, LcgStep, Stepped, Drawn, Modulo, TransferOf, ReadOf, TransferKey, Turn;
    hide ProperFrom, ReplaysEarlier, AllRepresentable, ExecAll;
    var r := new Lcg(Seeded(seed));
    GeneratedOpen(hash, seed, accounts, 840);
    var ops := [Open(accounts, 840, 1_000_000)];
    var epochs: nat := 1;
    var keys: seq<Key> := [];
    for i := 0 to len
      invariant Generated(hash, seed, ops, keys, epochs, i)
      invariant Progress(ops, keys, epochs, r.state) == Turns(seed, accounts, i)
      invariant 0 < |ops| <= i + 1 && ops[0] == Open(accounts, 840, 1_000_000) && epochs >= 1
      invariant fresh(r)
    {
      hide Turns;
      ghost var p := Progress(ops, keys, epochs, r.state);
      var pick := r.Next();
      pick := Modulo(pick, 100);
      if pick < 45 {
        var op := DrawTransfer(r, seed, accounts, i);
        GeneratedTransfer(hash, seed, ops, keys, epochs, i, op);
        keys := keys + [op.key];
        ops := ops + [op];
        epochs := epochs + 1;
      } else if pick < 85 {
        var op := DrawRead(r, accounts, epochs);
        GeneratedQuiet(hash, seed, ops, keys, epochs, i, op);
        ops := ops + [op];
      } else if pick < 92 {
        GeneratedQuiet(hash, seed, ops, keys, epochs, i, Evict);
        ops := ops + [Evict];
      } else if pick < 97 {
        var x := r.Next();
        var k := Modulo(x, if |keys| > 0 then |keys| else 1);
        if k < |keys| {
          GeneratedQuiet(hash, seed, ops, keys, epochs, i, Op.Duplicate(keys[k]));
          ops := ops + [Op.Duplicate(keys[k])];
        } else {
          GeneratedNothing(hash, seed, ops, keys, epochs, i);
        }
      } else {
        GeneratedQuiet(hash, seed, ops, keys, epochs, i, Crash);
        ops := ops + [Crash];
      }
      NextTurn(p, seed, accounts, i, pick, Progress(ops, keys, epochs, r.state));
    }
    GeneratedIsProper(hash, seed, ops, keys, epochs, len);
    s := Schedule(seed, ops);
  }

  lemma GeneratedIsProper(hash: Hash, seed: u64, ops: seq<Op>, keys: seq<Key>, epochs: nat, i: nat)
    requires Generated(hash, seed, ops, keys, epochs, i)
    ensures ProperFrom(hash, INIT, ops) && ReplaysEarlier(ops)
  {
  }

  lemma GeneratedNothing(hash: Hash, seed: u64, ops: seq<Op>, keys: seq<Key>, epochs: nat, i: nat)
    requires Generated(hash, seed, ops, keys, epochs, i)
    ensures Generated(hash, seed, ops, keys, epochs, i + 1)
  {
    forall k | k in keys ensures exists j: nat :: j < i + 1 && k == TransferKey(seed, j) {
      var j: nat :| j < i && k == TransferKey(seed, j);
    }
  }
}
