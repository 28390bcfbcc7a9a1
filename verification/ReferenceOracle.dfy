/** The reference oracle: an append-only history with a commit rule, holds and folds. */
module ReferenceOracle {
  import opened Prelude
  import opened Chain

  type Key = string

  datatype Reject = Duplicate | Unbalanced | BadResolution

  /** The oracle's fields. */
  datatype State = State(epochs: seq<EpochRec>, idem: set<Key>)

  const INIT := State([], {})

  // ---------- Folds ----------

  function RowsOf(epochs: seq<EpochRec>): seq<Row> {
    if epochs == [] then [] else RowsOf(epochs[..|epochs| - 1]) + epochs[|epochs| - 1].rows
  }

  /** How many epochs an anchor covers; the greatest anchor covers everything. */
  function Covered(epochs: seq<EpochRec>, anchor: u64): (n: nat)
    ensures n <= |epochs|
  {
    if anchor + 1 < |epochs| then anchor + 1 else |epochs|
  }

  function RowsUpto(epochs: seq<EpochRec>, anchor: u64): seq<Row> {
    RowsOf(epochs[..Covered(epochs, anchor)])
  }

  function One(r: Row, admits: Posting -> bool): int {
    if r.Post? && admits(r.posting) then r.posting.amt else 0
  }

  /** The sum of the postings a test admits. */
  function Amount(rows: seq<Row>, admits: Posting -> bool): int {
    if rows == [] then 0 else One(rows[0], admits) + Amount(rows[1..], admits)
  }

  function OfAccount(a: u64, c: u32): Posting -> bool { (p: Posting) => p.acct == a && p.cur == c }
  function OfCurrency(c: u32): Posting -> bool { (p: Posting) => p.cur == c }
  function OfGroup(t: u64, c: u32): Posting -> bool { (p: Posting) => p.txn == t && p.cur == c }
  function Believed(a: u64, c: u32, validUpto: i64): Posting -> bool {
    (p: Posting) => p.acct == a && p.cur == c && p.valid <= validUpto
  }

  /** The total of the holds on one account and currency, other than those resolved. */
  function Held(rows: seq<Row>, a: u64, c: u32, resolved: set<u64>): int {
    if rows == [] then 0
    else (if rows[0].Hold? && rows[0].acct == a && rows[0].cur == c && rows[0].id !in resolved
          then rows[0].amount else 0)
         + Held(rows[1..], a, c, resolved)
  }

  function ResolvedIn(rows: seq<Row>): (s: set<u64>)
    ensures forall h :: h in s <==> exists i :: 0 <= i < |rows| && rows[i].Resolve? && rows[i].hold == h
  {
    set i | 0 <= i < |rows| && rows[i].Resolve? :: rows[i].hold
  }

  function LedgerBalance(epochs: seq<EpochRec>, a: u64, c: u32, anchor: u64): int {
    Amount(RowsUpto(epochs, anchor), OfAccount(a, c))
  }

  function UnresolvedHolds(epochs: seq<EpochRec>, a: u64, c: u32, anchor: u64): int {
    var rows := RowsUpto(epochs, anchor);
    Held(rows, a, c, ResolvedIn(rows))
  }

  function AvailableBalance(epochs: seq<EpochRec>, a: u64, c: u32, anchor: u64): int {
    LedgerBalance(epochs, a, c, anchor) - UnresolvedHolds(epochs, a, c, anchor)
  }

  function Bitemporal(epochs: seq<EpochRec>, a: u64, c: u32, sys: u64, validUpto: i64): int {
    Amount(RowsUpto(epochs, sys), Believed(a, c, validUpto))
  }

  lemma {:induction false} AmountAppend(s: seq<Row>, t: seq<Row>, admits: Posting -> bool)
    ensures Amount(s + t, admits) == Amount(s, admits) + Amount(t, admits)
  {
    if s == [] {
      assert s + t == t;
    } else {
      assert (s + t)[1..] == s[1..] + t;
      AmountAppend(s[1..], t, admits);
    }
  }

  lemma AmountSnoc(rows: seq<Row>, i: nat, admits: Posting -> bool)
    requires i < |rows|
    ensures Amount(rows[..i + 1], admits) == Amount(rows[..i], admits) + One(rows[i], admits)
  {
    AmountAppend(rows[..i], [rows[i]], admits);
    assert rows[..i + 1] == rows[..i] + [rows[i]] && [rows[i]][1..] == [];
  }

  /** Disjoint tests add up. */
  lemma {:induction false} AmountSplit(
    rows: seq<Row>, all: Posting -> bool, one: Posting -> bool, other: Posting -> bool)
    requires forall i :: 0 <= i < |rows| && rows[i].Post? ==>
      (all(rows[i].posting) <==> one(rows[i].posting) || other(rows[i].posting))
      && !(one(rows[i].posting) && other(rows[i].posting))
    ensures Amount(rows, all) == Amount(rows, one) + Amount(rows, other)
  {
    if rows != [] {
      AmountSplit(rows[1..], all, one, other);
    }
  }

  lemma {:induction false} AmountNone(rows: seq<Row>, admits: Posting -> bool)
    requires forall i :: 0 <= i < |rows| && rows[i].Post? ==> !admits(rows[i].posting)
    ensures Amount(rows, admits) == 0
  {
    if rows != [] {
      AmountNone(rows[1..], admits);
    }
  }

  lemma {:induction false} AmountSame(rows: seq<Row>, one: Posting -> bool, other: Posting -> bool)
    requires forall i :: 0 <= i < |rows| && rows[i].Post? ==> one(rows[i].posting) == other(rows[i].posting)
    ensures Amount(rows, one) == Amount(rows, other)
  {
    if rows != [] {
      AmountSame(rows[1..], one, other);
    }
  }

  // ---------- The commit rule ----------

  function GroupSum(rows: seq<Row>, t: u64, c: u32): int {
    Amount(rows, OfGroup(t, c))
  }

  function CurrencySum(rows: seq<Row>, c: u32): int {
    Amount(rows, OfCurrency(c))
  }

  /** Every (transaction, currency) group sums to zero. */
  ghost predicate Balanced(rows: seq<Row>) {
    forall t: u64, c: u32 :: GroupSum(rows, t, c) == 0
  }

  predicate HoldExists(epochs: seq<EpochRec>, id: u64) {
    var rows := RowsOf(epochs);
    exists i :: 0 <= i < |rows| && rows[i].Hold? && rows[i].id == id
  }

  predicate IsResolved(epochs: seq<EpochRec>, id: u64) {
    id in ResolvedIn(RowsOf(epochs))
  }

  /** Row `r` may follow `epochs`: a resolution names a hold that exists and is not resolved. */
  predicate MayFollow(epochs: seq<EpochRec>, r: Row) {
    r.Resolve? ==> HoldExists(epochs, r.hold) && !IsResolved(epochs, r.hold)
  }

  ghost predicate ResolvesProperly(epochs: seq<EpochRec>, rows: seq<Row>) {
    forall i :: 0 <= i < |rows| ==> MayFollow(epochs, rows[i])
  }

  function NextEpoch(hash: Hash, epochs: seq<EpochRec>, rows: seq<Row>): EpochRec {
    EpochRec(|epochs|, Tip(epochs), hash(Preimage(Tip(epochs), rows)), rows)
  }

  /** Admission: idempotency, then the commit rule, then the holds, then seal. */
  ghost function Admit(hash: Hash, s: State, key: Key, rows: seq<Row>): (State, Result<nat, Reject>) {
    if key in s.idem then (s, Err(Duplicate))
    else if !Balanced(rows) then (s, Err(Unbalanced))
    else if !ResolvesProperly(s.epochs, rows) then (s, Err(BadResolution))
    else (State(s.epochs + [NextEpoch(hash, s.epochs, rows)], s.idem + {key}), Ok(|s.epochs|))
  }

  // ---------- Conservation ----------

  function OfTxns(ts: set<u64>, c: u32): Posting -> bool { (p: Posting) => p.txn in ts && p.cur == c }

  /** Zero per group is zero over any set of transactions. */
  lemma {:induction false} GroupsCancel(rows: seq<Row>, ts: set<u64>, c: u32)
    requires Balanced(rows)
    ensures Amount(rows, OfTxns(ts, c)) == 0
  {
    if ts == {} {
      AmountNone(rows, OfTxns(ts, c));
    } else {
      var t :| t in ts;
      GroupsCancel(rows, ts - {t}, c);
      assert GroupSum(rows, t, c) == 0;
      AmountSplit(rows, OfTxns(ts, c), OfGroup(t, c), OfTxns(ts - {t}, c));
    }
  }

  /** **The commit rule, regrouped**: a batch balanced per transaction and currency is balanced per
      currency. */
  lemma BalancedConserves(rows: seq<Row>, c: u32)
    requires Balanced(rows)
    ensures CurrencySum(rows, c) == 0
  {
    var ts := set i | 0 <= i < |rows| && rows[i].Post? :: rows[i].posting.txn;
    GroupsCancel(rows, ts, c);
    AmountSame(rows, OfCurrency(c), OfTxns(ts, c));
  }

  lemma {:induction false} EpochsConserve(epochs: seq<EpochRec>, c: u32)
    requires forall i :: 0 <= i < |epochs| ==> Balanced(epochs[i].rows)
    ensures CurrencySum(RowsOf(epochs), c) == 0
  {
    if epochs != [] {
      var n := |epochs| - 1;
      EpochsConserve(epochs[..n], c);
      BalancedConserves(epochs[n].rows, c);
      AmountAppend(RowsOf(epochs[..n]), epochs[n].rows, OfCurrency(c));
    }
  }

  function OfAccounts(accts: set<u64>, c: u32): Posting -> bool { (p: Posting) => p.acct in accts && p.cur == c }

  ghost function BalancesOf(epochs: seq<EpochRec>, accts: set<u64>, c: u32, anchor: u64): map<u64, int> {
    map a | a in accts :: LedgerBalance(epochs, a, c, anchor)
  }

  /** The ledger balances of `accts`, added up. */
  ghost function TotalBalance(epochs: seq<EpochRec>, accts: set<u64>, c: u32, anchor: u64): int {
    SumOver(accts, BalancesOf(epochs, accts, c, anchor))
  }

  lemma {:induction false} TotalIsFold(epochs: seq<EpochRec>, accts: set<u64>, c: u32, anchor: u64)
    ensures TotalBalance(epochs, accts, c, anchor) == Amount(RowsUpto(epochs, anchor), OfAccounts(accts, c))
  {
    var rows := RowsUpto(epochs, anchor);
    if accts == {} {
      AmountNone(rows, OfAccounts(accts, c));
    } else {
      var a :| a in accts;
      var rest := accts - {a};
      TotalIsFold(epochs, rest, c, anchor);
      var all, fewer := BalancesOf(epochs, accts, c, anchor), BalancesOf(epochs, rest, c, anchor);
      SumOverTake(accts, all, a);
      SumOverSame(rest, all, fewer);
      AmountSplit(rows, OfAccounts(accts, c), OfAccount(a, c), OfAccounts(rest, c));
    }
  }

  // ---------- Runs ----------

  datatype Command = Command(key: Key, rows: seq<Row>)

  /** Submit a sequence of batches to a fresh oracle. */
  ghost function Run(hash: Hash, cmds: seq<Command>): State {
    if cmds == [] then INIT
    else
      var last := cmds[|cmds| - 1];
      Admit(hash, Run(hash, cmds[..|cmds| - 1]), last.key, last.rows).0
  }

  /** What every epoch satisfies, given those before it. */
  ghost predicate SoundAt(epochs: seq<EpochRec>, i: nat)
    requires i < |epochs|
  {
    epochs[i].id == i && Balanced(epochs[i].rows) && ResolvesProperly(epochs[..i], epochs[i].rows)
  }

  ghost predicate Sound(hash: Hash, s: State) {
    && IsChain(hash, s.epochs)
    && (forall i :: 0 <= i < |s.epochs| ==> SoundAt(s.epochs, i))
    && |s.idem| == |s.epochs|
  }

  lemma AdmitKeepsSound(hash: Hash, s: State, key: Key, rows: seq<Row>)
    requires Sound(hash, s)
    ensures Sound(hash, Admit(hash, s, key, rows).0)
  {
    var (t, r) := Admit(hash, s, key, rows);
    if r.Ok? {
      var e := NextEpoch(hash, s.epochs, rows);
      ChainSnoc(hash, s.epochs, e);
      forall i | 0 <= i < |t.epochs| ensures SoundAt(t.epochs, i) {
        assert t.epochs[..i] == s.epochs[..i];
        assert i < |s.epochs| ==> SoundAt(s.epochs, i);
        assert s.epochs[..|s.epochs|] == s.epochs;
      }
    }
  }

  /** **Every state a run reaches is sound**: the chain verifies, epochs are numbered by position,
      each epoch balances and resolves only open earlier holds, and each used up one fresh key. */
  lemma {:induction false} RunsAreSound(hash: Hash, cmds: seq<Command>)
    ensures Sound(hash, Run(hash, cmds))
  {
    if cmds == [] {
      assert INIT.idem == {};
    } else {
      var n := |cmds| - 1;
      RunsAreSound(hash, cmds[..n]);
      AdmitKeepsSound(hash, Run(hash, cmds[..n]), cmds[n].key, cmds[n].rows);
    }
  }

  /** **Conservation over every run**: at every anchor each currency's postings sum to zero, and so do
      the ledger balances of any accounts that include every account posted to. */
  lemma RunsConserve(hash: Hash, cmds: seq<Command>, anchor: u64, c: u32, accts: set<u64>)
    requires forall r :: r in RowsUpto(Run(hash, cmds).epochs, anchor) && r.Post? && r.posting.cur == c ==>
      r.posting.acct in accts
    ensures CurrencySum(RowsUpto(Run(hash, cmds).epochs, anchor), c) == 0
    ensures TotalBalance(Run(hash, cmds).epochs, accts, c, anchor) == 0
  {
    var epochs := Run(hash, cmds).epochs;
    var rows := RowsUpto(epochs, anchor);
    RunsAreSound(hash, cmds);
    var sealed := epochs[..Covered(epochs, anchor)];
    forall i | 0 <= i < |sealed| ensures Balanced(sealed[i].rows) {
      assert SoundAt(epochs, i);
    }
    EpochsConserve(sealed, c);
    TotalIsFold(epochs, accts, c, anchor);
    forall i | 0 <= i < |rows| && rows[i].Post?
      ensures OfAccounts(accts, c)(rows[i].posting) == OfCurrency(c)(rows[i].posting)
    {
      assert rows[i] in rows;
    }
    AmountSame(rows, OfAccounts(accts, c), OfCurrency(c));
  }

  // ---------- Frozen answers ----------

  lemma {:induction false} HistoryOnlyGrows(hash: Hash, cmds: seq<Command>, more: seq<Command>)
    ensures Run(hash, cmds).epochs <= Run(hash, cmds + more).epochs
    ensures Run(hash, cmds).idem <= Run(hash, cmds + more).idem
  {
    if more == [] {
      assert cmds + more == cmds;
    } else {
      var n := |more| - 1;
      HistoryOnlyGrows(hash, cmds, more[..n]);
      assert (cmds + more)[..|cmds + more| - 1] == cmds + more[..n];
    }
  }

  /** **An answer at a sealed anchor never changes**, however the run goes on. */
  lemma SealedAnswersAreFrozen(
    hash: Hash, cmds: seq<Command>, more: seq<Command>, a: u64, c: u32, anchor: u64, validUpto: i64)
    requires anchor < |Run(hash, cmds).epochs|
    ensures var before, after := Run(hash, cmds).epochs, Run(hash, cmds + more).epochs;
            && LedgerBalance(after, a, c, anchor) == LedgerBalance(before, a, c, anchor)
            && UnresolvedHolds(after, a, c, anchor) == UnresolvedHolds(before, a, c, anchor)
            && AvailableBalance(after, a, c, anchor) == AvailableBalance(before, a, c, anchor)
            && Bitemporal(after, a, c, anchor, validUpto) == Bitemporal(before, a, c, anchor, validUpto)
  {
    HistoryOnlyGrows(hash, cmds, more);
    var before, after := Run(hash, cmds).epochs, Run(hash, cmds + more).epochs;
    assert before[..Covered(before, anchor)] == after[..Covered(after, anchor)];
  }

  /** A key admitted once is refused for the rest of the run, whatever it carries. */
  lemma AdmittedKeysAreSpent(hash: Hash, cmds: seq<Command>, more: seq<Command>, key: Key, rows: seq<Row>)
    requires key in Run(hash, cmds).idem
    ensures Admit(hash, Run(hash, cmds + more), key, rows) == (Run(hash, cmds + more), Err(Duplicate))
  {
    HistoryOnlyGrows(hash, cmds, more);
  }

  // ---------- The life of a hold ----------

  lemma {:induction false} RowsOfHas(epochs: seq<EpochRec>, r: Row)
    ensures r in RowsOf(epochs) <==> exists i :: 0 <= i < |epochs| && r in epochs[i].rows
  {
    if epochs != [] {
      var n := |epochs| - 1;
      RowsOfHas(epochs[..n], r);
      if r in RowsOf(epochs[..n]) {
        var i :| 0 <= i < |epochs[..n]| && r in epochs[..n][i].rows;
        assert r in epochs[i].rows;
      }
      if i :| 0 <= i < |epochs| && r in epochs[i].rows && i < n {
        assert r in epochs[..n][i].rows;
      }
    }
  }

  ghost predicate Places(e: EpochRec, h: u64) {
    exists r :: r in e.rows && r.Hold? && r.id == h
  }

  ghost predicate Resolves(e: EpochRec, h: u64) {
    exists r :: r in e.rows && r.Resolve? && r.hold == h
  }

  lemma ExistsMeansPlaced(epochs: seq<EpochRec>, h: u64)
    ensures HoldExists(epochs, h) <==> exists j :: 0 <= j < |epochs| && Places(epochs[j], h)
  {
    var rows := RowsOf(epochs);
    if i :| 0 <= i < |rows| && rows[i].Hold? && rows[i].id == h {
      RowsOfHas(epochs, rows[i]);
      var j :| 0 <= j < |epochs| && rows[i] in epochs[j].rows;
      assert Places(epochs[j], h);
    }
    if j :| 0 <= j < |epochs| && Places(epochs[j], h) {
      var r :| r in epochs[j].rows && r.Hold? && r.id == h;
      RowsOfHas(epochs, r);
      var i :| 0 <= i < |rows| && rows[i] == r;
    }
  }

  lemma ResolvedMeansOnce(epochs: seq<EpochRec>, h: u64)
    ensures IsResolved(epochs, h) <==> exists j :: 0 <= j < |epochs| && Resolves(epochs[j], h)
  {
    var rows := RowsOf(epochs);
    if IsResolved(epochs, h) {
      var i :| 0 <= i < |rows| && rows[i].Resolve? && rows[i].hold == h;
      RowsOfHas(epochs, rows[i]);
      var j :| 0 <= j < |epochs| && rows[i] in epochs[j].rows;
      assert Resolves(epochs[j], h);
    }
    if j :| 0 <= j < |epochs| && Resolves(epochs[j], h) {
      var r :| r in epochs[j].rows && r.Resolve? && r.hold == h;
      RowsOfHas(epochs, r);
      var i :| 0 <= i < |rows| && rows[i] == r;
    }
  }

  /** **A hold is placed before it is resolved, and resolved in one epoch at most.** */
  lemma HoldLifecycle(hash: Hash, cmds: seq<Command>, i: nat, h: u64)
    requires i < |Run(hash, cmds).epochs| && Resolves(Run(hash, cmds).epochs[i], h)
    ensures exists j :: 0 <= j < i && Places(Run(hash, cmds).epochs[j], h)
    ensures forall k :: 0 <= k < |Run(hash, cmds).epochs| && Resolves(Run(hash, cmds).epochs[k], h) ==> k == i
  {
    var epochs := Run(hash, cmds).epochs;
    RunsAreSound(hash, cmds);
    ResolvedFromOpen(epochs, i, h);
    ExistsMeansPlaced(epochs[..i], h);
    var j :| 0 <= j < |epochs[..i]| && Places(epochs[..i][j], h);
    assert Places(epochs[j], h);
    forall k | 0 <= k < |epochs| && Resolves(epochs[k], h) ensures k == i {
      if k < i {
        ResolvedOnceIsClosed(epochs, k, i, h);
      } else if i < k {
        ResolvedOnceIsClosed(epochs, i, k, h);
      }
    }
  }

  lemma ResolvedOnceIsClosed(epochs: seq<EpochRec>, first: nat, second: nat, h: u64)
    requires first < second < |epochs| && SoundAt(epochs, second) && Resolves(epochs[first], h)
    ensures !Resolves(epochs[second], h)
  {
    assert Resolves(epochs[..second][first], h);
    ResolvedMeansOnce(epochs[..second], h);
    if Resolves(epochs[second], h) {
      ResolvedFromOpen(epochs, second, h);
    }
  }

  lemma ResolvedFromOpen(epochs: seq<EpochRec>, i: nat, h: u64)
    requires i < |epochs| && SoundAt(epochs, i) && Resolves(epochs[i], h)
    ensures HoldExists(epochs[..i], h) && !IsResolved(epochs[..i], h)
  {
    var r :| r in epochs[i].rows && r.Resolve? && r.hold == h;
    var k :| 0 <= k < |epochs[i].rows| && epochs[i].rows[k] == r;
    assert MayFollow(epochs[..i], epochs[i].rows[k]);
  }

  function Resolutions(rows: seq<Row>, h: u64): nat {
    if rows == [] then 0
    else (if rows[0].Resolve? && rows[0].hold == h then 1 else 0) + Resolutions(rows[1..], h)
  }

  lemma {:induction false} ResolutionsAppend(s: seq<Row>, t: seq<Row>, h: u64)
    ensures Resolutions(s + t, h) == Resolutions(s, h) + Resolutions(t, h)
  {
    if s == [] {
      assert s + t == t;
    } else {
      assert (s + t)[1..] == s[1..] + t;
      ResolutionsAppend(s[1..], t, h);
    }
  }

  lemma {:induction false} SomeResolution(rows: seq<Row>, h: u64)
    ensures Resolutions(rows, h) > 0 <==> h in ResolvedIn(rows)
  {
    if rows != [] {
      SomeResolution(rows[1..], h);
      if i :| 0 <= i < |rows| && rows[i].Resolve? && rows[i].hold == h && i > 0 {
        assert rows[1..][i - 1] == rows[i];
      }
      if i :| 0 <= i < |rows[1..]| && rows[1..][i].Resolve? && rows[1..][i].hold == h {
        assert rows[i + 1] == rows[1..][i];
      }
    }
  }

  lemma {:induction false} ResolutionsOfEpochs(epochs: seq<EpochRec>, h: u64)
    requires forall i :: 0 <= i < |epochs| ==> SoundAt(epochs, i)
    ensures Resolutions(RowsOf(epochs), h) <= 1 <==>
      forall i :: 0 <= i < |epochs| ==> Resolutions(epochs[i].rows, h) <= 1
  {
    if epochs != [] {
      var n := |epochs| - 1;
      var before, last := epochs[..n], epochs[n];
      forall i | 0 <= i < n ensures SoundAt(before, i) {
        assert SoundAt(epochs, i) && before[..i] == epochs[..i];
      }
      ResolutionsOfEpochs(before, h);
      ResolutionsAppend(RowsOf(before), last.rows, h);
      SomeResolution(last.rows, h);
      SomeResolution(RowsOf(before), h);
      assert forall i :: 0 <= i < n ==> epochs[i] == before[i];
      if Resolutions(last.rows, h) > 0 {
        assert Resolves(last, h);
        ResolvedFromOpen(epochs, n, h);
        assert Resolutions(RowsOf(before), h) == 0;
      }
    }
  }

  /** **Exactly when a hold is resolved once.** The rule looks only at earlier epochs, so a hold is
      resolved at most once over a run if and only if no single batch resolves it twice. */
  lemma ResolvedOnceExactlyWhen(hash: Hash, cmds: seq<Command>, h: u64)
    ensures Resolutions(RowsOf(Run(hash, cmds).epochs), h) <= 1 <==>
      forall i :: 0 <= i < |Run(hash, cmds).epochs| ==> Resolutions(Run(hash, cmds).epochs[i].rows, h) <= 1
  {
    RunsAreSound(hash, cmds);
    ResolutionsOfEpochs(Run(hash, cmds).epochs, h);
  }

  /** The other side of that condition: a batch that resolves an open hold twice is admitted. */
  lemma OneBatchMayResolveTwice(hash: Hash, s: State, key: Key, h: u64, one: Outcome, two: Outcome, valid: i64)
    requires key !in s.idem && HoldExists(s.epochs, h) && !IsResolved(s.epochs, h)
    ensures var (t, r) := Admit(hash, s, key, [Resolve(h, one, valid), Resolve(h, two, valid)]);
            r.Ok? && Resolutions(RowsOf(t.epochs), h) == 2
  {
    hide Balanced, HoldExists, IsResolved, Preimage, Tip;
    var rows := [Resolve(h, one, valid), Resolve(h, two, valid)];
    NoPostingsBalance(rows);
    OpenMeansUnresolved(s.epochs, h);
    var e := NextEpoch(hash, s.epochs, rows);
    assert RowsOf(s.epochs + [e]) == RowsOf(s.epochs) + rows by {
      assert (s.epochs + [e])[..|s.epochs|] == s.epochs;
    }
    ResolutionsAppend(RowsOf(s.epochs), rows, h);
    TwoResolutions(rows, h);
  }

  lemma TwoResolutions(rows: seq<Row>, h: u64)
    requires |rows| == 2 && forall i :: 0 <= i < 2 ==> rows[i].Resolve? && rows[i].hold == h
    ensures Resolutions(rows, h) == 2
  {
    assert rows[1..][0] == rows[1] && rows[1..][1..] == [];
    assert Resolutions(rows[1..], h) == 1 + Resolutions([], h);
  }

  lemma OpenMeansUnresolved(epochs: seq<EpochRec>, h: u64)
    requires !IsResolved(epochs, h)
    ensures Resolutions(RowsOf(epochs), h) == 0
  {
    SomeResolution(RowsOf(epochs), h);
  }

  lemma RunSnoc(hash: Hash, cmds: seq<Command>, cmd: Command)
    ensures Run(hash, cmds + [cmd]) == Admit(hash, Run(hash, cmds), cmd.key, cmd.rows).0
  {
    assert (cmds + [cmd])[..|cmds|] == cmds;
  }

  lemma NoPostingsBalance(rows: seq<Row>)
    requires forall i :: 0 <= i < |rows| ==> !rows[i].Post?
    ensures Balanced(rows)
  {
    forall t: u64, c: u32 ensures GroupSum(rows, t, c) == 0 {
      AmountNone(rows, OfGroup(t, c));
    }
  }

  // ---------- The object ----------

  class Oracle {
    const hash: Hash
    var epochs: seq<EpochRec>
    var idem: set<Key>

    ghost function View(): State
      reads this
    {
      State(epochs, idem)
    }

    /** A state some run reaches. */
    ghost predicate Valid()
      reads this
    {
      exists cmds :: View() == Run(hash, cmds)
    }

    constructor (hash: Hash)
      ensures this.hash == hash && View() == INIT && Valid()
    {
      this.hash, epochs, idem := hash, [], {};
      new;
      assert View() == Run(hash, []);
    }

    /** Submit a batch: the new state and the answer are those of `Admit`. */
    method Submit(key: Key, rows: seq<Row>) returns (r: Result<nat, Reject>)
      modifies this
      ensures (View(), r) == Admit(hash, old(View()), key, rows)
      ensures old(Valid()) ==> Valid()
    {
      ghost var before := View();
      if key in idem {
        Reached(key, rows);
        return Err(Duplicate);
      }
      var sums := GroupSums(rows);
      if exists g :: g in sums && sums[g] != 0 {
        ghost var g :| g in sums && sums[g] != 0;
        assert GroupSum(rows, g.0, g.1) != 0;
        Reached(key, rows);
        return Err(Unbalanced);
      }
      assert Balanced(rows);
      for i := 0 to |rows|
        invariant forall j :: 0 <= j < i ==> MayFollow(epochs, rows[j])
      {
        if rows[i].Resolve? && (!HoldExists(epochs, rows[i].hold) || IsResolved(epochs, rows[i].hold)) {
          assert !MayFollow(epochs, rows[i]);
          Reached(key, rows);
          return Err(BadResolution);
        }
      }
      Reached(key, rows);
      var parent := Tip(epochs);
      var digest := ChainHash(hash, parent, rows);
      var id := |epochs|;
      epochs := epochs + [EpochRec(id, parent, digest, rows)];
      idem := idem + {key};
      r := Ok(id);
    }

    /** One more submission extends the run that reached this state. */
    lemma Reached(key: Key, rows: seq<Row>)
      ensures Valid() ==> exists cmds :: Admit(hash, View(), key, rows).0 == Run(hash, cmds)
    {
      if cmds :| View() == Run(hash, cmds) {
        RunSnoc(hash, cmds, Command(key, rows));
      }
    }

    /** The global invariant, checked by one pass; on a reachable state it always holds. */
    method ConservationOk(anchor: u64) returns (ok: bool)
      ensures ok <==> forall c: u32 :: CurrencySum(RowsUpto(epochs, anchor), c) == 0
      ensures Valid() ==> ok
    {
      var rows := RowsUpto(epochs, anchor);
      var sums := CurrencySums(rows);
      ok := forall c :: c in sums ==> sums[c] == 0;
      forall c: u32 ensures ok ==> CurrencySum(rows, c) == 0 {
        assert c in sums || CurrencySum(rows, c) == 0;
      }
      if cmds :| View() == Run(hash, cmds) {
        var accts := set i | 0 <= i < |rows| && rows[i].Post? :: rows[i].posting.acct;
        forall c | c in sums ensures sums[c] == 0 {
          RunsConserve(hash, cmds, anchor, c, accts);
        }
      }
    }

    /** Recompute the chain forward; on a reachable state it always verifies. */
    method VerifyOwnChain() returns (ok: bool)
      ensures ok <==> IsChain(hash, epochs)
      ensures Valid() ==> ok
    {
      ok := VerifyChain(hash, epochs);
      if cmds :| View() == Run(hash, cmds) {
        RunsAreSound(hash, cmds);
      }
    }
  }

  /** The sum of every (transaction, currency) group that has a posting. */
  method GroupSums(rows: seq<Row>) returns (sums: map<(u64, u32), int>)
    ensures forall g :: g in sums ==> sums[g] == GroupSum(rows, g.0, g.1)
    ensures forall t: u64, c: u32 :: (t, c) !in sums ==> GroupSum(rows, t, c) == 0
  {
    sums := map[];
    for i := 0 to |rows|
      invariant forall g :: g in sums ==> sums[g] == GroupSum(rows[..i], g.0, g.1)
      invariant forall t: u64, c: u32 :: (t, c) !in sums ==> GroupSum(rows[..i], t, c) == 0
    {
      forall t: u64, c: u32
        ensures GroupSum(rows[..i + 1], t, c) == GroupSum(rows[..i], t, c) + One(rows[i], OfGroup(t, c))
      {
        AmountSnoc(rows, i, OfGroup(t, c));
      }
      if rows[i].Post? {
        var p := rows[i].posting;
        var g := (p.txn, p.cur);
        sums := sums[g := (if g in sums then sums[g] else 0) + p.amt];
      }
    }
    assert rows[..|rows|] == rows;
  }

  /** The sum of every currency that has a posting. */
  method CurrencySums(rows: seq<Row>) returns (sums: map<u32, int>)
    ensures forall c :: c in sums ==> sums[c] == CurrencySum(rows, c)
    ensures forall c: u32 :: c !in sums ==> CurrencySum(rows, c) == 0
  {
    sums := map[];
    for i := 0 to |rows|
      invariant forall c :: c in sums ==> sums[c] == CurrencySum(rows[..i], c)
      invariant forall c: u32 :: c !in sums ==> CurrencySum(rows[..i], c) == 0
    {
      forall c: u32
        ensures CurrencySum(rows[..i + 1], c) == CurrencySum(rows[..i], c) + One(rows[i], OfCurrency(c))
      {
        AmountSnoc(rows, i, OfCurrency(c));
      }
      if rows[i].Post? {
        var p := rows[i].posting;
        sums := sums[p.cur := (if p.cur in sums then sums[p.cur] else 0) + p.amt];
      }
    }
    assert rows[..|rows|] == rows;
  }
}
