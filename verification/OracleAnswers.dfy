/** What the reference oracle's answers and verdicts are, over the positions of the rows they cover. */
module OracleAnswers {
  import opened Prelude
  import opened Chain
  import opened ReferenceOracle

  // ---------- Sums over positions ----------

  function Folded(rows: seq<Row>, test: Row -> bool, weight: Row -> int): int {
    if rows == [] then 0
    else
      var last := rows[|rows| - 1];
      Folded(rows[..|rows| - 1], test, weight) + if test(last) then weight(last) else 0
  }

  ghost function Where(rows: seq<Row>, test: Row -> bool): set<nat> {
    set i: nat | i < |rows| && test(rows[i])
  }

  ghost function Weights(rows: seq<Row>, weight: Row -> int): map<nat, int> {
    map i: nat | i < |rows| :: weight(rows[i])
  }

  /** The weights of the rows a test picks, added up. */
  ghost function Total(rows: seq<Row>, test: Row -> bool, weight: Row -> int): int {
    SumOver(Where(rows, test), Weights(rows, weight))
  }

  lemma {:induction false} FoldedIsTotal(rows: seq<Row>, test: Row -> bool, weight: Row -> int)
    ensures Folded(rows, test, weight) == Total(rows, test, weight)
  {
    if rows == [] {
      assert Where(rows, test) == {};
    } else {
      var n: nat := |rows| - 1;
      var init := rows[..n];
      FoldedIsTotal(init, test, weight);
      var all, fewer := Weights(rows, weight), Weights(init, weight);
      SumOverSame(Where(init, test), all, fewer);
      if test(rows[n]) {
        SumOverTake(Where(rows, test), all, n);
        assert Where(rows, test) - {n} == Where(init, test);
      } else {
        assert Where(rows, test) == Where(init, test);
      }
    }
  }

  function Posted(r: Row): int {
    if r.Post? then r.posting.amt else 0
  }

  function Reserved(r: Row): int {
    if r.Hold? then r.amount else 0
  }

  lemma {:induction false} AmountIsTotal(rows: seq<Row>, admits: Posting -> bool, test: Row -> bool)
    requires forall r: Row :: test(r) <==> r.Post? && admits(r.posting)
    ensures Amount(rows, admits) == Total(rows, test, Posted)
  {
    if rows == [] {
      assert Where(rows, test) == {};
    } else {
      var n := |rows| - 1;
      AmountIsTotal(rows[..n], admits, test);
      AmountSnoc(rows, n, admits);
      assert rows[..n + 1] == rows;
      FoldedIsTotal(rows, test, Posted);
      FoldedIsTotal(rows[..n], test, Posted);
    }
  }

  lemma {:induction false} HeldSnoc(rows: seq<Row>, r: Row, a: u64, c: u32, resolved: set<u64>)
    ensures Held(rows + [r], a, c, resolved) == Held(rows, a, c, resolved) + Held([r], a, c, resolved)
  {
    if rows == [] {
      assert rows + [r] == [r];
    } else {
      assert (rows + [r])[1..] == rows[1..] + [r];
      HeldSnoc(rows[1..], r, a, c, resolved);
    }
  }

  lemma {:induction false} HeldIsTotal(rows: seq<Row>, a: u64, c: u32, resolved: set<u64>, test: Row -> bool)
    requires forall r: Row :: test(r) <==> r.Hold? && r.acct == a && r.cur == c && r.id !in resolved
    ensures Held(rows, a, c, resolved) == Total(rows, test, Reserved)
  {
    if rows == [] {
      assert Where(rows, test) == {};
    } else {
      var init, last := rows[..|rows| - 1], rows[|rows| - 1];
      HeldIsTotal(init, a, c, resolved, test);
      assert rows == init + [last] && [last][1..] == [];
      HeldSnoc(init, last, a, c, resolved);
      FoldedIsTotal(rows, test, Reserved);
      FoldedIsTotal(init, test, Reserved);
    }
  }

  // ---------- The answers ----------

  /** The rows an anchor covers: those of the epochs up to it, or of all when it is beyond the last. */
  ghost function CoveredRows(epochs: seq<EpochRec>, anchor: u64): seq<Row> {
    RowsOf(epochs[..if anchor < |epochs| then anchor + 1 else |epochs|])
  }

  ghost predicate ResolvedAmong(rows: seq<Row>, h: u64) {
    exists j :: 0 <= j < |rows| && rows[j].Resolve? && rows[j].hold == h
  }

  ghost function PostedTo(a: u64, c: u32): Row -> bool {
    (r: Row) => r.Post? && r.posting.acct == a && r.posting.cur == c
  }

  ghost function PostedBy(a: u64, c: u32, validUpto: i64): Row -> bool {
    (r: Row) => r.Post? && r.posting.acct == a && r.posting.cur == c && r.posting.valid <= validUpto
  }

  ghost function HoldOn(a: u64, c: u32): Row -> bool {
    (r: Row) => r.Hold? && r.acct == a && r.cur == c
  }

  /** A hold that no row among `rows` resolves. */
  ghost function OpenHold(rows: seq<Row>, a: u64, c: u32): Row -> bool {
    (r: Row) => r.Hold? && r.acct == a && r.cur == c && !ResolvedAmong(rows, r.id)
  }

  ghost function HoldNamed(h: u64, a: u64, c: u32): Row -> bool {
    (r: Row) => r.Hold? && r.acct == a && r.cur == c && r.id == h
  }

  /** **What each answer is**: the postings to the account and currency, those of them believed by a
      valid time, and the holds on it that no covered row resolves; what is available is the
      difference. */
  lemma AnswersAreTotals(epochs: seq<EpochRec>, a: u64, c: u32, anchor: u64, validUpto: i64)
    ensures var rows := CoveredRows(epochs, anchor);
      && LedgerBalance(epochs, a, c, anchor) == Total(rows, PostedTo(a, c), Posted)
      && Bitemporal(epochs, a, c, anchor, validUpto) == Total(rows, PostedBy(a, c, validUpto), Posted)
      && UnresolvedHolds(epochs, a, c, anchor) == Total(rows, OpenHold(rows, a, c), Reserved)
      && AvailableBalance(epochs, a, c, anchor)
           == Total(rows, PostedTo(a, c), Posted) - Total(rows, OpenHold(rows, a, c), Reserved)
  {
    var rows := CoveredRows(epochs, anchor);
    assert RowsUpto(epochs, anchor) == rows;
    AmountIsTotal(rows, OfAccount(a, c), PostedTo(a, c));
    AmountIsTotal(rows, Believed(a, c, validUpto), PostedBy(a, c, validUpto));
    HeldIsTotal(rows, a, c, ResolvedIn(rows), OpenHold(rows, a, c));
  }

  /** A currency conserves at an anchor when everything posted in it by then cancels. */
  lemma ConservationIsOverCurrencies(epochs: seq<EpochRec>, c: u32, anchor: u64)
    ensures CurrencySum(RowsUpto(epochs, anchor), c) == Total(CoveredRows(epochs, anchor), PostedIn(c), Posted)
  {
    assert RowsUpto(epochs, anchor) == CoveredRows(epochs, anchor);
    AmountIsTotal(CoveredRows(epochs, anchor), OfCurrency(c), PostedIn(c));
  }

  ghost function PostedIn(c: u32): Row -> bool {
    (r: Row) => r.Post? && r.posting.cur == c
  }

  /** With nothing resolved, every hold on the account is held. */
  lemma NothingResolved(epochs: seq<EpochRec>, a: u64, c: u32, anchor: u64)
    requires forall h: u64 :: !ResolvedAmong(CoveredRows(epochs, anchor), h)
    ensures UnresolvedHolds(epochs, a, c, anchor) == Total(CoveredRows(epochs, anchor), HoldOn(a, c), Reserved)
  {
    var rows := CoveredRows(epochs, anchor);
    AnswersAreTotals(epochs, a, c, anchor, 0);
    assert Where(rows, OpenHold(rows, a, c)) == Where(rows, HoldOn(a, c));
  }

  /** With every hold on the account resolved, nothing is held. */
  lemma EverythingResolved(epochs: seq<EpochRec>, a: u64, c: u32, anchor: u64)
    requires var rows := CoveredRows(epochs, anchor);
      forall i :: 0 <= i < |rows| && rows[i].Hold? && rows[i].acct == a && rows[i].cur == c ==>
        ResolvedAmong(rows, rows[i].id)
    ensures UnresolvedHolds(epochs, a, c, anchor) == 0
  {
    var rows := CoveredRows(epochs, anchor);
    AnswersAreTotals(epochs, a, c, anchor, 0);
    assert Where(rows, OpenHold(rows, a, c)) == {};
  }

  /** **Resolving a hold releases exactly that hold**: sealing an epoch that only resolves the open hold
      `h` lowers what is held by the amounts of `h` on that account and currency. */
  lemma ResolvingReleases(epochs: seq<EpochRec>, e: EpochRec, h: u64, a: u64, c: u32, anchor: u64)
    requires anchor == |epochs| && e.rows != [] && e.rows[0].Resolve? && e.rows == [e.rows[0]]
    requires e.rows[0].hold == h && !ResolvedAmong(RowsOf(epochs), h)
    ensures UnresolvedHolds(epochs + [e], a, c, anchor)
         == UnresolvedHolds(epochs, a, c, anchor) - Total(RowsOf(epochs), HoldNamed(h, a, c), Reserved)
  {
    assert (epochs + [e])[..anchor] == epochs && (epochs + [e])[..anchor + 1] == epochs + [e];
    assert epochs[..anchor] == epochs;
    AnswersAreTotals(epochs, a, c, anchor, 0);
    AnswersAreTotals(epochs + [e], a, c, anchor, 0);
    ResolvingReleasesRows(RowsOf(epochs), e.rows[0], a, c);
  }

  lemma ResolvingReleasesRows(before: seq<Row>, r: Row, a: u64, c: u32)
    requires r.Resolve? && !ResolvedAmong(before, r.hold)
    ensures Total(before + [r], OpenHold(before + [r], a, c), Reserved)
         == Total(before, OpenHold(before, a, c), Reserved) - Total(before, HoldNamed(r.hold, a, c), Reserved)
  {
    var after := before + [r];
    var open, still, named := Where(before, OpenHold(before, a, c)), Where(after, OpenHold(after, a, c)),
                              Where(before, HoldNamed(r.hold, a, c));
    assert after[|before|] == r && forall i: nat :: i < |before| ==> after[i] == before[i];
    forall g: u64 ensures ResolvedAmong(after, g) <==> ResolvedAmong(before, g) || g == r.hold {
      ResolvedSnoc(before, r, g);
    }
    assert still == open - named && named <= open;
    SumOverSplit(open, named, Weights(before, Reserved));
    SumOverSame(still, Weights(before, Reserved), Weights(after, Reserved));
  }

  lemma ResolvedSnoc(rows: seq<Row>, r: Row, g: u64)
    ensures ResolvedAmong(rows + [r], g) <==> ResolvedAmong(rows, g) || (r.Resolve? && r.hold == g)
  {
    var more := rows + [r];
    if ResolvedAmong(rows, g) {
      var j :| 0 <= j < |rows| && rows[j].Resolve? && rows[j].hold == g;
      assert more[j] == rows[j];
    }
    if r.Resolve? && r.hold == g {
      assert more[|rows|] == r;
    }
  }

  // ---------- The verdicts ----------

  ghost function InGroup(t: u64, c: u32): Row -> bool {
    (r: Row) => r.Post? && r.posting.txn == t && r.posting.cur == c
  }

  ghost predicate Conserves(rows: seq<Row>) {
    forall t: u64, c: u32 :: Total(rows, InGroup(t, c), Posted) == 0
  }

  /** Each resolution names a hold an earlier epoch placed and none resolved. */
  ghost predicate ResolvesOpenHolds(epochs: seq<EpochRec>, rows: seq<Row>) {
    forall i :: 0 <= i < |rows| && rows[i].Resolve? ==>
      && (exists j :: 0 <= j < |epochs| && Places(epochs[j], rows[i].hold))
      && (forall j :: 0 <= j < |epochs| ==> !Resolves(epochs[j], rows[i].hold))
  }

  /** **Which batches are admitted, and why others are not**: a spent key, then a group of one transaction
      and currency that does not sum to zero, then a resolution of no open hold. An admitted batch is the
      next epoch, chained to the last; a refused one leaves everything as it was. */
  lemma AdmissionExactlyWhen(hash: Hash, s: State, key: Key, rows: seq<Row>)
    ensures var (t, r) := Admit(hash, s, key, rows);
      && (r == Err(Duplicate) <==> key in s.idem)
      && (r == Err(Unbalanced) <==> key !in s.idem && !Conserves(rows))
      && (r == Err(BadResolution) <==> key !in s.idem && Conserves(rows) && !ResolvesOpenHolds(s.epochs, rows))
      && (r.Err? ==> t == s)
      && (r.Ok? ==>
            && r.value == |s.epochs| && t.idem == s.idem + {key} && |t.epochs| == |s.epochs| + 1
            && t.epochs[..|s.epochs|] == s.epochs
            && var e, parent := t.epochs[|s.epochs|],
                 if s.epochs == [] then ZERO_DIGEST else s.epochs[|s.epochs| - 1].hash;
               e == EpochRec(|s.epochs|, parent, hash(parent + RowsBytes(rows)), rows))
  {
    BalancedIsConserves(rows);
    ProperIsOpen(s.epochs, rows);
    hide Balanced, Conserves, ResolvesProperly, ResolvesOpenHolds, RowsBytes;
  }

  lemma BalancedIsConserves(rows: seq<Row>)
    ensures Balanced(rows) <==> Conserves(rows)
  {
    forall t: u64, c: u32 ensures GroupSum(rows, t, c) == Total(rows, InGroup(t, c), Posted) {
      AmountIsTotal(rows, OfGroup(t, c), InGroup(t, c));
    }
    hide GroupSum, Total;
  }

  lemma ProperIsOpen(epochs: seq<EpochRec>, rows: seq<Row>)
    ensures ResolvesProperly(epochs, rows) <==> ResolvesOpenHolds(epochs, rows)
  {
    forall h: u64
      ensures HoldExists(epochs, h) <==> exists j :: 0 <= j < |epochs| && Places(epochs[j], h)
      ensures IsResolved(epochs, h) <==> exists j :: 0 <= j < |epochs| && Resolves(epochs[j], h)
    {
      ExistsMeansPlaced(epochs, h);
      ResolvedMeansOnce(epochs, h);
    }
    hide HoldExists, IsResolved, Places, Resolves;
    if ResolvesProperly(epochs, rows) {
      forall i | 0 <= i < |rows| && rows[i].Resolve?
        ensures exists j :: 0 <= j < |epochs| && Places(epochs[j], rows[i].hold)
        ensures forall j :: 0 <= j < |epochs| ==> !Resolves(epochs[j], rows[i].hold)
      {
        assert MayFollow(epochs, rows[i]);
      }
    }
  }
}
