/** The six questions, their answers, and the oracle object that gives them. */
module Arms {
  import opened Prelude
  import opened Universe
  import opened ComparatorOracle

  datatype Query =
    | Point(key: Key)
    | Anchored(key: Key, epoch: u64)
    | StatementOf(key: Key, from: int, to: int)
    | Desk(desk: u64)
    | Top10(cur: u32)
    | Extract

  datatype Answer =
    | BalanceIs(balance: Option<int>)
    | StatementIs(count: nat, sum: Option<int>)
    | PerCurrency(exposure: map<u32, int>)
    | Top(balances: seq<int>)
    | ReportIs(report: map<Key, int>)

  // ---------- The ten largest ----------

  ghost predicate Descending(s: seq<int>) {
    forall i, j :: 0 <= i < j < |s| ==> s[i] >= s[j]
  }

  function InsertDown(s: seq<int>, x: int): (r: seq<int>)
    ensures multiset(r) == multiset(s) + multiset{x}
  {
    if s == [] || x >= s[0] then [x] + s
    else
      assert s == [s[0]] + s[1..];
      [s[0]] + InsertDown(s[1..], x)
  }

  lemma {:induction false} InsertKeepsDescending(s: seq<int>, x: int)
    requires Descending(s)
    ensures Descending(InsertDown(s, x))
    ensures forall y :: y in InsertDown(s, x) ==> y == x || y in s
  {
    if s != [] && x < s[0] {
      InsertKeepsDescending(s[1..], x);
      var rest := InsertDown(s[1..], x);
      forall j | 0 <= j < |rest| ensures rest[j] <= s[0] {
        assert rest[j] in rest;
      }
    }
  }

  /** Sort, largest first. */
  function SortDown(s: seq<int>): (r: seq<int>)
    ensures multiset(r) == multiset(s)
  {
    if s == [] then []
    else
      assert s == s[..|s| - 1] + [s[|s| - 1]];
      InsertDown(SortDown(s[..|s| - 1]), s[|s| - 1])
  }

  lemma {:induction false} SortDescends(s: seq<int>)
    ensures Descending(SortDown(s))
  {
    if s != [] {
      SortDescends(s[..|s| - 1]);
      InsertKeepsDescending(SortDown(s[..|s| - 1]), s[|s| - 1]);
    }
  }

  /** A bag of numbers has one descending order. */
  lemma {:induction false} DescendingUnique(s: seq<int>, t: seq<int>)
    requires Descending(s) && Descending(t) && multiset(s) == multiset(t)
    ensures s == t
  {
    if s == [] || t == [] {
      assert |multiset(s)| == |s| && |multiset(t)| == |t|;
    } else {
      HeadAndTail(s);
      HeadAndTail(t);
      assert s[0] in multiset(t) && t[0] in multiset(s);
      assert s[0] == t[0];
      DescendingUnique(s[1..], t[1..]);
    }
  }

  lemma HeadAndTail(s: seq<int>)
    requires Descending(s) && s != []
    ensures multiset(s[1..]) == multiset(s) - multiset{s[0]} && Descending(s[1..])
    ensures forall y :: y in multiset(s) ==> y <= s[0]
    ensures s == [s[0]] + s[1..]
  {
    assert s == [s[0]] + s[1..];
  }

  /** The bag of balances of `ks`. */
  ghost function Values(ks: set<Key>, b: map<Key, int>): multiset<int>
    requires ks <= b.Keys
  {
    if ks == {} then multiset{} else var k :| k in ks; multiset{b[k]} + Values(ks - {k}, b)
  }

  lemma {:induction false} ValuesTake(ks: set<Key>, b: map<Key, int>, k: Key)
    requires k in ks && ks <= b.Keys
    ensures Values(ks, b) == multiset{b[k]} + Values(ks - {k}, b)
    decreases |ks|
  {
    var j :| j in ks && Values(ks, b) == multiset{b[j]} + Values(ks - {j}, b);
    if j != k {
      ValuesTake(ks - {j}, b, k);
      ValuesTake(ks - {k}, b, j);
      assert ks - {j} - {k} == ks - {k} - {j};
    }
  }

  lemma NoValues(b: map<Key, int>, c: u32)
    ensures InCurrency({}, c) == {} && Values({}, b) == multiset{}
  {
  }

  lemma ValuesOneMore(done: set<Key>, b: map<Key, int>, c: u32, k: Key)
    requires k !in done && done + {k} <= b.Keys
    ensures Values(InCurrency(done + {k}, c), b) ==
      Values(InCurrency(done, c), b) + if k.1 == c then multiset{b[k]} else multiset{}
  {
    var now := InCurrency(done + {k}, c);
    if k.1 == c {
      ValuesTake(now, b, k);
      assert now - {k} == InCurrency(done, c);
    } else {
      assert now == InCurrency(done, c);
    }
  }

  function FirstTen(s: seq<int>): seq<int> {
    if |s| <= 10 then s else s[..10]
  }

  /** `top` is the ten largest balances of `c` in `report`, largest first. */
  ghost predicate IsTop(top: seq<int>, report: map<Key, int>, c: u32) {
    exists all :: Descending(all) && multiset(all) == Values(InCurrency(report.Keys, c), report) && top == FirstTen(all)
  }

  lemma {:induction false} Enumerated(ks: set<Key>, b: map<Key, int>) returns (s: seq<int>)
    requires ks <= b.Keys
    ensures multiset(s) == Values(ks, b)
  {
    if ks == {} {
      s := [];
    } else {
      var k :| k in ks;
      ValuesTake(ks, b, k);
      var rest := Enumerated(ks - {k}, b);
      s := [b[k]] + rest;
    }
  }

  lemma TopExists(report: map<Key, int>, c: u32)
    ensures exists top :: IsTop(top, report, c)
  {
    var s := Enumerated(InCurrency(report.Keys, c), report);
    SortDescends(s);
    assert IsTop(FirstTen(SortDown(s)), report, c);
  }

  /** There is one answer to the question. */
  lemma TopUnique(a: seq<int>, b: seq<int>, report: map<Key, int>, c: u32)
    requires IsTop(a, report, c) && IsTop(b, report, c)
    ensures a == b
  {
    var s :| Descending(s) && multiset(s) == Values(InCurrency(report.Keys, c), report) && a == FirstTen(s);
    var t :| Descending(t) && multiset(t) == Values(InCurrency(report.Keys, c), report) && b == FirstTen(t);
    DescendingUnique(s, t);
  }

  ghost function TopOf(report: map<Key, int>, c: u32): (top: seq<int>)
    ensures IsTop(top, report, c)
  {
    TopExists(report, c);
    var top :| IsTop(top, report, c);
    top
  }

  // ---------- Expected answers ----------

  /** The answer to a query from the index alone, as of its head. */
  ghost function Expected(o: Index, q: Query): Answer {
    match q
    case Point(k) => BalanceIs(Balance(o, k, o.head))
    case Anchored(k, e) => BalanceIs(Balance(o, k, e))
    case StatementOf(k, a, b) => var (n, s) := Statement(o, k, a, b); StatementIs(n, s)
    case Desk(d) => PerCurrency(DeskView(Report(o), d))
    case Top10(c) => Top(TopOf(Report(o), c))
    case Extract => ReportIs(Report(o))
  }

  /** The same as of an earlier epoch; an anchored query looks no further than its own. */
  ghost function ExpectedAt(o: Index, q: Query, at: u64): Answer {
    match q
    case Point(k) => BalanceIs(Balance(o, k, at))
    case Anchored(k, e) => BalanceIs(Balance(o, k, if e <= at then e else at))
    case StatementOf(k, a, b) => var (n, s) := StatementAt(o, k, a, b, at); StatementIs(n, s)
    case Desk(d) => PerCurrency(DeskView(ReportAt(o, at), d))
    case Top10(c) => Top(TopOf(ReportAt(o, at), c))
    case Extract => ReportIs(ReportAt(o, at))
  }

  lemma HeadBalance(log: seq<Sealed>, k: Key, at: u64)
    requires Ordered(log) && Replay(log).head <= at
    ensures Balance(Replay(log), k, Replay(log).head) == Balance(Replay(log), k, at)
  {
    ReplayIsIndex(log);
    hide Balance, LegsOf, Upto, Replay;
    BalanceIsFold(log, k, Replay(log).head);
    BalanceIsFold(log, k, at);
    UptoAll(log, at);
    UptoAll(log, Replay(log).head);
  }

  /** **Time travel is truncated replay**: every answer as of `e` is the head answer of a fresh oracle
      that applied only the transactions sealed by then. */
  lemma TimeTravelIsTruncatedReplay(log: seq<Sealed>, q: Query, e: u64)
    requires Ordered(log)
    ensures ExpectedAt(Replay(log), q, e) == Expected(Replay(Upto(log, e)), q)
  {
    match q
    case Point(k) =>
      UptoOrdered(log, e);
      ReplayIsIndex(Upto(log, e));
      var cut := Replay(Upto(log, e));
      HeadBalance(Upto(log, e), k, e);
      BalanceTravels(log, k, e, e);
    case Anchored(k, a) => BalanceTravels(log, k, a, e);
    case StatementOf(k, a, b) => StatementTravels(log, k, a, b, e);
    case _ => ReportTravels(log, e);
  }

  // ---------- The object ----------

  class Oracle {
    var applied: seq<Sealed>
    var byKey: map<Key, seq<Entry>>
    var head: u64

    ghost function View(): Index
      reads this
    {
      Index(applied, byKey, head)
    }

    /** The index is that of the log, and the log is in order. */
    ghost predicate Valid()
      reads this
    {
      Ordered(applied) && View() == Replay(applied)
    }

    constructor ()
      ensures Valid() && View() == EMPTY
    {
      applied, byKey, head := [], map[], 0;
    }

    /** Record a transaction sealed at epoch `idx`; epochs are applied in order. */
    method Apply(idx: u64, t: Txn)
      requires Valid() && idx >= head
      modifies this
      ensures Valid() && applied == old(applied) + [Sealed(idx, t)] && head == idx
    {
      hide Ordered, Replay, AddLeg;
      ReplaySnoc(applied, Sealed(idx, t));
      byKey := AddLeg(byKey, idx, t.first, t.valueDay);
      byKey := AddLeg(byKey, idx, t.second, t.valueDay);
      head := idx;
      applied := applied + [Sealed(idx, t)];
    }

    /** Exposure of a desk by currency, at the head. */
    method DeskExposure(desk: u64) returns (out: map<u32, int>)
      ensures out == DeskView(Report(View()), desk)
    {
      hide CurrencySums, SumAmt;
      ghost var b, done := Report(View()), {};
      out := map[];
      NothingYet(b);
      var left := byKey.Keys;
      while left != {}
        invariant done !! left && done + left == byKey.Keys && out == CurrencySums(AtDesk(done, desk), b)
      {
        var k :| k in left;
        if DeskOf(k.0) == desk {
          CurrencyOneMore(AtDesk(done, desk), b, k);
          out := out[k.1 := (if k.1 in out then out[k.1] else 0) + SumAmt(byKey[k])];
          assert AtDesk(done + {k}, desk) == AtDesk(done, desk) + {k};
        } else {
          assert AtDesk(done + {k}, desk) == AtDesk(done, desk);
        }
        done, left := done + {k}, left - {k};
      }
      assert done == b.Keys;
    }

    /** Exposure of a desk by currency through epoch `at`: keys with no balance by then are skipped. */
    method DeskExposureAt(desk: u64, at: u64) returns (out: map<u32, int>)
      ensures out == DeskView(ReportAt(View(), at), desk)
    {
      hide CurrencySums, Balance;
      ghost var b, done := ReportAt(View(), at), {};
      out := map[];
      NothingYet(b);
      var left := byKey.Keys;
      while left != {}
        invariant left <= byKey.Keys && done == b.Keys - left && out == CurrencySums(AtDesk(done, desk), b)
      {
        var k :| k in left;
        var balance := Balance(Index(applied, byKey, head), k, at);
        if balance.Some? {
          if DeskOf(k.0) == desk {
            CurrencyOneMore(AtDesk(done, desk), b, k);
            out := out[k.1 := (if k.1 in out then out[k.1] else 0) + balance.value];
            assert AtDesk(done + {k}, desk) == AtDesk(done, desk) + {k};
          } else {
            assert AtDesk(done + {k}, desk) == AtDesk(done, desk);
          }
          done := done + {k};
        }
        left := left - {k};
      }
      assert done == b.Keys;
    }

    /** The ten largest balances of a currency, from any report. */
    method TopTen(report: map<Key, int>, c: u32) returns (top: seq<int>)
      ensures top == TopOf(report, c)
    {
      hide Values;
      var v: seq<int> := [];
      ghost var done: set<Key> := {};
      NoValues(report, c);
      var left := report.Keys;
      while left != {}
        invariant done !! left && done + left == report.Keys
        invariant multiset(v) == Values(InCurrency(done, c), report)
      {
        var k :| k in left;
        ValuesOneMore(done, report, c, k);
        if k.1 == c {
          v := v + [report[k]];
        }
        done, left := done + {k}, left - {k};
      }
      assert done == report.Keys;
      v := SortDown(v);
      SortDescends(v);
      top := FirstTen(v);
      SortTwice(v);
      assert IsTop(top, report, c);
      TopUnique(top, TopOf(report, c), report, c);
    }

    /** Whether each currency's balances cancel. */
    method Conserves() returns (ok: bool)
      ensures ok <==> forall c: u32 :: CurrencyTotal(View(), c) == 0
    {
      hide CurrencySums, CurrencyTotal, SumAmt;
      ghost var b, done := Report(View()), {};
      var perCur: map<u32, int> := map[];
      NothingYet(b);
      var report := BalancesOf(byKey);
      var left := report.Keys;
      while left != {}
        invariant done !! left && done + left == report.Keys && perCur == CurrencySums(done, b)
      {
        var k :| k in left;
        CurrencyOneMore(done, b, k);
        perCur := perCur[k.1 := (if k.1 in perCur then perCur[k.1] else 0) + report[k]];
        done, left := done + {k}, left - {k};
      }
      assert done == b.Keys;
      ok := forall c :: c in perCur ==> perCur[c] == 0;
      TotalsPerCurrency(View());
      assert forall c: u32 :: CurrencyTotal(View(), c) == ValueOr0(perCur, c);
      if !ok {
        ghost var c :| c in perCur && perCur[c] != 0;
        assert CurrencyTotal(View(), c) != 0;
      }
    }
  }

  lemma NothingYet(b: map<Key, int>)
    ensures CurrencySums({}, b) == map[]
    ensures forall desk :: AtDesk({}, desk) == {}
  {
  }

  function ValueOr0(sums: map<u32, int>, c: u32): int {
    if c in sums then sums[c] else 0
  }

  /** A currency that no key names has total zero; any other has the total listed for it. */
  lemma TotalsPerCurrency(o: Index)
    ensures forall c: u32 :: CurrencyTotal(o, c) == ValueOr0(CurrencySums(Report(o).Keys, Report(o)), c)
  {
    var b := Report(o);
    assert b.Keys == o.byKey.Keys;
    forall c: u32 | c !in CurrencySums(b.Keys, b) ensures InCurrency(b.Keys, c) == {} {
      assert forall k :: k in b.Keys ==> k.1 in CurrencySums(b.Keys, b);
    }
  }

  lemma SortTwice(s: seq<int>)
    requires exists t :: s == SortDown(t)
    ensures Descending(s)
  {
    var t :| s == SortDown(t);
    SortDescends(t);
  }

  /** **A generated universe loads without tripping the ordering check, and conserves.** */
  method Of(txns: seq<Txn>, p: Params) returns (o: Oracle)
    requires IsHistory(txns, p)
    ensures fresh(o) && o.Valid() && |o.applied| == |txns|
    ensures forall i :: 0 <= i < |txns| ==> o.applied[i] == Sealed(txns[i].batch, txns[i])
    ensures forall c: u32 :: CurrencyTotal(o.View(), c) == 0
  {
    hide IsHistory, CurrencyTotal, Replay, Ordered;
    o := new Oracle();
    for i := 0 to |txns|
      invariant fresh(o) && o.Valid() && |o.applied| == i
      invariant forall j :: 0 <= j < i ==> o.applied[j] == Sealed(txns[j].batch, txns[j])
      invariant o.head == if i == 0 then 0 else txns[i - 1].batch
    {
      if i > 0 {
        HistoryIsOrdered(txns, p, i - 1, i);
      }
      o.Apply(txns[i].batch, txns[i]);
    }
    HistoryConserves(txns, p, o.applied);
  }

  lemma HistoryConserves(txns: seq<Txn>, p: Params, log: seq<Sealed>)
    requires IsHistory(txns, p) && |log| == |txns|
    requires forall i :: 0 <= i < |txns| ==> log[i] == Sealed(txns[i].batch, txns[i])
    ensures forall c: u32 :: CurrencyTotal(Replay(log), c) == 0
  {
    forall c: u32 ensures CurrencyTotal(Replay(log), c) == 0 {
      forall i | 0 <= i < |txns| ensures WellFormed(txns[i], p) {
        assert txns[i].id == i + 1;
      }
      ReplayConserves(log, c);
    }
  }
}
