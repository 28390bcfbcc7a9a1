/** The comparator's oracle: an append-only log of transfers, indexed per key for the six queries. */
module ComparatorOracle {
  import opened Prelude
  import opened Universe

  /** (account, currency). */
  type Key = (u64, u32)

  /** One leg as the index holds it: epoch, amount, value day. */
  datatype Entry = Entry(epoch: u64, amt: i64, day: int)

  datatype Sealed = Sealed(epoch: u64, txn: Txn)

  /** The oracle's fields. */
  datatype Index = Index(applied: seq<Sealed>, byKey: map<Key, seq<Entry>>, head: u64)

  const EMPTY := Index([], map[], 0)

  function KeyOf(l: Leg): Key {
    (l.acct, l.cur)
  }

  function AddLeg(byKey: map<Key, seq<Entry>>, epoch: u64, l: Leg, day: int): map<Key, seq<Entry>> {
    byKey[KeyOf(l) := (if KeyOf(l) in byKey then byKey[KeyOf(l)] else []) + [Entry(epoch, l.amt, day)]]
  }

  function ApplyTo(o: Index, s: Sealed): Index {
    var one := AddLeg(o.byKey, s.epoch, s.txn.first, s.txn.valueDay);
    var both := AddLeg(one, s.epoch, s.txn.second, s.txn.valueDay);
    Index(o.applied + [s], both, s.epoch)
  }

  /** A fresh oracle after a log of transactions. */
  function Replay(log: seq<Sealed>): Index {
    if log == [] then EMPTY else ApplyTo(Replay(log[..|log| - 1]), log[|log| - 1])
  }

  ghost predicate Ordered(log: seq<Sealed>) {
    forall i, j :: 0 <= i < j < |log| ==> log[i].epoch <= log[j].epoch
  }

  // ---------- The log, read plainly ----------

  /** The legs of `k` in one transaction. */
  function LegsIn(s: Sealed, k: Key): (r: seq<Entry>)
    ensures forall i :: 0 <= i < |r| ==> r[i].epoch == s.epoch
  {
    (if KeyOf(s.txn.first) == k then [Entry(s.epoch, s.txn.first.amt, s.txn.valueDay)] else [])
    + (if KeyOf(s.txn.second) == k then [Entry(s.epoch, s.txn.second.amt, s.txn.valueDay)] else [])
  }

  /** Every leg of `k`, in log order. */
  function LegsOf(log: seq<Sealed>, k: Key): seq<Entry> {
    if log == [] then [] else LegsOf(log[..|log| - 1], k) + LegsIn(log[|log| - 1], k)
  }

  /** The transactions sealed at or before epoch `at`. */
  function Upto(log: seq<Sealed>, at: u64): seq<Sealed> {
    if log == [] then []
    else Upto(log[..|log| - 1], at) + if log[|log| - 1].epoch <= at then [log[|log| - 1]] else []
  }

  function EntriesUpto(legs: seq<Entry>, at: u64): (r: seq<Entry>)
    ensures |r| <= |legs|
  {
    if legs == [] then []
    else EntriesUpto(legs[..|legs| - 1], at) + if legs[|legs| - 1].epoch <= at then [legs[|legs| - 1]] else []
  }

  function SumAmt(legs: seq<Entry>): int {
    if legs == [] then 0 else SumAmt(legs[..|legs| - 1]) + legs[|legs| - 1].amt
  }

  ghost predicate Sorted(legs: seq<Entry>) {
    forall i, j :: 0 <= i < j < |legs| ==> legs[i].epoch <= legs[j].epoch
  }

  // ---------- The queries ----------

  /** Binary search: how many leading legs are sealed at or before `at`. */
  function PartitionPoint(legs: seq<Entry>, at: u64, lo: nat, hi: nat): (n: nat)
    requires lo <= hi <= |legs|
    ensures lo <= n <= hi
    decreases hi - lo
  {
    if lo == hi then lo
    else
      var mid := lo + (hi - lo) / 2;
      if legs[mid].epoch <= at then PartitionPoint(legs, at, mid + 1, hi)
      else PartitionPoint(legs, at, lo, mid)
  }

  /** The balance of `k` through `at`; absent, not zero, when it has no leg by then. */
  function Balance(o: Index, k: Key, at: u64): Option<int> {
    if k !in o.byKey then None
    else
      var legs := o.byKey[k];
      var n := PartitionPoint(legs, at, 0, |legs|);
      if n == 0 then None else Some(SumAmt(legs[..n]))
  }

  function BalancesOf(byKey: map<Key, seq<Entry>>): map<Key, int> {
    map k | k in byKey :: SumAmt(byKey[k])
  }

  /** Each key with the total of its legs. */
  function Report(o: Index): map<Key, int> {
    BalancesOf(o.byKey)
  }

  function ReportAt(o: Index, at: u64): map<Key, int> {
    map k | k in o.byKey && Balance(o, k, at).Some? :: Balance(o, k, at).value
  }

  function Within(e: Entry, from: int, to: int): bool {
    from <= e.day <= to
  }

  function Hits(legs: seq<Entry>, from: int, to: int): (r: seq<Entry>) {
    if legs == [] then []
    else
      var last := legs[|legs| - 1];
      Hits(legs[..|legs| - 1], from, to) + if Within(last, from, to) then [last] else []
  }

  function HitsAt(legs: seq<Entry>, from: int, to: int, at: u64): (r: seq<Entry>) {
    if legs == [] then []
    else
      var last := legs[|legs| - 1];
      HitsAt(legs[..|legs| - 1], from, to, at) + if last.epoch <= at && Within(last, from, to) then [last] else []
  }

  function CountAndSum(hit: seq<Entry>): (nat, Option<int>) {
    (|hit|, if |hit| == 0 then None else Some(SumAmt(hit)))
  }

  function Statement(o: Index, k: Key, from: int, to: int): (nat, Option<int>) {
    if k !in o.byKey then (0, None) else CountAndSum(Hits(o.byKey[k], from, to))
  }

  function StatementAt(o: Index, k: Key, from: int, to: int, at: u64): (nat, Option<int>) {
    if k !in o.byKey then (0, None) else CountAndSum(HitsAt(o.byKey[k], from, to, at))
  }

  // ---------- Sums over keys ----------

  /** The keys of one currency. */
  function InCurrency(ks: set<Key>, c: u32): set<Key> {
    set k | k in ks && k.1 == c
  }

  /** Per currency, the sum of the balances of `ks`. */
  ghost function CurrencySums(ks: set<Key>, b: map<Key, int>): map<u32, int>
    requires ks <= b.Keys
  {
    map c | c in set k | k in ks :: k.1 :: SumOver(InCurrency(ks, c), b)
  }

  /** One more key adds its balance to its currency. */
  lemma CurrencyOneMore(ks: set<Key>, b: map<Key, int>, k: Key)
    requires k !in ks && ks + {k} <= b.Keys
    ensures var out := CurrencySums(ks, b);
            CurrencySums(ks + {k}, b) == out[k.1 := (if k.1 in out then out[k.1] else 0) + b[k]]
  {
    var out, now := CurrencySums(ks, b), CurrencySums(ks + {k}, b);
    var same := InCurrency(ks + {k}, k.1);
    SumOverTake(same, b, k);
    assert same - {k} == InCurrency(ks, k.1);
    if k.1 !in out {
      assert InCurrency(ks, k.1) == {};
    }
    assert now.Keys == out.Keys + {k.1};
    forall c: u32 | c in out && c != k.1 ensures now[c] == out[c] {
      assert InCurrency(ks + {k}, c) == InCurrency(ks, c);
    }
  }

  /** The keys booked to a desk. */
  function AtDesk(ks: set<Key>, desk: u64): set<Key> {
    set k | k in ks && DeskOf(k.0) == desk
  }

  /** A desk's exposure by currency, from a report of balances. */
  ghost function DeskView(report: map<Key, int>, desk: u64): map<u32, int> {
    CurrencySums(AtDesk(report.Keys, desk), report)
  }

  // ---------- Time travel ----------

  lemma {:induction false} UptoOrdered(log: seq<Sealed>, at: u64)
    requires Ordered(log)
    ensures Ordered(Upto(log, at))
    ensures forall i :: 0 <= i < |Upto(log, at)| ==> Upto(log, at)[i].epoch <= at
    ensures Upto(log, at) <= log
    ensures forall i :: |Upto(log, at)| <= i < |log| ==> log[i].epoch > at
  {
    if log != [] {
      var n := |log| - 1;
      UptoOrdered(log[..n], at);
      var cut := |Upto(log[..n], at)|;
      assert cut < n ==> log[..n][cut].epoch > at;
    }
  }

  lemma {:induction false} ReplayIsIndex(log: seq<Sealed>)
    ensures Replay(log).applied == log
    ensures Replay(log).head == if log == [] then 0 else log[|log| - 1].epoch
    ensures forall k :: k in Replay(log).byKey <==> LegsOf(log, k) != []
    ensures forall k :: k in Replay(log).byKey ==> Replay(log).byKey[k] == LegsOf(log, k)
  {
    if log != [] {
      var n := |log| - 1;
      ReplayIsIndex(log[..n]);
      forall k: Key ensures k in Replay(log).byKey <==> LegsOf(log, k) != []
        ensures k in Replay(log).byKey ==> Replay(log).byKey[k] == LegsOf(log, k)
      {
        IndexOneMore(Replay(log[..n]), log[n], k);
      }
      assert log == log[..n] + [log[n]];
    }
  }

  lemma ReplaySnoc(log: seq<Sealed>, s: Sealed)
    requires Ordered(log) && Replay(log).head <= s.epoch
    ensures Ordered(log + [s]) && Replay(log + [s]) == ApplyTo(Replay(log), s)
  {
    ReplayIsIndex(log);
    assert (log + [s])[..|log|] == log;
  }

  lemma IndexOneMore(o: Index, s: Sealed, k: Key)
    ensures var before := if k in o.byKey then o.byKey[k] else [];
            var after := ApplyTo(o, s).byKey;
            (k in after <==> k in o.byKey || LegsIn(s, k) != [])
            && (k in after ==> after[k] == before + LegsIn(s, k))
  {
  }

  lemma {:induction false} LegsSorted(log: seq<Sealed>, k: Key)
    requires Ordered(log)
    ensures Sorted(LegsOf(log, k))
    ensures forall i :: 0 <= i < |LegsOf(log, k)| ==> log != [] && LegsOf(log, k)[i].epoch <= log[|log| - 1].epoch
  {
    if log != [] {
      LegsSorted(log[..|log| - 1], k);
    }
  }

  lemma {:induction false} EntriesUptoAppend(a: seq<Entry>, b: seq<Entry>, at: u64)
    ensures EntriesUpto(a + b, at) == EntriesUpto(a, at) + EntriesUpto(b, at)
  {
    if b == [] {
      assert a + b == a;
    } else {
      var n := |b| - 1;
      assert (a + b)[..|a + b| - 1] == a + b[..n];
      EntriesUptoAppend(a, b[..n], at);
    }
  }

  lemma EntriesOfOne(s: Sealed, k: Key, at: u64)
    ensures EntriesUpto(LegsIn(s, k), at) == if s.epoch <= at then LegsIn(s, k) else []
  {
    var legs := LegsIn(s, k);
    if |legs| == 1 {
      assert legs[..0] == [];
    } else if |legs| == 2 {
      assert legs[..1] == [legs[0]] && legs[..1][..0] == [];
    }
  }

  /** The legs of a truncated log are the truncated legs. */
  lemma {:induction false} LegsOfUpto(log: seq<Sealed>, k: Key, at: u64)
    ensures LegsOf(Upto(log, at), k) == EntriesUpto(LegsOf(log, k), at)
  {
    if log != [] {
      var n := |log| - 1;
      var rest := Upto(log[..n], at);
      LegsOfUpto(log[..n], k, at);
      EntriesUptoAppend(LegsOf(log[..n], k), LegsIn(log[n], k), at);
      EntriesOfOne(log[n], k, at);
      var cut := Upto(log, at);
      if log[n].epoch <= at {
        assert cut[..|cut| - 1] == rest && cut[|cut| - 1] == log[n];
        assert LegsOf(cut, k) == LegsOf(rest, k) + LegsIn(log[n], k);
      } else {
        assert cut == rest;
      }
    }
  }

  /** Binary search finds the boundary of sorted legs. */
  lemma {:induction false} PartitionFinds(legs: seq<Entry>, at: u64, lo: nat, hi: nat)
    requires lo <= hi <= |legs| && Sorted(legs)
    requires forall i :: 0 <= i < lo ==> legs[i].epoch <= at
    requires forall i :: hi <= i < |legs| ==> legs[i].epoch > at
    ensures var n := PartitionPoint(legs, at, lo, hi);
            (forall i :: 0 <= i < n ==> legs[i].epoch <= at) && (forall i :: n <= i < |legs| ==> legs[i].epoch > at)
    decreases hi - lo
  {
    if lo < hi {
      var mid := lo + (hi - lo) / 2;
      if legs[mid].epoch <= at {
        PartitionFinds(legs, at, mid + 1, hi);
      } else {
        PartitionFinds(legs, at, lo, mid);
      }
    }
  }

  lemma {:induction false} SplitAtBoundary(legs: seq<Entry>, at: u64, n: nat)
    requires n <= |legs|
    requires forall i :: 0 <= i < n ==> legs[i].epoch <= at
    requires forall i :: n <= i < |legs| ==> legs[i].epoch > at
    ensures EntriesUpto(legs, at) == legs[..n]
  {
    if legs != [] {
      var m := |legs| - 1;
      SplitAtBoundary(legs[..m], at, if n <= m then n else m);
      assert n <= m ==> legs[..m][..n] == legs[..n];
      assert n > m ==> legs[..n] == legs[..m] + [legs[m]] && legs[..m][..m] == legs[..m];
    }
  }

  /** **The binary-searched balance is the fold of the truncated log**, absent exactly when that log has
      no leg of the key. */
  lemma BalanceIsFold(log: seq<Sealed>, k: Key, at: u64)
    requires Ordered(log)
    ensures var legs := LegsOf(Upto(log, at), k);
            Balance(Replay(log), k, at) == if legs == [] then None else Some(SumAmt(legs))
  {
    var legs := LegsOf(log, k);
    ReplayIsIndex(log);
    LegsSorted(log, k);
    LegsOfUpto(log, k, at);
    if legs != [] {
      PartitionFinds(legs, at, 0, |legs|);
      SplitAtBoundary(legs, at, PartitionPoint(legs, at, 0, |legs|));
    }
  }

  lemma {:induction false} UptoAll(log: seq<Sealed>, at: u64)
    requires forall i :: 0 <= i < |log| ==> log[i].epoch <= at
    ensures Upto(log, at) == log
  {
    if log != [] {
      UptoAll(log[..|log| - 1], at);
    }
  }

  lemma {:induction false} UptoTwice(log: seq<Sealed>, a: u64, b: u64)
    ensures Upto(Upto(log, a), b) == Upto(log, if a <= b then a else b)
  {
    if log != [] {
      var n := |log| - 1;
      UptoTwice(log[..n], a, b);
      var rest, cut := Upto(log[..n], a), Upto(log, a);
      if log[n].epoch <= a {
        assert cut[..|cut| - 1] == rest && cut[|cut| - 1] == log[n];
      } else {
        assert cut == rest;
      }
    }
  }

  lemma BalanceTravels(log: seq<Sealed>, k: Key, at: u64, e: u64)
    requires Ordered(log)
    ensures Ordered(Upto(log, e))
    ensures Balance(Replay(Upto(log, e)), k, at) == Balance(Replay(log), k, if e <= at then e else at)
  {
    UptoOrdered(log, e);
    UptoTwice(log, e, at);
    BalanceIsFold(Upto(log, e), k, at);
    BalanceIsFold(log, k, if e <= at then e else at);
  }

  lemma ReportTravels(log: seq<Sealed>, e: u64)
    requires Ordered(log)
    ensures ReportAt(Replay(log), e) == Report(Replay(Upto(log, e)))
  {
    var o, cut := Replay(log), Replay(Upto(log, e));
    forall k: Key
      ensures k in cut.byKey <==> Balance(o, k, e).Some?
      ensures k in cut.byKey ==> Balance(o, k, e) == Some(SumAmt(cut.byKey[k]))
      ensures Balance(o, k, e).Some? ==> k in o.byKey
    {
      BalanceIsFold(log, k, e);
      ReplayIsIndex(Upto(log, e));
    }
    hide Balance, Replay, Upto, SumAmt;
    assert ReportAt(o, e).Keys == Report(cut).Keys;
  }

  lemma {:induction false} HitsOfUpto(legs: seq<Entry>, from: int, to: int, at: u64)
    ensures HitsAt(legs, from, to, at) == Hits(EntriesUpto(legs, at), from, to)
  {
    if legs != [] {
      var n := |legs| - 1;
      var rest := EntriesUpto(legs[..n], at);
      HitsOfUpto(legs[..n], from, to, at);
      var cut := EntriesUpto(legs, at);
      if legs[n].epoch <= at {
        assert cut[..|cut| - 1] == rest && cut[|cut| - 1] == legs[n];
      } else {
        assert cut == rest;
      }
    }
  }

  lemma StatementTravels(log: seq<Sealed>, k: Key, from: int, to: int, e: u64)
    requires Ordered(log)
    ensures StatementAt(Replay(log), k, from, to, e) == Statement(Replay(Upto(log, e)), k, from, to)
  {
    ReplayIsIndex(log);
    ReplayIsIndex(Upto(log, e));
    LegsOfUpto(log, k, e);
    HitsOfUpto(LegsOf(log, k), from, to, e);
  }

  // ---------- Conservation ----------

  ghost function CurrencyTotal(o: Index, c: u32): int {
    TotalOf(o.byKey, c)
  }

  ghost function TotalOf(byKey: map<Key, seq<Entry>>, c: u32): int {
    SumOver(InCurrency(byKey.Keys, c), BalancesOf(byKey))
  }

  lemma SumAmtSnoc(legs: seq<Entry>, e: Entry)
    ensures SumAmt(legs + [e]) == SumAmt(legs) + e.amt
  {
    assert (legs + [e])[..|legs + [e]| - 1] == legs;
  }

  /** A leg adds its amount to its own currency's total and to no other. */
  lemma LegAddsToTotal(byKey: map<Key, seq<Entry>>, epoch: u64, l: Leg, day: int, c: u32)
    ensures TotalOf(AddLeg(byKey, epoch, l, day), c) == TotalOf(byKey, c) + if l.cur == c then l.amt else 0
  {
    var k, after := KeyOf(l), AddLeg(byKey, epoch, l, day);
    var legs := if k in byKey then byKey[k] else [];
    var before, now := InCurrency(byKey.Keys, c), InCurrency(after.Keys, c);
    var rest := before - {k};
    SumAmtSnoc(legs, Entry(epoch, l.amt, day));
    assert rest == now - {k};
    SumOverSame(rest, BalancesOf(byKey), BalancesOf(after));
    if l.cur == c {
      SumOverTake(now, BalancesOf(after), k);
      if k in byKey {
        SumOverTake(before, BalancesOf(byKey), k);
      } else {
        assert before == rest;
      }
    } else {
      assert before == rest && now == rest;
    }
  }

  /** **Balanced transfers conserve every currency**, however they are indexed. */
  lemma {:induction false} ReplayConserves(log: seq<Sealed>, c: u32)
    requires forall i :: 0 <= i < |log| ==>
      log[i].txn.first.cur == log[i].txn.second.cur && log[i].txn.first.amt == 0 - log[i].txn.second.amt
    ensures CurrencyTotal(Replay(log), c) == 0
  {
    ReplayTotal(log, c);
  }

  lemma {:induction false} ReplayTotal(log: seq<Sealed>, c: u32)
    requires forall i :: 0 <= i < |log| ==>
      log[i].txn.first.cur == log[i].txn.second.cur && log[i].txn.first.amt == 0 - log[i].txn.second.amt
    ensures TotalOf(Replay(log).byKey, c) == 0
  {
    if log == [] {
      assert InCurrency(EMPTY.byKey.Keys, c) == {};
    } else {
      var n := |log| - 1;
      var byKey, epoch, t := Replay(log[..n]).byKey, log[n].epoch, log[n].txn;
      ReplayTotal(log[..n], c);
      hide TotalOf;
      LegAddsToTotal(byKey, epoch, t.first, t.valueDay, c);
      LegAddsToTotal(AddLeg(byKey, epoch, t.first, t.valueDay), epoch, t.second, t.valueDay, c);
    }
  }
}
