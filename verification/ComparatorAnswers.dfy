/** What the six answers are, over the legs of the log itself. */
module ComparatorAnswers {
  import opened Prelude
  import opened Universe
  import opened ComparatorOracle
  import opened Arms

  // ---------- The legs of a log ----------

  /** A leg's place: its transaction, and whether it is the second. */
  type Place = (nat, bool)

  ghost function LegAt(log: seq<Sealed>, p: Place): Leg
    requires p.0 < |log|
  {
    if p.1 then log[p.0].txn.second else log[p.0].txn.first
  }

  ghost function Places(log: seq<Sealed>): set<Place> {
    set i: nat, second: bool | i < |log| :: (i, second)
  }

  /** What each leg moves. */
  ghost function Moves(log: seq<Sealed>): map<Place, int> {
    map p | p in Places(log) :: LegAt(log, p).amt
  }

  /** The legs of one account and currency, sealed by `at`. */
  ghost function Through(log: seq<Sealed>, k: Key, at: u64): set<Place> {
    set p | p in Places(log) && LegAt(log, p).acct == k.0 && LegAt(log, p).cur == k.1 && log[p.0].epoch <= at
  }

  /** Those of them whose value day is in a period, both days included. */
  ghost function During(log: seq<Sealed>, k: Key, from: int, to: int, at: u64): set<Place> {
    set p | p in Through(log, k, at) && from <= log[p.0].txn.valueDay && log[p.0].txn.valueDay <= to
  }

  /** The entries of `legs` a test keeps, in order. */
  ghost function Kept(legs: seq<Entry>, test: Entry -> bool): seq<Entry> {
    if legs == [] then []
    else Kept(legs[..|legs| - 1], test) + if test(legs[|legs| - 1]) then [legs[|legs| - 1]] else []
  }

  lemma {:induction false} HitsAreKept(legs: seq<Entry>, from: int, to: int, at: u64)
    ensures HitsAt(legs, from, to, at) == Kept(legs, (e: Entry) => e.epoch <= at && from <= e.day <= to)
  {
    if legs != [] {
      HitsAreKept(legs[..|legs| - 1], from, to, at);
    }
  }

  lemma {:induction false} UptoAreKept(legs: seq<Entry>, at: u64)
    ensures EntriesUpto(legs, at) == Kept(legs, (e: Entry) => e.epoch <= at)
  {
    if legs != [] {
      UptoAreKept(legs[..|legs| - 1], at);
    }
  }

  lemma KeptSnoc(legs: seq<Entry>, e: Entry, test: Entry -> bool)
    ensures Kept(legs + [e], test) == Kept(legs, test) + if test(e) then [e] else []
  {
    assert (legs + [e])[..|legs|] == legs && (legs + [e])[|legs|] == e;
  }

  /** The entry a leg leaves in the index. */
  ghost function EntryAt(log: seq<Sealed>, p: Place): Entry
    requires p.0 < |log|
  {
    Entry(log[p.0].epoch, LegAt(log, p).amt, log[p.0].txn.valueDay)
  }

  /** A place and its entry, when it is one of `k` and the test keeps it. */
  ghost predicate Picks(log: seq<Sealed>, k: Key, test: Entry -> bool, p: Place)
    requires p.0 < |log|
  {
    LegAt(log, p).acct == k.0 && LegAt(log, p).cur == k.1 && test(EntryAt(log, p))
  }

  ghost function Picked(log: seq<Sealed>, k: Key, test: Entry -> bool): set<Place> {
    set p | p in Places(log) && Picks(log, k, test, p)
  }

  /** A list of entries and a set of places agree in number and in sum. */
  ghost predicate Agree(log: seq<Sealed>, legs: seq<Entry>, places: set<Place>) {
    places <= Places(log) && |legs| == |places| && SumAmt(legs) == SumOver(places, Moves(log))
  }

  lemma AgreeSnoc(log: seq<Sealed>, legs: seq<Entry>, places: set<Place>, p: Place)
    requires Agree(log, legs, places) && p in Places(log) && p !in places
    ensures Agree(log, legs + [EntryAt(log, p)], places + {p})
  {
    SumAmtSnoc(legs, EntryAt(log, p));
    SumOverTake(places + {p}, Moves(log), p);
    assert places + {p} - {p} == places;
  }

  lemma AgreeOneMore(log: seq<Sealed>, legs: seq<Entry>, places: set<Place>, p: Place, picked: bool)
    requires Agree(log, legs, places) && p in Places(log) && p !in places
    ensures Agree(log, legs + (if picked then [EntryAt(log, p)] else []), places + if picked then {p} else {})
  {
    if picked {
      AgreeSnoc(log, legs, places, p);
    } else {
      assert legs + [] == legs && places + {} == places;
    }
  }

  lemma AgreeGrows(log: seq<Sealed>, legs: seq<Entry>, places: set<Place>)
    requires log != [] && Agree(log[..|log| - 1], legs, places)
    ensures Agree(log, legs, places)
  {
    SumOverSame(places, Moves(log[..|log| - 1]), Moves(log));
  }

  lemma {:induction false} KeptArePicked(log: seq<Sealed>, k: Key, test: Entry -> bool)
    ensures Agree(log, Kept(LegsOf(log, k), test), Picked(log, k, test))
  {
    if log == [] {
      assert Picked(log, k, test) == {};
    } else {
      var n: nat := |log| - 1;
      var a, b := (n, false), (n, true);
      var legs, places := Kept(LegsOf(log[..n], k), test), Picked(log[..n], k, test);
      KeptArePicked(log[..n], k, test);
      AgreeGrows(log, legs, places);
      LastPlaces(log, k, test);
      KeptOfLast(log, k, test);
      hide Agree, Kept, LegsOf, Picked, Picks;
      AgreeOneMore(log, legs, places, a, Picks(log, k, test, a));
      legs := legs + if Picks(log, k, test, a) then [EntryAt(log, a)] else [];
      places := places + if Picks(log, k, test, a) then {a} else {};
      AgreeOneMore(log, legs, places, b, Picks(log, k, test, b));
    }
  }

  lemma KeptOfLast(log: seq<Sealed>, k: Key, test: Entry -> bool)
    requires log != []
    ensures var n: nat := |log| - 1;
      var a, b := (n, false), (n, true);
      var first := Kept(LegsOf(log[..n], k), test) + if Picks(log, k, test, a) then [EntryAt(log, a)] else [];
      Kept(LegsOf(log, k), test) == first + if Picks(log, k, test, b) then [EntryAt(log, b)] else []
  {
    var n: nat := |log| - 1;
    var a, b := (n, false), (n, true);
    var legs, x, y := LegsOf(log[..n], k), EntryAt(log, a), EntryAt(log, b);
    LastLegs(log, k);
    KeptMaybe(legs, x, KeyOf(LegAt(log, a)) == k, test);
    KeptMaybe(legs + (if KeyOf(LegAt(log, a)) == k then [x] else []), y, KeyOf(LegAt(log, b)) == k, test);
    hide Kept, LegsOf, EntryAt;
  }

  lemma LastLegs(log: seq<Sealed>, k: Key)
    requires log != []
    ensures var n: nat := |log| - 1;
      var first := LegsOf(log[..n], k) + if KeyOf(LegAt(log, (n, false))) == k then [EntryAt(log, (n, false))] else [];
      LegsOf(log, k) == first + if KeyOf(LegAt(log, (n, true))) == k then [EntryAt(log, (n, true))] else []
  {
    var n: nat := |log| - 1;
    var legs := LegsOf(log[..n], k);
    assert LegsOf(log, k) == legs + LegsIn(log[n], k);
    hide LegsOf;
    Associates(legs, if KeyOf(LegAt(log, (n, false))) == k then [EntryAt(log, (n, false))] else [],
               if KeyOf(LegAt(log, (n, true))) == k then [EntryAt(log, (n, true))] else []);
  }

  lemma KeptMaybe(legs: seq<Entry>, e: Entry, present: bool, test: Entry -> bool)
    ensures Kept(legs + (if present then [e] else []), test)
         == Kept(legs, test) + if present && test(e) then [e] else []
  {
    if present {
      KeptSnoc(legs, e, test);
    } else {
      assert legs + [] == legs && Kept(legs, test) + [] == Kept(legs, test);
    }
  }

  lemma LastPlaces(log: seq<Sealed>, k: Key, test: Entry -> bool)
    requires log != []
    ensures var n: nat := |log| - 1;
      Picked(log, k, test) == Picked(log[..n], k, test)
        + (if Picks(log, k, test, (n, false)) then {(n, false)} else {})
        + (if Picks(log, k, test, (n, true)) then {(n, true)} else {})
    ensures (|log| - 1 as nat, false) !in Picked(log[..|log| - 1], k, test)
    ensures (|log| - 1 as nat, true) !in Picked(log[..|log| - 1], k, test)
  {
    var n: nat := |log| - 1;
    forall p: Place | p in Places(log) ensures p in Places(log[..n]) || p == (n, false) || p == (n, true) {
    }
    assert forall p: Place :: p in Places(log[..n]) ==> LegAt(log[..n], p) == LegAt(log, p) && EntryAt(log[..n], p) == EntryAt(log, p);
  }

  /** Nothing, or a sum. */
  ghost function SumIfAny(ps: set<Place>, log: seq<Sealed>): Option<int>
    requires ps <= Places(log)
  {
    if ps == {} then None else Some(SumOver(ps, Moves(log)))
  }

  lemma BalanceOfLegs(log: seq<Sealed>, k: Key, at: u64)
    requires Ordered(log)
    ensures Balance(Replay(log), k, at) == SumIfAny(Through(log, k, at), log)
  {
    var legs := LegsOf(log, k);
    var test := (e: Entry) => e.epoch <= at;
    BalanceIsFold(log, k, at);
    LegsOfUpto(log, k, at);
    UptoAreKept(legs, at);
    KeptArePicked(log, k, test);
    hide Balance, Replay, LegsOf, Upto, Kept, SumAmt;
    assert Picked(log, k, test) == Through(log, k, at);
  }

  lemma StatementOfLegs(log: seq<Sealed>, k: Key, from: int, to: int, at: u64)
    requires Ordered(log)
    ensures StatementAt(Replay(log), k, from, to, at)
         == (|During(log, k, from, to, at)|, SumIfAny(During(log, k, from, to, at), log))
  {
    var legs := LegsOf(log, k);
    var test := (e: Entry) => e.epoch <= at && from <= e.day <= to;
    ReplayIsIndex(log);
    HitsAreKept(legs, from, to, at);
    KeptArePicked(log, k, test);
    hide Replay, LegsOf, Kept, SumAmt;
    assert Picked(log, k, test) == During(log, k, from, to, at);
  }

  // ---------- The report and the desks ----------

  /** The keys with a leg sealed by `at`. */
  ghost predicate Touched(log: seq<Sealed>, k: Key, at: u64) {
    exists p :: p in Places(log) && LegAt(log, p).acct == k.0 && LegAt(log, p).cur == k.1 && log[p.0].epoch <= at
  }

  ghost predicate Reported(report: map<Key, int>, log: seq<Sealed>, at: u64) {
    && (forall k :: k in report <==> Touched(log, k, at))
    && (forall k :: k in report ==> report[k] == SumOver(Through(log, k, at), Moves(log)))
  }

  lemma ReportOfLegs(log: seq<Sealed>, at: u64)
    requires Ordered(log)
    ensures Reported(ReportAt(Replay(log), at), log, at)
  {
    forall k: Key ensures k in ReportAt(Replay(log), at) <==> Touched(log, k, at)
      ensures k in ReportAt(Replay(log), at) ==>
        ReportAt(Replay(log), at)[k] == SumOver(Through(log, k, at), Moves(log))
    {
      ReportOfKey(log, k, at);
    }
    hide Replay, ReportAt, Through, Touched, Moves;
  }

  lemma ReportOfKey(log: seq<Sealed>, k: Key, at: u64)
    requires Ordered(log)
    ensures k in ReportAt(Replay(log), at) <==> Touched(log, k, at)
    ensures k in ReportAt(Replay(log), at) ==>
      ReportAt(Replay(log), at)[k] == SumOver(Through(log, k, at), Moves(log))
  {
    BalanceOfLegs(log, k, at);
    assert k in ReportAt(Replay(log), at) <==> Balance(Replay(log), k, at).Some?;
    hide Replay, Balance;
    if Touched(log, k, at) {
      var p :| p in Places(log) && LegAt(log, p).acct == k.0 && LegAt(log, p).cur == k.1 && log[p.0].epoch <= at;
      assert p in Through(log, k, at);
    }
  }

  /** The keys of a desk in a currency: accounts sixteen apart share a desk. */
  ghost function Booked(report: map<Key, int>, desk: u64, c: u32): set<Key> {
    set k | k in report && k.0 % 16 == desk && k.1 == c
  }

  /** An exposure lists the currencies the desk has a key in, each with its sum. */
  ghost predicate Exposes(exposure: map<u32, int>, report: map<Key, int>, desk: u64) {
    && (forall c: u32 :: c in exposure <==> Booked(report, desk, c) != {})
    && (forall c: u32 :: c in exposure ==> exposure[c] == SumOver(Booked(report, desk, c), report))
  }

  lemma BookedAtDesk(report: map<Key, int>, desk: u64, c: u32)
    ensures InCurrency(AtDesk(report.Keys, desk), c) == Booked(report, desk, c)
    ensures c in DeskView(report, desk) <==> Booked(report, desk, c) != {}
  {
    var at := AtDesk(report.Keys, desk);
    assert InCurrency(at, c) == Booked(report, desk, c);
    if k :| k in at && k.1 == c {
      assert k in Booked(report, desk, c);
    } else {
      assert Booked(report, desk, c) == {};
    }
  }

  lemma DeskOfReport(report: map<Key, int>, desk: u64)
    ensures Exposes(DeskView(report, desk), report, desk)
  {
    forall c: u32 ensures InCurrency(AtDesk(report.Keys, desk), c) == Booked(report, desk, c)
      ensures c in DeskView(report, desk) <==> Booked(report, desk, c) != {}
    {
      BookedAtDesk(report, desk, c);
    }
  }

  // ---------- The ten largest ----------

  /** `top` is the balances of `keys`, largest first, and every other key of the currency has at most as
      much as each of them; there are ten, or all there are. */
  ghost predicate AreLargest(top: seq<int>, keys: seq<Key>, report: map<Key, int>, c: u32) {
    && |top| == |keys| && Distinct(keys)
    && (forall i :: 0 <= i < |keys| ==> keys[i] in report && keys[i].1 == c && top[i] == report[keys[i]])
    && (forall i, j :: 0 <= i < j < |top| ==> top[i] >= top[j])
    && (forall k, i :: k in report && k.1 == c && k !in keys && 0 <= i < |top| ==> report[k] <= top[i])
    && |top| <= 10
    && (|top| < 10 ==> forall k :: k in report && k.1 == c ==> k in keys)
  }

  /** `keys` lists `ks`, and `s` their balances. */
  ghost predicate Lists(keys: seq<Key>, s: seq<int>, ks: set<Key>, b: map<Key, int>) {
    && |keys| == |s| && Distinct(keys) && (forall k :: k in ks <==> k in keys)
    && forall i :: 0 <= i < |keys| ==> keys[i] in b && b[keys[i]] == s[i]
  }

  lemma ListsCons(k: Key, keys: seq<Key>, s: seq<int>, ks: set<Key>, b: map<Key, int>)
    requires k in ks && k in b && Lists(keys, s, ks - {k}, b)
    ensures Lists([k] + keys, [b[k]] + s, ks, b)
  {
  }

  lemma {:induction false} ValuesSize(ks: set<Key>, b: map<Key, int>)
    requires ks <= b.Keys
    ensures |Values(ks, b)| == |ks|
  {
    if ks != {} {
      var k :| k in ks;
      ValuesTake(ks, b, k);
      ValuesSize(ks - {k}, b);
    }
  }

  /** A bag of balances comes from the keys, one for each. */
  lemma {:induction false} KeysBehind(s: seq<int>, ks: set<Key>, b: map<Key, int>) returns (keys: seq<Key>)
    requires ks <= b.Keys && multiset(s) == Values(ks, b)
    ensures Lists(keys, s, ks, b)
  {
    if s == [] {
      ValuesSize(ks, b);
      keys := [];
    } else {
      var k := FirstKey(s, ks, b);
      hide Lists, Values;
      var rest := KeysBehind(s[1..], ks - {k}, b);
      keys := [k] + rest;
      ListsCons(k, rest, s[1..], ks, b);
      assert s == [s[0]] + s[1..];
    }
  }

  lemma FirstKey(s: seq<int>, ks: set<Key>, b: map<Key, int>) returns (k: Key)
    requires s != [] && ks <= b.Keys && multiset(s) == Values(ks, b)
    ensures k in ks && b[k] == s[0] && multiset(s[1..]) == Values(ks - {k}, b)
  {
    assert s == [s[0]] + s[1..];
    assert s[0] in multiset(s);
    k := KeyBehind(s[0], ks, b);
    ValuesTake(ks, b, k);
    hide Values;
    assert multiset(s[1..]) == multiset(s) - multiset{s[0]};
  }

  lemma {:induction false} KeyBehind(x: int, ks: set<Key>, b: map<Key, int>) returns (k: Key)
    requires ks <= b.Keys && x in Values(ks, b)
    ensures k in ks && b[k] == x
    decreases |ks|
  {
    var j :| j in ks && Values(ks, b) == multiset{b[j]} + Values(ks - {j}, b);
    if b[j] == x {
      k := j;
    } else {
      k := KeyBehind(x, ks - {j}, b);
    }
  }

  lemma TopIsLargest(top: seq<int>, report: map<Key, int>, c: u32)
    requires IsTop(top, report, c)
    ensures exists keys :: AreLargest(top, keys, report, c)
  {
    var ks := InCurrency(report.Keys, c);
    var all :| Descending(all) && multiset(all) == Values(ks, report) && top == FirstTen(all);
    var keys := KeysBehind(all, ks, report);
    hide Values;
    assert forall k :: k in ks <==> k in report && k.1 == c;
    LargestFirst(all, keys, report, c);
  }

  lemma LargestFirst(all: seq<int>, keys: seq<Key>, report: map<Key, int>, c: u32)
    requires Descending(all) && |keys| == |all| && Distinct(keys)
    requires forall k :: k in report && k.1 == c <==> k in keys
    requires forall i :: 0 <= i < |keys| ==> keys[i] in report && report[keys[i]] == all[i]
    ensures AreLargest(FirstTen(all), keys[..|FirstTen(all)|], report, c)
  {
    var top := FirstTen(all);
    var first := keys[..|top|];
    forall k | k in report && k.1 == c && k !in first
      ensures |top| == 10 && forall i :: 0 <= i < |top| ==> report[k] <= top[i]
    {
      assert keys == first + keys[|top|..];
      assert k in keys[|top|..];
      var j :| |top| <= j < |keys| && keys[j] == k;
    }
  }

  // ---------- The six answers ----------

  /** **What each answer as of an epoch is**, from the legs of the log: a balance is the sum of the legs of
      its key sealed by then, absent when there is none, and an anchored one looks no further than its own
      epoch; a statement counts and sums those of a period; the extract lists every key touched; a desk's
      exposure and the ten largest are read off it. */
  ghost predicate Answers(answer: Answer, log: seq<Sealed>, q: Query, at: u64) {
    match q
    case Point(k) => answer == BalanceIs(SumIfAny(Through(log, k, at), log))
    case Anchored(k, e) => answer == BalanceIs(SumIfAny(Through(log, k, if e <= at then e else at), log))
    case StatementOf(k, from, to) =>
      answer == StatementIs(|During(log, k, from, to, at)|, SumIfAny(During(log, k, from, to, at), log))
    case Desk(d) =>
      answer.PerCurrency? && exists report :: Reported(report, log, at) && Exposes(answer.exposure, report, d)
    case Top10(c) =>
      answer.Top? && exists report, keys ::
        Reported(report, log, at) && AreLargest(answer.balances, keys, report, c)
    case Extract => answer.ReportIs? && Reported(answer.report, log, at)
  }

  lemma AnswersAreOverLegs(log: seq<Sealed>, q: Query, at: u64)
    requires Ordered(log)
    ensures Answers(ExpectedAt(Replay(log), q, at), log, q, at)
  {
    ReportOfLegs(log, at);
    var report := ReportAt(Replay(log), at);
    hide Replay, ReportAt, Reported, Exposes, AreLargest, SumIfAny, Balance, StatementAt, DeskView, Through, During;
    match q
    case Point(k) => BalanceOfLegs(log, k, at);
    case Anchored(k, e) => BalanceOfLegs(log, k, if e <= at then e else at);
    case StatementOf(k, a, b) => StatementOfLegs(log, k, a, b, at);
    case Desk(d) => DeskOfReport(report, d);
    case Top10(c) => TopIsLargest(TopOf(report, c), report, c);
    case Extract =>
  }
}
