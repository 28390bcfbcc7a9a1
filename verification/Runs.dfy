/** One run of the comparator: the script and its stored answers, and the check on every read. */
module Runs {
  import opened Prelude
  import opened Universe
  import opened ComparatorOracle
  import opened Arms
  import opened Replica

  datatype Op = Read(query: Query, want: Answer) | Write(idx: u64, txn: Txn)

  // ---------- The oracle's answers, computed ----------

  /** Answer a query at the head. */
  method ComputeExpected(o: Oracle, q: Query) returns (a: Answer)
    ensures a == Expected(o.View(), q)
  {
    var view := Index(o.applied, o.byKey, o.head);
    match q {
      case Point(k) => a := BalanceIs(Balance(view, k, o.head));
      case Anchored(k, e) => a := BalanceIs(Balance(view, k, e));
      case StatementOf(k, from, to) =>
        var (n, s) := Statement(view, k, from, to);
        a := StatementIs(n, s);
      case Desk(d) =>
        var m := o.DeskExposure(d);
        a := PerCurrency(m);
      case Top10(c) =>
        var t := o.TopTen(Report(view), c);
        a := Top(t);
      case Extract => a := ReportIs(Report(view));
    }
  }

  /** Answer a query as of an epoch. */
  method ComputeExpectedAt(o: Oracle, q: Query, at: u64) returns (a: Answer)
    ensures a == ExpectedAt(o.View(), q, at)
  {
    var view := Index(o.applied, o.byKey, o.head);
    match q {
      case Point(k) => a := BalanceIs(Balance(view, k, at));
      case Anchored(k, e) => a := BalanceIs(Balance(view, k, if e <= at then e else at));
      case StatementOf(k, from, to) =>
        var (n, s) := StatementAt(view, k, from, to, at);
        a := StatementIs(n, s);
      case Desk(d) =>
        var m := o.DeskExposureAt(d, at);
        a := PerCurrency(m);
      case Top10(c) =>
        var t := o.TopTen(ReportAt(view, at), c);
        a := Top(t);
      case Extract => a := ReportIs(ReportAt(view, at));
    }
  }

  // ---------- The script ----------

  /** The head the runner is tracking before operation `i`: the index of the last write, if any. */
  ghost function HeadAt(start: u64, ops: seq<Op>, i: nat): u64
    requires i <= |ops|
  {
    if i == 0 then start
    else if ops[i - 1].Write? then ops[i - 1].idx else HeadAt(start, ops, i - 1)
  }

  lemma {:induction false} HeadAtPrefix(start: u64, ops: seq<Op>, more: seq<Op>, i: nat)
    requires i <= |ops|
    ensures HeadAt(start, ops + more, i) == HeadAt(start, ops, i)
  {
    if i > 0 {
      HeadAtPrefix(start, ops, more, i - 1);
    }
  }

  /** Every stored answer is what the history says as of the head tracked at its read. */
  ghost predicate AnswersMatch(log: seq<Sealed>, start: u64, ops: seq<Op>) {
    forall i :: 0 <= i < |ops| && ops[i].Read? ==>
      ops[i].want == ExpectedAt(Replay(log), ops[i].query, HeadAt(start, ops, i))
  }

  /** Tracked heads never pass the oracle's. */
  ghost predicate HeadsBounded(start: u64, ops: seq<Op>, head: u64) {
    forall i :: 0 <= i <= |ops| ==> HeadAt(start, ops, i) <= head
  }

  /** Sealing a later transaction changes no answer as of an earlier epoch. */
  lemma LaterWritesDoNotMatter(log: seq<Sealed>, s: Sealed, q: Query, e: u64)
    requires Ordered(log) && Replay(log).head <= s.epoch && e < s.epoch
    ensures ExpectedAt(Replay(log + [s]), q, e) == ExpectedAt(Replay(log), q, e)
  {
    ReplaySnoc(log, s);
    TimeTravelIsTruncatedReplay(log, q, e);
    TimeTravelIsTruncatedReplay(log + [s], q, e);
    assert (log + [s])[..|log + [s]| - 1] == log;
    assert Upto(log + [s], e) == Upto(log, e);
  }

  /** At the head, the answer now is the answer as of now. */
  lemma HeadIsNow(log: seq<Sealed>, q: Query)
    requires Ordered(log)
    ensures Expected(Replay(log), q) == ExpectedAt(Replay(log), q, Replay(log).head)
  {
    ReplayIsIndex(log);
    TimeTravelIsTruncatedReplay(log, q, Replay(log).head);
    UptoAll(log, Replay(log).head);
  }

  /** Writes stand at every `writeEvery`-th place and take the next epoch. */
  ghost predicate WritesInPlace(start: u64, ops: seq<Op>, writeEvery: nat) {
    && (forall i :: 0 <= i < |ops| ==> (ops[i].Write? <==> IsWriteTurn(i, writeEvery)))
    && (forall i :: 0 <= i < |ops| && ops[i].Write? ==> ops[i].idx == HeadAt(start, ops, i) + 1)
  }

  predicate IsWriteTurn(i: nat, writeEvery: nat) {
    writeEvery > 0 && i % writeEvery == writeEvery - 1
  }

  /** A write stands last in each group of `writeEvery`. */
  lemma WriteTurnExactly(i: nat, writeEvery: nat)
    ensures IsWriteTurn(i, writeEvery) <==> exists groups: nat :: writeEvery > 0 && i + 1 == groups * writeEvery
  {
    if IsWriteTurn(i, writeEvery) {
      var q := i / writeEvery;
      assert i + 1 == (q + 1) * writeEvery;
    }
    if groups: nat :| writeEvery > 0 && i + 1 == groups * writeEvery {
      assert i == (groups - 1) * writeEvery + (writeEvery - 1);
      Quotient(i, groups - 1, writeEvery, writeEvery - 1);
    }
  }

  /** What holds of the script so far. */
  ghost predicate Scripted(log: seq<Sealed>, start: u64, ops: seq<Op>, writeEvery: nat) {
    && AnswersMatch(log, start, ops)
    && HeadsBounded(start, ops, Replay(log).head)
    && HeadAt(start, ops, |ops|) == Replay(log).head
    && WritesInPlace(start, ops, writeEvery)
  }

  lemma HeadsUnchanged(start: u64, ops: seq<Op>, op: Op)
    ensures forall i :: 0 <= i <= |ops| ==> HeadAt(start, ops + [op], i) == HeadAt(start, ops, i)
  {
    forall i | 0 <= i <= |ops| ensures HeadAt(start, ops + [op], i) == HeadAt(start, ops, i) {
      HeadAtPrefix(start, ops, [op], i);
    }
  }

  lemma ScriptRead(log: seq<Sealed>, start: u64, ops: seq<Op>, writeEvery: nat, q: Query)
    requires Ordered(log) && Scripted(log, start, ops, writeEvery) && !IsWriteTurn(|ops|, writeEvery)
    ensures Scripted(log, start, ops + [Read(q, Expected(Replay(log), q))], writeEvery)
  {
    hide IsWriteTurn, Expected, ExpectedAt, Replay, Ordered, AnswersMatch, HeadsBounded, WritesInPlace, HeadAt;
    var op := Read(q, Expected(Replay(log), q));
    HeadIsNow(log, q);
    ReadKeepsAnswers(log, start, ops, op);
    HeadsSnoc(start, ops, op, Replay(log).head, Replay(log).head);
    WritesSnoc(start, ops, op, writeEvery);
  }

  lemma ReadKeepsAnswers(log: seq<Sealed>, start: u64, ops: seq<Op>, op: Op)
    requires AnswersMatch(log, start, ops) && op.Read?
    requires op.want == ExpectedAt(Replay(log), op.query, HeadAt(start, ops, |ops|))
    ensures AnswersMatch(log, start, ops + [op])
  {
    hide ExpectedAt, Replay, HeadAt;
    HeadsUnchanged(start, ops, op);
  }

  /** The head tracked after one more operation. */
  lemma HeadsSnoc(start: u64, ops: seq<Op>, op: Op, head: u64, next: u64)
    requires HeadsBounded(start, ops, head) && HeadAt(start, ops, |ops|) == head
    requires head <= next && next == if op.Write? then op.idx else head
    ensures HeadsBounded(start, ops + [op], next) && HeadAt(start, ops + [op], |ops| + 1) == next
  {
    HeadsUnchanged(start, ops, op);
  }

  lemma WritesSnoc(start: u64, ops: seq<Op>, op: Op, writeEvery: nat)
    requires WritesInPlace(start, ops, writeEvery) && (op.Write? <==> IsWriteTurn(|ops|, writeEvery))
    requires op.Write? ==> op.idx == HeadAt(start, ops, |ops|) + 1
    ensures WritesInPlace(start, ops + [op], writeEvery)
  {
    hide IsWriteTurn, HeadAt;
    HeadsUnchanged(start, ops, op);
  }

  lemma ScriptWrite(log: seq<Sealed>, start: u64, ops: seq<Op>, writeEvery: nat, t: Txn)
    requires Ordered(log) && Scripted(log, start, ops, writeEvery) && IsWriteTurn(|ops|, writeEvery)
    requires Replay(log).head < 0xFFFF_FFFF_FFFF_FFFF
    ensures var idx := Replay(log).head + 1;
            Scripted(log + [Sealed(idx, t)], start, ops + [Write(idx, t)], writeEvery)
  {
    hide IsWriteTurn, Ordered, AnswersMatch, Replay, HeadsBounded, WritesInPlace, HeadAt;
    var idx := Replay(log).head + 1;
    ReplaySnoc(log, Sealed(idx, t));
    WriteKeepsAnswers(log, start, ops, idx, t);
    HeadsSnoc(start, ops, Write(idx, t), Replay(log).head, idx);
    WritesSnoc(start, ops, Write(idx, t), writeEvery);
    assert Replay(log + [Sealed(idx, t)]).head == idx;
  }

  lemma WriteKeepsAnswers(log: seq<Sealed>, start: u64, ops: seq<Op>, idx: u64, t: Txn)
    requires Ordered(log) && AnswersMatch(log, start, ops) && HeadsBounded(start, ops, Replay(log).head)
    requires Replay(log).head < idx
    ensures AnswersMatch(log + [Sealed(idx, t)], start, ops + [Write(idx, t)])
  {
    hide ExpectedAt, Ordered, Replay;
    var s, after := Sealed(idx, t), ops + [Write(idx, t)];
    HeadsUnchanged(start, ops, Write(idx, t));
    forall i | 0 <= i < |after| && after[i].Read?
      ensures after[i].want == ExpectedAt(Replay(log + [s]), after[i].query, HeadAt(start, after, i))
    {
      LaterWritesDoNotMatter(log, s, ops[i].query, HeadAt(start, ops, i));
    }
  }

  /** **The answer stored for each read is the finished history's answer as of the head the runner will
      be tracking there.** Queries and transfers are whatever was drawn. */
  method BuildScript(o: Oracle, count: nat, writeEvery: nat, queries: nat -> Query, txns: nat -> Txn)
    returns (ops: seq<Op>)
    requires o.Valid() && o.head + count < 0x1_0000_0000_0000_0000
    modifies o
    ensures o.Valid() && |ops| == count
    ensures AnswersMatch(o.applied, old(o.head), ops)
    ensures HeadAt(old(o.head), ops, |ops|) == o.head
    ensures WritesInPlace(old(o.head), ops, writeEvery)
  {
    hide Replay, Ordered, Scripted, Expected, AnswersMatch, HeadAt, WritesInPlace;
    ghost var start := o.head;
    ops := [];
    ScriptStart(o.applied, writeEvery);
    for i := 0 to count
      invariant o.Valid() && |ops| == i && start <= o.head <= start + i
      invariant Scripted(o.applied, start, ops, writeEvery)
    {
      if writeEvery > 0 && i % writeEvery == writeEvery - 1 {
        var idx: u64 := o.head + 1;
        var t := txns(i);
        ScriptWrite(o.applied, start, ops, writeEvery, t);
        o.Apply(idx, t);
        ops := ops + [Write(idx, t)];
      } else {
        var a := ComputeExpected(o, queries(i));
        ScriptRead(o.applied, start, ops, writeEvery, queries(i));
        ops := ops + [Read(queries(i), a)];
      }
    }
    ScriptDone(o.applied, start, ops, writeEvery);
  }

  lemma ScriptStart(log: seq<Sealed>, writeEvery: nat)
    ensures Scripted(log, Replay(log).head, [], writeEvery)
  {
  }

  lemma ScriptDone(log: seq<Sealed>, start: u64, ops: seq<Op>, writeEvery: nat)
    requires Scripted(log, start, ops, writeEvery)
    ensures AnswersMatch(log, start, ops) && HeadAt(start, ops, |ops|) == Replay(log).head
    ensures WritesInPlace(start, ops, writeEvery)
  {
  }

  /** One concurrent client's reads: the drawn queries, each with its answer as of the head. */
  ghost predicate IsClient(o: Index, ops: seq<Op>, level: nat, client: nat, queries: (nat, nat, nat) -> Query) {
    forall i :: 0 <= i < |ops| ==>
      ops[i] == Read(queries(level, client, i), ExpectedAt(o, queries(level, client, i), o.head))
  }

  ghost predicate AreClients(
    o: Index, clients: seq<seq<Op>>, level: nat, count: nat, queries: (nat, nat, nat) -> Query)
  {
    forall k :: 0 <= k < |clients| ==> |clients[k]| == count && IsClient(o, clients[k], level, k, queries)
  }

  /** As many clients as the level says. */
  ghost predicate IsLevel(
    o: Index, conc: (nat, seq<seq<Op>>), level: nat, width: nat, count: nat, queries: (nat, nat, nat) -> Query)
  {
    conc.0 == width == |conc.1| && AreClients(o, conc.1, level, count, queries)
  }

  /** The concurrent part of a script: for each level as many clients, each with `count` reads. **Every stored
      answer is the history's as of the head the mixed part ends at**, where all of them are read. */
  method BuildConcurrent(o: Oracle, levels: seq<nat>, count: nat, queries: (nat, nat, nat) -> Query)
    returns (conc: seq<(nat, seq<seq<Op>>)>)
    requires o.Valid()
    ensures |conc| == |levels|
    ensures forall l :: 0 <= l < |levels| ==> IsLevel(o.View(), conc[l], l, levels[l], count, queries)
  {
    hide Expected, ExpectedAt, IsClient, AreClients;
    conc := [];
    for l := 0 to |levels|
      invariant |conc| == l
      invariant forall j :: 0 <= j < l ==> IsLevel(o.View(), conc[j], j, levels[j], count, queries)
    {
      var clients := BuildLevel(o, l, levels[l], count, queries);
      conc := conc + [(levels[l], clients)];
    }
  }

  method BuildLevel(o: Oracle, level: nat, width: nat, count: nat, queries: (nat, nat, nat) -> Query)
    returns (clients: seq<seq<Op>>)
    requires o.Valid()
    ensures |clients| == width && AreClients(o.View(), clients, level, count, queries)
  {
    hide Expected, ExpectedAt, IsClient;
    clients := [];
    for k := 0 to width
      invariant |clients| == k && AreClients(o.View(), clients, level, count, queries)
    {
      var ops := BuildClient(o, level, k, count, queries);
      clients := clients + [ops];
    }
  }

  method BuildClient(o: Oracle, level: nat, client: nat, count: nat, queries: (nat, nat, nat) -> Query)
    returns (ops: seq<Op>)
    requires o.Valid()
    ensures |ops| == count && IsClient(o.View(), ops, level, client, queries)
  {
    hide Expected, ExpectedAt;
    ops := [];
    for i := 0 to count
      invariant |ops| == i && IsClient(o.View(), ops, level, client, queries)
    {
      var q := queries(level, client, i);
      var a := ComputeExpected(o, q);
      HeadIsNow(o.applied, q);
      ops := ops + [Read(q, a)];
    }
  }

  // ---------- Checking a reply ----------

  /** What came back: an answer, a reply that does not parse, or an error. */
  datatype Reply = Parsed(answer: Answer) | Unparseable | Failed

  datatype Counts = Counts(count: nat, stale: nat, staleLagMax: nat, inexact: nat, bracketed: nat)

  function Larger(a: nat, b: nat): nat {
    if a >= b then a else b
  }

  /** The latest epoch in `must..=hi` whose answer is `a`. */
  ghost function LatestMatch(o: Index, q: Query, a: Answer, must: u64, hi: u64): (m: Option<u64>)
    ensures m.Some? ==> must <= m.value <= hi && ExpectedAt(o, q, m.value) == a
    decreases hi
  {
    if hi < must then None
    else if ExpectedAt(o, q, hi) == a then Some(hi)
    else if hi == 0 then None else LatestMatch(o, q, a, must, hi - 1)
  }

  lemma {:induction false} LatestMatchIsLatest(o: Index, q: Query, a: Answer, must: u64, hi: u64)
    ensures var m := LatestMatch(o, q, a, must, hi);
            forall e: u64 :: must <= e <= hi && ExpectedAt(o, q, e) == a ==> m.Some? && e <= m.value
    decreases hi
  {
    hide ExpectedAt;
    if must <= hi && ExpectedAt(o, q, hi) != a && hi > 0 {
      LatestMatchIsLatest(o, q, a, must, hi - 1);
    }
  }

  /** How a reply is counted: fresh, stale within its bracket, or a divergence. */
  ghost function Classified(
    o: Index, q: Query, want: Answer, head: u64, got: Reply, bracket: Option<(u64, u64)>, c: Counts): Counts
  {
    var d := if bracket.Some? then c.(bracketed := c.bracketed + 1) else c;
    if got == Parsed(want) then d
    else if !got.Parsed? then d.(count := d.count + 1)
    else if bracket.None? then d.(count := d.count + 1)
    else
      var (must, may) := bracket.value;
      var m := LatestMatch(o, q, got.answer, must, if may <= head then may else head);
      if m.Some? then d.(stale := d.stale + 1, staleLagMax := Larger(d.staleLagMax, head - m.value))
      else d.(inexact := d.inexact + 1, count := d.count + 1)
  }

  /** Search a bracket from its latest epoch down. */
  method SearchBracket(o: Oracle, q: Query, a: Answer, must: u64, hi: u64) returns (m: Option<u64>)
    ensures m == LatestMatch(o.View(), q, a, must, hi)
  {
    hide ExpectedAt;
    var e: int := hi;
    while e >= must
      invariant -1 <= e <= hi
      invariant LatestMatch(o.View(), q, a, must, hi) == if e >= 0 then LatestMatch(o.View(), q, a, must, e) else None
    {
      var x := ComputeExpectedAt(o, q, e);
      if x == a {
        return Some(e);
      }
      e := e - 1;
    }
    return None;
  }

  method ClassifyRead(
    o: Oracle, q: Query, want: Answer, head: u64, got: Reply, bracket: Option<(u64, u64)>, c0: Counts)
    returns (c: Counts)
    ensures c == Classified(o.View(), q, want, head, got, bracket, c0)
  {
    hide ExpectedAt, LatestMatch;
    c := c0;
    if bracket.Some? {
      c := c.(bracketed := c.bracketed + 1);
    }
    match got {
      case Parsed(a) =>
        if a != want {
          var m: Option<u64> := None;
          if bracket.Some? {
            var (must, may) := bracket.value;
            m := SearchBracket(o, q, a, must, if may <= head then may else head);
          }
          if m.Some? {
            c := c.(stale := c.stale + 1, staleLagMax := Larger(c.staleLagMax, head - m.value));
          } else {
            if bracket.Some? {
              c := c.(inexact := c.inexact + 1);
            }
            c := c.(count := c.count + 1);
          }
        }
      case Unparseable => c := c.(count := c.count + 1);
      case Failed => c := c.(count := c.count + 1);
    }
  }

  /** The reply is the answer stored, or the history's at an epoch of its bracket up to the head. */
  ghost predicate Passes(
    o: Index, q: Query, want: Answer, head: u64, got: Reply, bracket: Option<(u64, u64)>)
  {
    got == Parsed(want) || (bracket.Some? && got.Parsed? && exists e: u64 :: MatchesAt(o, q, head, got, bracket, e))
  }

  ghost predicate MatchesAt(o: Index, q: Query, head: u64, got: Reply, bracket: Option<(u64, u64)>, e: u64) {
    && bracket.Some? && got.Parsed?
    && bracket.value.0 <= e <= bracket.value.1 && e <= head && ExpectedAt(o, q, e) == got.answer
  }

  /** What a reply can be counted as. */
  datatype Outcome = Wrong | Inexact | Stale | Bracketed

  ghost predicate Falls(
    outcome: Outcome, o: Index, q: Query, want: Answer, head: u64, got: Reply, bracket: Option<(u64, u64)>)
  {
    match outcome
    case Wrong => !Passes(o, q, want, head, got, bracket)
    case Inexact => !Passes(o, q, want, head, got, bracket) && bracket.Some? && got.Parsed?
    case Stale => Passes(o, q, want, head, got, bracket) && got != Parsed(want)
    case Bracketed => bracket.Some?
  }

  /** A stale reply is behind the head by its distance from the latest epoch it matches. */
  ghost predicate Lags(
    lag: nat, o: Index, q: Query, want: Answer, head: u64, got: Reply, bracket: Option<(u64, u64)>)
  {
    Falls(Stale, o, q, want, head, got, bracket) &&
    exists e: u64 ::
      && MatchesAt(o, q, head, got, bracket, e) && lag == head - e
      && forall f: u64 :: MatchesAt(o, q, head, got, bracket, f) ==> f <= e
  }

  /** **Exactly what is counted**: a divergence for a reply that does not pass, inexact when it could have
      been for an epoch of a bracket, and stale, with the lag of the latest matching epoch, when it passes
      without being the answer stored. */
  lemma CountedExactlyWhen(
    o: Index, q: Query, want: Answer, head: u64, got: Reply, bracket: Option<(u64, u64)>, c: Counts)
    ensures var d := Classified(o, q, want, head, got, bracket, c);
      && d.count == c.count + (if Falls(Wrong, o, q, want, head, got, bracket) then 1 else 0)
      && d.inexact == c.inexact + (if Falls(Inexact, o, q, want, head, got, bracket) then 1 else 0)
      && d.stale == c.stale + (if Falls(Stale, o, q, want, head, got, bracket) then 1 else 0)
      && d.bracketed == c.bracketed + (if Falls(Bracketed, o, q, want, head, got, bracket) then 1 else 0)
      && (!Falls(Stale, o, q, want, head, got, bracket) ==> d.staleLagMax == c.staleLagMax)
      && (Falls(Stale, o, q, want, head, got, bracket) ==> exists lag: nat ::
            && Lags(lag, o, q, want, head, got, bracket)
            && d.staleLagMax == if lag > c.staleLagMax then lag else c.staleLagMax)
  {
    hide ExpectedAt, LatestMatch;
    if got != Parsed(want) && got.Parsed? && bracket.Some? {
      var hi := if bracket.value.1 <= head then bracket.value.1 else head;
      LatestMatchIsLatest(o, q, got.answer, bracket.value.0, hi);
      var m := LatestMatch(o, q, got.answer, bracket.value.0, hi);
      if m.Some? {
        assert MatchesAt(o, q, head, got, bracket, m.value);
        assert Lags(head - m.value, o, q, want, head, got, bracket);
      }
    }
  }

  lemma OneLag(
    m: nat, n: nat, o: Index, q: Query, want: Answer, head: u64, got: Reply, bracket: Option<(u64, u64)>)
    requires Lags(m, o, q, want, head, got, bracket) && Lags(n, o, q, want, head, got, bracket)
    ensures m == n
  {
    hide MatchesAt, Falls;
  }

  /** **An exact answer is never counted wrong**: if it is the history's answer at an epoch in its
      bracket, it is fresh or stale, and its lag is at most the head's distance from that epoch, so at
      most its distance from the epoch surely applied. */
  lemma ExactAnswersAreNotDivergences(
    o: Index, q: Query, want: Answer, head: u64, bracket: (u64, u64), e: u64, c: Counts)
    requires bracket.0 <= e <= bracket.1 && e <= head
    ensures var d := Classified(o, q, want, head, Parsed(ExpectedAt(o, q, e)), Some(bracket), c);
            && d.count == c.count && d.inexact == c.inexact
            && d.staleLagMax <= Larger(c.staleLagMax, head - e)
            && head - e <= head - bracket.0
  {
    hide ExpectedAt, LatestMatch;
    var hi := if bracket.1 <= head then bracket.1 else head;
    LatestMatchIsLatest(o, q, ExpectedAt(o, q, e), bracket.0, hi);
  }

  /** **And only a wrong answer is counted inexact**: one that is the history's at no epoch in its
      bracket up to the head, and is not the answer stored. */
  lemma InexactExactlyWhen(
    o: Index, q: Query, want: Answer, head: u64, a: Answer, bracket: (u64, u64), c: Counts)
    ensures var d := Classified(o, q, want, head, Parsed(a), Some(bracket), c);
            d.inexact == c.inexact + 1 <==>
              a != want && forall e: u64 :: bracket.0 <= e <= bracket.1 && e <= head ==> ExpectedAt(o, q, e) != a
  {
    var hi := if bracket.1 <= head then bracket.1 else head;
    LatestMatchIsLatest(o, q, a, bracket.0, hi);
  }

  /** What a replica that has applied the log up to position `at` holds: what was loaded, and the measured
      writes committed by then. */
  ghost function Visible(txns: seq<Sealed>, commits: map<u64, u64>, loadedHead: u64, at: u64): seq<Sealed> {
    if txns == [] then []
    else
      var last := txns[|txns| - 1];
      Visible(txns[..|txns| - 1], commits, loadedHead, at)
      + if last.epoch <= loadedHead || AppliedAt(commits, last.epoch, at) then [last] else []
  }

  lemma {:induction false} VisibleIsPrefix(
    txns: seq<Sealed>, commits: map<u64, u64>, loadedHead: u64, at: u64, epoch: u64)
    requires loadedHead <= epoch
    requires forall i: u64 :: i > loadedHead ==> (AppliedAt(commits, i, at) <==> i <= epoch)
    ensures Visible(txns, commits, loadedHead, at) == Upto(txns, epoch)
  {
    hide AppliedAt;
    if txns != [] {
      VisibleIsPrefix(txns[..|txns| - 1], commits, loadedHead, at, epoch);
    }
  }

  /** **The bracket and the check, together**: a read that finishes in any run of the replica protocol,
      answered from the transactions its replica had applied, is never a divergence against the whole
      history `txns`, whatever is written meanwhile or later. */
  lemma ReplicaReadsAreNotDivergences(
    log: u64, loadedHead: u64, events: seq<Event>, txns: seq<Sealed>, q: Query, want: Answer, head: u64, c: Counts)
    requires log < MAX_U64 && IsRun(log, loadedHead, events) && Ordered(txns)
    requires After(log, loadedHead, events).reader.Finished? && After(log, loadedHead, events).last <= head
    ensures var s := After(log, loadedHead, events);
            var bracket := Bracket(s.positions, loadedHead, s.reader.lo, s.reader.hi);
            var got := Expected(Replay(Visible(txns, s.commits, loadedHead, s.reader.at)), q);
            var d := Classified(Replay(txns), q, want, head, Parsed(got), Some(bracket), c);
            got == ExpectedAt(Replay(txns), q, s.reader.epoch)
            && d.count == c.count && d.inexact == c.inexact
            && bracket.0 <= head && d.staleLagMax <= Larger(c.staleLagMax, head - bracket.0)
  {
    var s := After(log, loadedHead, events);
    hide IsRun, After, Bracket, Classified, Expected, ExpectedAt, Replay, Ordered, Visible, Upto;
    ReplicaSees(log, loadedHead, events, txns);
    TimeTravelIsTruncatedReplay(txns, q, s.reader.epoch);
    var bracket := Bracket(s.positions, loadedHead, s.reader.lo, s.reader.hi);
    ExactAnswersAreNotDivergences(Replay(txns), q, want, head, bracket, s.reader.epoch, c);
  }

  /** A finished read saw the history up to its epoch, which lies in its bracket. */
  lemma ReplicaSees(log: u64, loadedHead: u64, events: seq<Event>, txns: seq<Sealed>)
    requires log < MAX_U64 && IsRun(log, loadedHead, events) && After(log, loadedHead, events).reader.Finished?
    ensures var s := After(log, loadedHead, events);
            var bracket := Bracket(s.positions, loadedHead, s.reader.lo, s.reader.hi);
            && bracket.0 <= s.reader.epoch <= bracket.1 && s.reader.epoch <= s.last
            && Visible(txns, s.commits, loadedHead, s.reader.at) == Upto(txns, s.reader.epoch)
  {
    var s := After(log, loadedHead, events);
    hide IsRun, After, Bracket, Visible, Upto, AppliedAt;
    BracketIsSound(log, loadedHead, events);
    VisibleIsPrefix(txns, s.commits, loadedHead, s.reader.at, s.reader.epoch);
  }

  // ---------- One arm, one script ----------

  /** A supported read answered honestly: at the head, or at an epoch in its bracket. */
  ghost predicate HonestAt(
    o: Index, start: u64, ops: seq<Op>, replies: seq<Reply>, brackets: seq<Option<(u64, u64)>>, i: nat)
    requires i < |ops| == |replies| == |brackets| && ops[i].Read?
  {
    var head := HeadAt(start, ops, i);
    match brackets[i]
    case None => replies[i] == Parsed(ExpectedAt(o, ops[i].query, head))
    case Some(b) =>
      exists e: u64 :: b.0 <= e <= b.1 && e <= head && replies[i] == Parsed(ExpectedAt(o, ops[i].query, e))
  }

  ghost predicate Honest(
    o: Index, start: u64, ops: seq<Op>, supports: Query -> bool,
    replies: seq<Reply>, brackets: seq<Option<(u64, u64)>>)
    requires |ops| == |replies| == |brackets|
  {
    forall i :: 0 <= i < |ops| && ops[i].Read? && supports(ops[i].query) ==>
      HonestAt(o, start, ops, replies, brackets, i)
  }

  lemma HonestIsClean(
    o: Oracle, start: u64, ops: seq<Op>, replies: seq<Reply>, brackets: seq<Option<(u64, u64)>>, i: nat, c: Counts)
    requires o.Valid() && i < |ops| == |replies| == |brackets| && ops[i].Read?
    requires AnswersMatch(o.applied, start, ops) && HonestAt(o.View(), start, ops, replies, brackets, i)
    ensures var d := Classified(o.View(), ops[i].query, ops[i].want, HeadAt(start, ops, i), replies[i], brackets[i], c);
            d.count == c.count && d.inexact == c.inexact
  {
    var q, want, head := ops[i].query, ops[i].want, HeadAt(start, ops, i);
    if brackets[i].Some? {
      var b := brackets[i].value;
      var e: u64 :| b.0 <= e <= b.1 && e <= head && replies[i] == Parsed(ExpectedAt(o.View(), q, e));
      ExactAnswersAreNotDivergences(o.View(), q, want, head, b, e, c);
    }
  }

  /** How many of the first `n` operations are supported reads whose replies fall so. */
  ghost function HowMany(
    outcome: Outcome, o: Index, start: u64, ops: seq<Op>, supports: Query -> bool,
    replies: seq<Reply>, brackets: seq<Option<(u64, u64)>>, n: nat): nat
    requires n <= |ops| == |replies| == |brackets|
  {
    if n == 0 then 0
    else
      HowMany(outcome, o, start, ops, supports, replies, brackets, n - 1)
      + if ops[n - 1].Read? && supports(ops[n - 1].query)
           && Falls(outcome, o, ops[n - 1].query, ops[n - 1].want, HeadAt(start, ops, n - 1), replies[n - 1], brackets[n - 1])
        then 1 else 0
  }

  /** The i-th operation is a supported read whose reply is stale by `lag`. */
  ghost predicate LagsAt(
    lag: nat, o: Index, start: u64, ops: seq<Op>, supports: Query -> bool,
    replies: seq<Reply>, brackets: seq<Option<(u64, u64)>>, i: nat)
    requires i < |ops| == |replies| == |brackets|
  {
    && ops[i].Read? && supports(ops[i].query)
    && Lags(lag, o, ops[i].query, ops[i].want, HeadAt(start, ops, i), replies[i], brackets[i])
  }

  /** The greatest lag among the first `n` operations; zero when none is stale. */
  ghost predicate IsWorstLag(
    worst: nat, o: Index, start: u64, ops: seq<Op>, supports: Query -> bool,
    replies: seq<Reply>, brackets: seq<Option<(u64, u64)>>, n: nat)
    requires n <= |ops| == |replies| == |brackets|
  {
    && (forall i: nat, lag: nat :: i < n && LagsAt(lag, o, start, ops, supports, replies, brackets, i) ==> lag <= worst)
    && (worst == 0 || exists i: nat :: i < n && LagsAt(worst, o, start, ops, supports, replies, brackets, i))
  }

  lemma WorstLagStep(
    c: Counts, d: Counts, o: Index, start: u64, ops: seq<Op>, supports: Query -> bool,
    replies: seq<Reply>, brackets: seq<Option<(u64, u64)>>, n: nat)
    requires n < |ops| == |replies| == |brackets|
    requires IsWorstLag(c.staleLagMax, o, start, ops, supports, replies, brackets, n)
    requires if ops[n].Read? && supports(ops[n].query)
             then d == Classified(o, ops[n].query, ops[n].want, HeadAt(start, ops, n), replies[n], brackets[n], c)
             else d == c
    ensures IsWorstLag(d.staleLagMax, o, start, ops, supports, replies, brackets, n + 1)
  {
    hide Classified, Lags, Falls;
    if ops[n].Read? && supports(ops[n].query) {
      var q, want, head := ops[n].query, ops[n].want, HeadAt(start, ops, n);
      CountedExactlyWhen(o, q, want, head, replies[n], brackets[n], c);
      forall lag: nat | Lags(lag, o, q, want, head, replies[n], brackets[n])
        ensures Falls(Stale, o, q, want, head, replies[n], brackets[n]) && lag <= d.staleLagMax
      {
        LagIsStale(lag, o, q, want, head, replies[n], brackets[n]);
        var l: nat :| Lags(l, o, q, want, head, replies[n], brackets[n])
          && d.staleLagMax == if l > c.staleLagMax then l else c.staleLagMax;
        OneLag(lag, l, o, q, want, head, replies[n], brackets[n]);
      }
      if Falls(Stale, o, q, want, head, replies[n], brackets[n]) {
        var l: nat :| Lags(l, o, q, want, head, replies[n], brackets[n])
          && d.staleLagMax == if l > c.staleLagMax then l else c.staleLagMax;
        assert LagsAt(l, o, start, ops, supports, replies, brackets, n);
      }
    }
  }

  lemma LagIsStale(
    lag: nat, o: Index, q: Query, want: Answer, head: u64, got: Reply, bracket: Option<(u64, u64)>)
    requires Lags(lag, o, q, want, head, got, bracket)
    ensures Falls(Stale, o, q, want, head, got, bracket)
  {
  }

  /** **An arm's divergences are its supported reads that do not pass**, each judged against the head the
      writes before it have reached; so an honest arm finishes a script without one. */
  method RunArm(
    o: Oracle, start: u64, ops: seq<Op>, supports: Query -> bool,
    replies: seq<Reply>, brackets: seq<Option<(u64, u64)>>)
    returns (head: u64, c: Counts)
    requires |ops| == |replies| == |brackets|
    ensures head == HeadAt(start, ops, |ops|)
    ensures c.count == HowMany(Wrong, o.View(), start, ops, supports, replies, brackets, |ops|)
    ensures c.inexact == HowMany(Inexact, o.View(), start, ops, supports, replies, brackets, |ops|)
    ensures c.stale == HowMany(Stale, o.View(), start, ops, supports, replies, brackets, |ops|)
    ensures c.bracketed == HowMany(Bracketed, o.View(), start, ops, supports, replies, brackets, |ops|)
    ensures IsWorstLag(c.staleLagMax, o.View(), start, ops, supports, replies, brackets, |ops|)
    ensures o.Valid() && AnswersMatch(o.applied, start, ops) && Honest(o.View(), start, ops, supports, replies, brackets)
      ==> c.count == 0 && c.inexact == 0
  {
    hide Classified, AnswersMatch, HonestAt, Falls, LagsAt;
    head := start;
    c := Counts(0, 0, 0, 0, 0);
    ghost var clean := o.Valid() && AnswersMatch(o.applied, start, ops)
      && Honest(o.View(), start, ops, supports, replies, brackets);
    for i := 0 to |ops|
      invariant head == HeadAt(start, ops, i)
      invariant c.count == HowMany(Wrong, o.View(), start, ops, supports, replies, brackets, i)
      invariant c.inexact == HowMany(Inexact, o.View(), start, ops, supports, replies, brackets, i)
      invariant c.stale == HowMany(Stale, o.View(), start, ops, supports, replies, brackets, i)
      invariant c.bracketed == HowMany(Bracketed, o.View(), start, ops, supports, replies, brackets, i)
      invariant IsWorstLag(c.staleLagMax, o.View(), start, ops, supports, replies, brackets, i)
      invariant clean ==> c.count == 0 && c.inexact == 0
    {
      ghost var before := c;
      match ops[i] {
        case Read(q, want) =>
          if supports(q) {
            if clean {
              HonestIsClean(o, start, ops, replies, brackets, i, c);
            }
            CountedExactlyWhen(o.View(), q, want, head, replies[i], brackets[i], c);
            c := ClassifyRead(o, q, want, head, replies[i], brackets[i], c);
          }
        case Write(idx, _) => head := idx;
      }
      WorstLagStep(before, c, o.View(), start, ops, supports, replies, brackets, i);
    }
  }
}
