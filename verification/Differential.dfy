/** The comparison harness: an oracle of its own, and whatever a system replied to each read. */
module Differential {
  import opened Prelude
  import opened Chain
  import opened ReferenceOracle
  import opened Schedules
  import opened FaultCampaigns

  datatype Unavailable = BeyondFrontier | Refused(reason: string)

  datatype Answer = Answer(value: int, anchor: u64)

  /** What a system says to one read. */
  type Reply = Result<Answer, Unavailable>

  datatype Divergence = Divergence(acct: u64, cur: u32, anchor: u64, oracle: int, system: Reply)

  datatype Report = Report(compared: nat, divergences: seq<Divergence>)

  /** A right reply: it may be newer than asked, never older, and has the oracle's value for the anchor it
      names. */
  predicate Acceptable(epochs: seq<EpochRec>, op: Op, reply: Reply)
    requires op.Read?
  {
    && reply.Ok?
    && reply.value.anchor >= op.anchor
    && reply.value.value == LedgerBalance(epochs, op.acct, op.cur, reply.value.anchor)
  }

  function DivergenceOf(epochs: seq<EpochRec>, op: Op, reply: Reply): Divergence
    requires op.Read?
  {
    Divergence(op.acct, op.cur, op.anchor, LedgerBalance(epochs, op.acct, op.cur, op.anchor), reply)
  }

  /** What the harness reports: one entry per wrong reply, in order. */
  ghost function Diverging(hash: Hash, s: State, ops: seq<Op>, replies: seq<Reply>): seq<Divergence>
    requires AllRepresentable(ops) && |replies| == |Reads(ops)|
    decreases |ops|
  {
    if ops == [] then []
    else if !ops[0].Read? then Diverging(hash, Exec(hash, s, ops[0]), ops[1..], replies)
    else
      (if Acceptable(s.epochs, ops[0], replies[0]) then [] else [DivergenceOf(s.epochs, ops[0], replies[0])])
      + Diverging(hash, s, ops[1..], replies[1..])
  }

  /** The oracle's side of one operation: openings, transfers and replays are submitted. */
  method Apply(oracle: Oracle, op: Op)
    requires Representable(op)
    modifies oracle
    ensures oracle.View() == Exec(oracle.hash, old(oracle.View()), op)
  {
    match op {
      case Open(accounts, cur, each) =>
        var rows := OpeningRows(accounts, cur, each);
        var _ := oracle.Submit(OPEN_KEY, rows);
      case Submit(key, from, to, cur, amt) =>
        var _ := oracle.Submit(key, Transfer(from, to, cur, amt));
      case Duplicate(key) =>
        var _ := oracle.Submit(key, []);
      case _ =>
    }
  }

  /** **The harness's report, for any system**: it compares every read, once, in order, against a
      history the system cannot reach. `replies` are whatever the system answered. */
  method RunDifferential(hash: Hash, ops: seq<Op>, replies: seq<Reply>) returns (report: Report)
    requires AllRepresentable(ops) && |replies| == |Reads(ops)|
    ensures report.compared == |Reads(ops)|
    ensures report.divergences == Diverging(hash, INIT, ops, replies)
  {
    hide Exec, Acceptable, DivergenceOf, Reads, Diverging;
    var oracle := new Oracle(hash);
    var divergences: seq<Divergence> := [];
    var compared: nat := 0;
    var left := replies;
    NothingLeft(hash, oracle.View(), ops);
    for i := 0 to |ops|
      invariant fresh(oracle) && oracle.hash == hash
      invariant |left| == |Reads(ops[i..])| && compared + |left| == |Reads(ops)|
      invariant divergences + Diverging(hash, oracle.View(), ops[i..], left)
             == Diverging(hash, INIT, ops, replies)
    {
      var op := ops[i];
      assert ops[i..] == [op] + ops[i + 1..];
      DivergingStep(hash, oracle.View(), op, ops[i + 1..], left);
      if op.Read? {
        var got := left[0];
        compared := compared + 1;
        if !Acceptable(oracle.epochs, op, got) {
          divergences := divergences + [DivergenceOf(oracle.epochs, op, got)];
        }
        left := left[1..];
      } else {
        Apply(oracle, op);
      }
    }
    NothingLeft(hash, oracle.View(), ops);
    report := Report(compared, divergences);
  }

  lemma NothingLeft(hash: Hash, s: State, ops: seq<Op>)
    ensures ops[|ops|..] == [] && Reads(ops[|ops|..]) == [] && Diverging(hash, s, ops[|ops|..], []) == []
    ensures ops[0..] == ops
  {
  }

  lemma DivergingStep(hash: Hash, s: State, op: Op, tail: seq<Op>, replies: seq<Reply>)
    requires AllRepresentable([op] + tail) && |replies| == |Reads([op] + tail)|
    ensures AllRepresentable(tail)
    ensures Reads([op] + tail) == (if op.Read? then [op] else []) + Reads(tail)
    ensures !op.Read? ==>
      Diverging(hash, s, [op] + tail, replies) == Diverging(hash, Exec(hash, s, op), tail, replies)
    ensures op.Read? ==>
      (var wrong := if Acceptable(s.epochs, op, replies[0]) then [] else [DivergenceOf(s.epochs, op, replies[0])];
       Diverging(hash, s, [op] + tail, replies) == wrong + Diverging(hash, s, tail, replies[1..]))
  {
    hide Exec, Acceptable, DivergenceOf;
    var ops := [op] + tail;
    assert ops[0] == op && ops[1..] == tail;
    assert forall i :: 0 <= i < |tail| ==> tail[i] == ops[i + 1];
  }

  /** The read at position `i` was answered at all, at an anchor no older than the one it asks for, with
      the balance the history sealed by then gives there. */
  ghost predicate RightAt(hash: Hash, s: State, ops: seq<Op>, replies: seq<Reply>, i: nat)
    requires AllRepresentable(ops) && |replies| == |Reads(ops)| && i < |ops| && ops[i].Read?
  {
    ReadsBefore(ops, i);
    var op, got := ops[i], replies[|Reads(ops[..i])|];
    && got.Ok?
    && got.value.anchor >= op.anchor
    && got.value.value
         == LedgerBalance(ExecAll(hash, s, ops[..i]).epochs, op.acct, op.cur, got.value.anchor)
  }

  lemma {:induction false} ReadsBefore(ops: seq<Op>, i: nat)
    requires i < |ops|
    ensures |Reads(ops[..i])| + (if ops[i].Read? then 1 else 0) <= |Reads(ops)|
  {
    if i > 0 {
      ReadsBefore(ops[1..], i - 1);
      assert ops[..i][1..] == ops[1..][..i - 1];
    }
  }

  /** **The harness passes a system exactly when every read is answered rightly**, judged against the
      history sealed when the read was made. */
  lemma NoDivergenceExactlyWhen(hash: Hash, s: State, ops: seq<Op>, replies: seq<Reply>)
    requires AllRepresentable(ops) && |replies| == |Reads(ops)|
    ensures Diverging(hash, s, ops, replies) == [] <==>
      forall i :: 0 <= i < |ops| && ops[i].Read? ==> RightAt(hash, s, ops, replies, i)
  {
    var at := ReportedReads(hash, s, ops, replies);
    hide Diverging, RightAt, Describes;
    if at != [] {
      assert at[0] in Elements(at);
    }
    if i :| 0 <= i < |ops| && ops[i].Read? && !RightAt(hash, s, ops, replies, i) {
      assert i in WrongReads(hash, s, ops, replies);
    }
  }

  /** What one entry says of the read at position `i`. */
  ghost predicate Describes(
    d: Divergence, hash: Hash, s: State, ops: seq<Op>, replies: seq<Reply>, i: nat)
    requires AllRepresentable(ops) && |replies| == |Reads(ops)| && i < |ops| && ops[i].Read?
  {
    ReadsBefore(ops, i);
    && d.acct == ops[i].acct && d.cur == ops[i].cur && d.anchor == ops[i].anchor
    && d.oracle == LedgerBalance(ExecAll(hash, s, ops[..i]).epochs, d.acct, d.cur, d.anchor)
    && d.system == replies[|Reads(ops[..i])|]
  }

  /** The positions of the reads answered wrongly. */
  ghost function WrongReads(hash: Hash, s: State, ops: seq<Op>, replies: seq<Reply>): set<nat>
    requires AllRepresentable(ops) && |replies| == |Reads(ops)|
  {
    set i: nat | i < |ops| && ops[i].Read? && !RightAt(hash, s, ops, replies, i)
  }

  /** `at` lists the wrong reads in order, and `ds` has an entry for each. */
  ghost predicate Reports(
    ds: seq<Divergence>, at: seq<nat>, hash: Hash, s: State, ops: seq<Op>, replies: seq<Reply>)
    requires AllRepresentable(ops) && |replies| == |Reads(ops)|
  {
    && |at| == |ds|
    && Elements(at) == WrongReads(hash, s, ops, replies)
    && (forall j, k :: 0 <= j < k < |at| ==> at[j] < at[k])
    && AllDescribe(ds, at, hash, s, ops, replies)
  }

  ghost predicate AllDescribe(
    ds: seq<Divergence>, at: seq<nat>, hash: Hash, s: State, ops: seq<Op>, replies: seq<Reply>)
    requires AllRepresentable(ops) && |replies| == |Reads(ops)| && |at| == |ds|
  {
    forall j :: 0 <= j < |at| ==>
      at[j] < |ops| && ops[at[j]].Read? && Describes(ds[j], hash, s, ops, replies, at[j])
  }

  /** **The report has one entry for each wrong read, in order**, and each entry carries the read's own
      account, currency and anchor, the oracle's balance there, and what the system said. */
  lemma {:induction false} ReportedReads(hash: Hash, s: State, ops: seq<Op>, replies: seq<Reply>)
    returns (at: seq<nat>)
    requires AllRepresentable(ops) && |replies| == |Reads(ops)|
    ensures Reports(Diverging(hash, s, ops, replies), at, hash, s, ops, replies)
    decreases |ops|
  {
    hide RightAt, Describes, Exec, ExecAll;
    if ops == [] {
      at := [];
    } else {
      hide Reports, Diverging;
      var init := ops[..|ops| - 1];
      ReadsSnoc(init, ops[|ops| - 1]);
      assert ops == init + [ops[|ops| - 1]];
      hide Reads, AllRepresentable;
      InitRepresentable(ops);
      var earlier := ReportedReads(hash, s, init, replies[..|Reads(init)|]);
      at := OneMoreReported(hash, s, ops, replies, earlier);
    }
  }

  lemma InitRepresentable(ops: seq<Op>)
    requires ops != [] && AllRepresentable(ops)
    ensures AllRepresentable(ops[..|ops| - 1])
  {
  }

  /** One more operation adds its entry exactly when it is a wrong read. */
  lemma OneMoreReported(hash: Hash, s: State, ops: seq<Op>, replies: seq<Reply>, earlier: seq<nat>)
    returns (at: seq<nat>)
    requires ops != [] && AllRepresentable(ops) && |replies| == |Reads(ops)|
    requires AllRepresentable(ops[..|ops| - 1]) && |Reads(ops[..|ops| - 1])| <= |replies|
    requires var init := ops[..|ops| - 1];
      var given := replies[..|Reads(init)|];
      Reports(Diverging(hash, s, init, given), earlier, hash, s, init, given)
    ensures Reports(Diverging(hash, s, ops, replies), at, hash, s, ops, replies)
  {
    var n: nat := |ops| - 1;
    var init, op := ops[..n], ops[n];
    var k := |Reads(init)|;
    assert ops == init + [op];
    ReadsSnoc(init, op);
    DivergingSnoc(hash, s, init, op, replies);
    hide RightAt, Describes, Acceptable, DivergenceOf, Diverging, Exec, ExecAll, Reports, Entry, Reads, AllRepresentable;
    ReportsPrefix(Diverging(hash, s, init, replies[..k]), earlier, hash, s, ops, replies);
    var ds := EntryJudged(hash, s, ops, replies);
    at := if ds == [] then earlier else earlier + [n];
  }

  lemma EntryJudged(hash: Hash, s: State, ops: seq<Op>, replies: seq<Reply>) returns (ds: seq<Divergence>)
    requires ops != [] && AllRepresentable(ops) && |replies| == |Reads(ops)|
    requires AllRepresentable(ops[..|ops| - 1])
    requires |replies| == |Reads(ops[..|ops| - 1])| + (if ops[|ops| - 1].Read? then 1 else 0)
    ensures var n, init := |ops| - 1, ops[..|ops| - 1];
      && ds == Entry(ops[n], ExecAll(hash, s, init).epochs, replies[|Reads(init)|..])
      && (ds == [] <==> !ops[n].Read? || RightAt(hash, s, ops, replies, n))
      && (ds != [] ==> |ds| == 1 && Describes(ds[0], hash, s, ops, replies, n))
  {
    var n, init := |ops| - 1, ops[..|ops| - 1];
    ds := Entry(ops[n], ExecAll(hash, s, init).epochs, replies[|Reads(init)|..]);
    if ops[n].Read? {
      LastRead(hash, s, ops, replies);
    }
    hide RightAt, Describes, Acceptable, DivergenceOf, Exec, ExecAll, Reads, AllRepresentable;
  }

  /** Judging a run's prefix is judging the run, up to there. */
  lemma ReportsPrefix(ds: seq<Divergence>, at: seq<nat>, hash: Hash, s: State, ops: seq<Op>, replies: seq<Reply>)
    requires ops != [] && AllRepresentable(ops) && |replies| == |Reads(ops)|
    requires AllRepresentable(ops[..|ops| - 1]) && |Reads(ops[..|ops| - 1])| <= |replies|
    requires Reports(ds, at, hash, s, ops[..|ops| - 1], replies[..|Reads(ops[..|ops| - 1])|])
    ensures var n := |ops| - 1;
      && (!ops[n].Read? || RightAt(hash, s, ops, replies, n) ==> Reports(ds, at, hash, s, ops, replies))
      && (forall d :: ops[n].Read? && !RightAt(hash, s, ops, replies, n) && Describes(d, hash, s, ops, replies, n) ==>
            Reports(ds + [d], at + [n], hash, s, ops, replies))
  {
    hide RightAt, Describes, Exec, ExecAll, AllRepresentable, Reads;
    var n: nat := |ops| - 1;
    WrongPrefix(hash, s, ops, replies);
    DescribePrefix(ds, at, hash, s, ops, replies);
    ElementsAppend(at, [n]);
    assert Elements([n]) == {n};
    assert forall j :: 0 <= j < |at| ==> at[j] in Elements(at);
    var init, given := ops[..n], replies[..|Reads(ops[..n])|];
    assert forall i :: i in WrongReads(hash, s, init, given) ==> i < n;
    hide WrongReads, Elements;
  }

  lemma WrongPrefix(hash: Hash, s: State, ops: seq<Op>, replies: seq<Reply>)
    requires ops != [] && AllRepresentable(ops) && |replies| == |Reads(ops)|
    requires AllRepresentable(ops[..|ops| - 1]) && |Reads(ops[..|ops| - 1])| <= |replies|
    ensures var n: nat, init := |ops| - 1, ops[..|ops| - 1];
      WrongReads(hash, s, ops, replies) == WrongReads(hash, s, init, replies[..|Reads(init)|])
        + if ops[n].Read? && !RightAt(hash, s, ops, replies, n) then {n} else {}
  {
    hide RightAt, Exec, ExecAll, AllRepresentable, Reads;
    forall i: nat | i < |ops| - 1 && ops[i].Read?
      ensures RightAt(hash, s, ops, replies, i)
         <==> RightAt(hash, s, ops[..|ops| - 1], replies[..|Reads(ops[..|ops| - 1])|], i)
    {
      PrefixJudged(hash, s, ops, replies, i);
    }
  }

  lemma DescribePrefix(ds: seq<Divergence>, at: seq<nat>, hash: Hash, s: State, ops: seq<Op>, replies: seq<Reply>)
    requires ops != [] && AllRepresentable(ops) && |replies| == |Reads(ops)| && |at| == |ds|
    requires AllRepresentable(ops[..|ops| - 1]) && |Reads(ops[..|ops| - 1])| <= |replies|
    requires AllDescribe(ds, at, hash, s, ops[..|ops| - 1], replies[..|Reads(ops[..|ops| - 1])|])
    ensures AllDescribe(ds, at, hash, s, ops, replies)
    ensures forall d :: ops[|ops| - 1].Read? && Describes(d, hash, s, ops, replies, |ops| - 1) ==>
      AllDescribe(ds + [d], at + [|ops| - 1], hash, s, ops, replies)
  {
    hide Describes, Exec, ExecAll, AllRepresentable, Reads;
    forall j | 0 <= j < |at|
      ensures at[j] < |ops| && ops[at[j]].Read? && Describes(ds[j], hash, s, ops, replies, at[j])
    {
      assert ops[..|ops| - 1][at[j]] == ops[at[j]];
      PrefixJudged(hash, s, ops, replies, at[j]);
    }
  }

  lemma PrefixJudged(hash: Hash, s: State, ops: seq<Op>, replies: seq<Reply>, i: nat)
    requires i + 1 < |ops| && ops[i].Read? && AllRepresentable(ops) && |replies| == |Reads(ops)|
    requires AllRepresentable(ops[..|ops| - 1]) && |Reads(ops[..|ops| - 1])| <= |replies|
    ensures var init, given := ops[..|ops| - 1], replies[..|Reads(ops[..|ops| - 1])|];
      && (RightAt(hash, s, ops, replies, i) <==> RightAt(hash, s, init, given, i))
      && (forall d :: Describes(d, hash, s, ops, replies, i) <==> Describes(d, hash, s, init, given, i))
  {
    var init := ops[..|ops| - 1];
    assert init[..i] == ops[..i];
    ReadsBefore(init, i);
    ReadsBefore(ops, i);
    hide Reads, ExecAll, LedgerBalance;
  }

  /** The last read is judged against the history of all before it. */
  lemma LastRead(hash: Hash, s: State, ops: seq<Op>, replies: seq<Reply>)
    requires ops != [] && AllRepresentable(ops) && |replies| == |Reads(ops)| && ops[|ops| - 1].Read?
    requires |replies| == |Reads(ops[..|ops| - 1])| + 1
    ensures var n, init := |ops| - 1, ops[..|ops| - 1];
      var history, got := ExecAll(hash, s, init).epochs, replies[|Reads(init)|];
      && (RightAt(hash, s, ops, replies, n) <==> Acceptable(history, ops[n], got))
      && Describes(DivergenceOf(history, ops[n], got), hash, s, ops, replies, n)
  {
  }

  lemma {:induction false} DivergingSnoc(hash: Hash, s: State, ops: seq<Op>, op: Op, replies: seq<Reply>)
    requires AllRepresentable(ops) && Representable(op)
    requires |replies| == |Reads(ops)| + (if op.Read? then 1 else 0) == |Reads(ops + [op])|
    ensures AllRepresentable(ops + [op])
    ensures Diverging(hash, s, ops + [op], replies) ==
      Diverging(hash, s, ops, replies[..|Reads(ops)|])
      + Entry(op, ExecAll(hash, s, ops).epochs, replies[|Reads(ops)|..])
    decreases |ops|
  {
    hide Exec, Acceptable, DivergenceOf;
    if ops == [] {
      assert ops + [op] == [op] && [op][1..] == [];
      assert replies[..0] == [] && replies[0..] == replies;
    } else {
      var first, tail := ops[0], ops[1..];
      assert ops + [op] == [first] + (tail + [op]) && ops == [first] + tail;
      ReadsCons(first, tail);
      ReadsCons(first, tail + [op]);
      var rest := if first.Read? then replies[1..] else replies;
      DivergingSnoc(hash, Exec(hash, s, first), tail, op, rest);
      DivergingStep(hash, s, first, tail + [op], replies);
      DivergingStep(hash, s, first, tail, replies[..|Reads(ops)|]);
      QuietRead(hash, s, first);
      hide Diverging, Reads, Entry;
      var k := |Reads(tail)|;
      if first.Read? {
        assert replies[..k + 1][1..] == rest[..k] && replies[..k + 1][0] == replies[0];
        assert replies[k + 1..] == rest[k..];
        var head := if Acceptable(s.epochs, first, replies[0]) then [] else [DivergenceOf(s.epochs, first, replies[0])];
        Associates(head, Diverging(hash, s, tail, rest[..k]), Entry(op, ExecAll(hash, s, tail).epochs, rest[k..]));
      }
    }
  }

  /** The entry, if any, for one operation. */
  ghost function Entry(op: Op, history: seq<EpochRec>, left: seq<Reply>): seq<Divergence>
    requires op.Read? ==> left != []
  {
    if !op.Read? || Acceptable(history, op, left[0]) then [] else [DivergenceOf(history, op, left[0])]
  }

  lemma QuietRead(hash: Hash, s: State, op: Op)
    requires Representable(op)
    ensures op.Read? ==> Exec(hash, s, op) == s
  {
  }

  lemma DivergingCons(hash: Hash, s: State, ops: seq<Op>, replies: seq<Reply>)
    requires ops != [] && AllRepresentable(ops) && |replies| == |Reads(ops)|
    ensures !ops[0].Read? ==>
      Diverging(hash, s, ops, replies) == Diverging(hash, Exec(hash, s, ops[0]), ops[1..], replies)
    ensures ops[0].Read? ==> Exec(hash, s, ops[0]) == s
    ensures ops[0].Read? ==>
      (Diverging(hash, s, ops, replies) == [] <==>
       Acceptable(s.epochs, ops[0], replies[0]) && Diverging(hash, s, ops[1..], replies[1..]) == [])
  {
  }

  // ---------- The mirror ----------

  /** The mirror's state: it takes openings and submissions, and ignores replays. */
  ghost function Drive(hash: Hash, m: State, op: Op): State
    requires Representable(op)
  {
    if op.Open? || op.Submit? then Exec(hash, m, op) else m
  }

  ghost function MirrorReplies(hash: Hash, m: State, ops: seq<Op>): (replies: seq<Reply>)
    requires AllRepresentable(ops)
    ensures |replies| == |Reads(ops)|
    decreases |ops|
  {
    if ops == [] then []
    else
      (if ops[0].Read?
       then [Ok(Answer(LedgerBalance(m.epochs, ops[0].acct, ops[0].cur, ops[0].anchor), ops[0].anchor))]
       else [])
      + MirrorReplies(hash, Drive(hash, m, ops[0]), ops[1..])
  }

  /** Every replay in the run is refused. */
  ghost predicate ReplaysRefused(hash: Hash, s: State, ops: seq<Op>)
    requires AllRepresentable(ops)
    decreases |ops|
  {
    ops == [] || ((ops[0].Duplicate? ==> ops[0].key in s.idem)
                  && ReplaysRefused(hash, Exec(hash, s, ops[0]), ops[1..]))
  }

  lemma {:induction false} ProperRefusesReplays(hash: Hash, s: State, ops: seq<Op>)
    requires AllRepresentable(ops) && ProperFrom(hash, s, ops)
    ensures ReplaysRefused(hash, s, ops)
    decreases |ops|
  {
    if ops != [] {
      ProperRefusesReplays(hash, Exec(hash, s, ops[0]), ops[1..]);
    }
  }

  /** **The harness passes the mirror on every run whose replays are refused.** */
  lemma {:induction false} MirrorNeverDiverges(hash: Hash, s: State, ops: seq<Op>)
    requires AllRepresentable(ops) && ReplaysRefused(hash, s, ops)
    ensures Diverging(hash, s, ops, MirrorReplies(hash, s, ops)) == []
    decreases |ops|
  {
    if ops != [] {
      var t := Exec(hash, s, ops[0]);
      assert Drive(hash, s, ops[0]) == t;
      MirrorNeverDiverges(hash, t, ops[1..]);
      var replies := MirrorReplies(hash, s, ops);
      DivergingCons(hash, s, ops, replies);
      if ops[0].Read? {
        assert Acceptable(s.epochs, ops[0], replies[0]);
        assert replies[1..] == MirrorReplies(hash, t, ops[1..]);
      } else {
        assert replies == MirrorReplies(hash, t, ops[1..]);
      }
    }
  }

  /** Reordering reads keeps every replay where it was, in the state it was in. */
  lemma {:induction false} PlaceKeepsRefusals(hash: Hash, s: State, ops: seq<Op>, observed: seq<Op>)
    requires AllRepresentable(ops) && ReplaysRefused(hash, s, ops)
    requires forall i :: 0 <= i < |observed| ==> observed[i].Read?
    ensures AllRepresentable(Place(ops, observed)) && ReplaysRefused(hash, s, Place(ops, observed))
    decreases |ops|
  {
    PlaceKeepsHistory(hash, s, ops, observed);
    if ops != [] {
      var rest := if ops[0].Read? && observed != [] then observed[1..] else observed;
      var first := if ops[0].Read? && observed != [] then observed[0] else ops[0];
      PlaceKeepsRefusals(hash, Exec(hash, s, ops[0]), ops[1..], rest);
      var placed := Place(ops, observed);
      assert placed == [first] + Place(ops[1..], rest);
      assert placed[0] == first && placed[1..] == Place(ops[1..], rest);
    }
  }

  /** **The harness passes the mirror on a valid schedule, on every campaign built from it, and with its
      reads reordered**, counting each read once. */
  lemma MirrorPassesEveryCampaign(hash: Hash, ops: seq<Op>, fault: Fault, every: nat)
    requires ProperFrom(hash, INIT, ops) && every > 0
    ensures AllRepresentable(ops)
    ensures var injected := InjectFrom(ops, 0, None, fault, every);
            && AllRepresentable(injected)
            && Diverging(hash, INIT, injected, MirrorReplies(hash, INIT, injected)) == []
            && Reads(injected) == Reads(ops)
    ensures AllRepresentable(Reordered(ops))
    ensures Diverging(hash, INIT, ops, MirrorReplies(hash, INIT, ops)) == []
    ensures Diverging(hash, INIT, Reordered(ops), MirrorReplies(hash, INIT, Reordered(ops))) == []
    ensures |Reads(Reordered(ops))| == |Reads(ops)|
  {
    ProperIsRepresentable(hash, INIT, ops);
    ProperRefusesReplays(hash, INIT, ops);
    MirrorNeverDiverges(hash, INIT, ops);
    InjectionKeepsProper(hash, INIT, ops, 0, None, fault, every);
    InjectionAddsNoReads(ops, 0, None, fault, every);
    var injected := InjectFrom(ops, 0, None, fault, every);
    ProperRefusesReplays(hash, INIT, injected);
    MirrorNeverDiverges(hash, INIT, injected);
    PlaceKeepsRefusals(hash, INIT, ops, Reverse(Reads(ops)));
    MirrorNeverDiverges(hash, INIT, Reordered(ops));
    ReorderingInvolution(ops);
  }

  lemma {:induction false} ReadsAppend(a: seq<Op>, b: seq<Op>)
    ensures Reads(a + b) == Reads(a) + Reads(b)
  {
    if a == [] {
      assert a + b == b;
    } else {
      assert (a + b)[1..] == a[1..] + b;
      ReadsAppend(a[1..], b);
    }
  }

  lemma {:induction false} NoReads(ops: seq<Op>)
    requires forall i :: 0 <= i < |ops| ==> !ops[i].Read?
    ensures Reads(ops) == []
  {
    if ops != [] {
      NoReads(ops[1..]);
    }
  }

  lemma {:induction false} InjectionAddsNoReads(
    ops: seq<Op>, i: nat, last: Option<Key>, fault: Fault, every: nat)
    requires every > 0
    ensures Reads(InjectFrom(ops, i, last, fault, every)) == Reads(ops)
  {
    if ops != [] {
      var key := LastKey(ops[0], last);
      var due := Due(fault, key, i, every);
      var rest := InjectFrom(ops[1..], i + 1, key, fault, every);
      InjectionAddsNoReads(ops[1..], i + 1, key, fault, every);
      DueHasNoReads(fault, key, i, every);
      hide Due;
      ReadsAround(ops[0], due, rest);
    }
  }

  lemma ReadsAround(op: Op, due: seq<Op>, rest: seq<Op>)
    ensures Reads([op] + due + rest) == (if op.Read? then [op] else []) + Reads(due) + Reads(rest)
  {
    ReadsAppend([op] + due, rest);
    ReadsAppend([op], due);
    assert [op][1..] == [];
  }

  lemma DueHasNoReads(fault: Fault, last: Option<Key>, i: nat, every: nat)
    requires every > 0
    ensures Reads(Due(fault, last, i, every)) == []
  {
    NoReads(Due(fault, last, i, every));
  }

  // ---------- What reordering reads does to the answers ----------

  /** The oracle's answer to each read, at the anchor it asks for, when it is made. */
  ghost function Answers(hash: Hash, s: State, ops: seq<Op>): (answers: seq<int>)
    requires AllRepresentable(ops)
    ensures |answers| == |Reads(ops)|
    decreases |ops|
  {
    if ops == [] then []
    else
      (if ops[0].Read? then [LedgerBalance(s.epochs, ops[0].acct, ops[0].cur, ops[0].anchor)] else [])
      + Answers(hash, Exec(hash, s, ops[0]), ops[1..])
  }

  lemma {:induction false} ExecGrows(hash: Hash, s: State, ops: seq<Op>)
    requires AllRepresentable(ops)
    ensures s.epochs <= ExecAll(hash, s, ops).epochs
    decreases |ops|
  {
    if ops != [] {
      ExecGrows(hash, Exec(hash, s, ops[0]), ops[1..]);
      assert s.epochs <= Exec(hash, s, ops[0]).epochs;
    }
  }

  /** A read of a sealed epoch gets the answer the whole history gives. */
  lemma {:induction false} SealedReadsAreTimeless(hash: Hash, s: State, ops: seq<Op>)
    requires AllRepresentable(ops) && ProperFrom(hash, s, ops)
    ensures Timeless(Answers(hash, s, ops), Reads(ops), ExecAll(hash, s, ops))
    decreases |ops|
  {
    if ops != [] {
      var t, end := Exec(hash, s, ops[0]), ExecAll(hash, s, ops);
      SealedReadsAreTimeless(hash, t, ops[1..]);
      ExecGrows(hash, s, ops);
      if ops[0].Read? {
        var anchor := ops[0].anchor;
        assert s.epochs[..Covered(s.epochs, anchor)] == end.epochs[..Covered(end.epochs, anchor)];
      }
    }
  }

  function AnswerAtEnd(end: State, op: Op): int
    requires op.Read?
  {
    LedgerBalance(end.epochs, op.acct, op.cur, op.anchor)
  }

  lemma ReorderedHistory(hash: Hash, s: State, ops: seq<Op>)
    requires ProperFrom(hash, s, ops)
    ensures AllRepresentable(ops) && AllRepresentable(Reordered(ops))
    ensures ExecAll(hash, s, Reordered(ops)) == ExecAll(hash, s, ops)
    ensures Reads(Reordered(ops)) == Reverse(Reads(ops))
  {
    ProperIsRepresentable(hash, s, ops);
    ReorderingInvolution(ops);
    PlaceKeepsHistory(hash, s, ops, Reverse(Reads(ops)));
  }

  /** What a read made after `before` misses of a history that goes on to `end`: the postings to its
      account in the epochs its anchor covers that are sealed only later. */
  function Missed(before: seq<EpochRec>, end: seq<EpochRec>, op: Op): int
    requires op.Read?
  {
    var n := Covered(end, op.anchor);
    if n <= |before| then 0 else Amount(RowsOf(end[|before|..n]), OfAccount(op.acct, op.cur))
  }

  lemma {:induction false} RowsOfAppend(a: seq<EpochRec>, b: seq<EpochRec>)
    ensures RowsOf(a + b) == RowsOf(a) + RowsOf(b)
  {
    if b == [] {
      assert a + b == a;
    } else {
      hide RowsOf;
      var init, last := b[..|b| - 1], b[|b| - 1];
      RowsOfAppend(a, init);
      assert a + b == (a + init) + [last] && b == init + [last];
      RowsOfSnoc(a + init, last);
      RowsOfSnoc(init, last);
      Associates(RowsOf(a), RowsOf(init), last.rows);
    }
  }

  lemma RowsOfSnoc(epochs: seq<EpochRec>, e: EpochRec)
    ensures RowsOf(epochs + [e]) == RowsOf(epochs) + e.rows
  {
    assert (epochs + [e])[..|epochs|] == epochs;
  }

  /** An early answer is the late one less what it misses. */
  lemma MissedIsTheDifference(before: seq<EpochRec>, end: seq<EpochRec>, op: Op)
    requires op.Read? && before <= end
    ensures LedgerBalance(before, op.acct, op.cur, op.anchor) + Missed(before, end, op)
         == LedgerBalance(end, op.acct, op.cur, op.anchor)
  {
    var n := Covered(end, op.anchor);
    if n <= |before| {
      assert before[..Covered(before, op.anchor)] == end[..n];
    } else {
      assert before[..Covered(before, op.anchor)] == before && end[..n] == before + end[|before|..n];
      RowsOfAppend(before, end[|before|..n]);
      AmountAppend(RowsOf(before), RowsOf(end[|before|..n]), OfAccount(op.acct, op.cur));
    }
  }

  /** Where each read of `ops` is made, what it misses of the history `end` sums to zero. */
  ghost predicate MissesNothing(hash: Hash, s: State, ops: seq<Op>, end: seq<EpochRec>)
    requires AllRepresentable(ops)
    decreases |ops|
  {
    ops == [] || ((ops[0].Read? ==> Missed(s.epochs, end, ops[0]) == 0)
                  && MissesNothing(hash, Exec(hash, s, ops[0]), ops[1..], end))
  }

  /** Each answer is the one the history `end` gives. */
  ghost predicate Timeless(answers: seq<int>, observed: seq<Op>, end: State)
    requires |answers| == |observed| && forall j :: 0 <= j < |observed| ==> observed[j].Read?
  {
    forall j :: 0 <= j < |observed| ==> answers[j] == AnswerAtEnd(end, observed[j])
  }

  lemma TimelessCons(all: seq<int>, ops: seq<Op>, end: State)
    requires |all| == |ops| > 0 && forall i :: 0 <= i < |ops| ==> ops[i].Read?
    ensures Timeless(all, ops, end) <==> all[0] == AnswerAtEnd(end, ops[0]) && Timeless(all[1..], ops[1..], end)
  {
    hide AnswerAtEnd;
    assert forall j :: 0 < j < |ops| ==> all[1..][j - 1] == all[j] && ops[1..][j - 1] == ops[j];
  }

  /** The answers are those the whole history gives exactly when nothing is missed. */
  lemma {:induction false} TimelessExactlyWhen(hash: Hash, s: State, ops: seq<Op>, end: State)
    requires AllRepresentable(ops) && ExecAll(hash, s, ops) == end
    ensures MissesNothing(hash, s, ops, end.epochs) <==> Timeless(Answers(hash, s, ops), Reads(ops), end)
    decreases |ops|
  {
    hide Missed, LedgerBalance, Exec, Timeless;
    if ops == [] {
      assert Timeless([], [], end) by { NoneIsTimeless(end); }
    } else {
      var t, op, rest := Exec(hash, s, ops[0]), ops[0], ops[1..];
      TimelessExactlyWhen(hash, t, rest, end);
      ExecGrows(hash, s, ops);
      var answers, observed := Answers(hash, s, ops), Reads(ops);
      if op.Read? {
        MissedIsTheDifference(s.epochs, end.epochs, op);
        assert observed[1..] == Reads(rest) && answers[1..] == Answers(hash, t, rest);
        TimelessCons(answers, observed, end);
      } else {
        assert observed == Reads(rest) && answers == Answers(hash, t, rest);
      }
    }
  }

  lemma NoneIsTimeless(end: State)
    ensures Timeless([], [], end)
  {
  }

  /** **Exactly when permuting observations changes no answer**: when, for each read, the postings to its
      account that its anchor covers and that are sealed only after the place it lands sum to zero. */
  lemma ReorderingKeepsAnswersExactlyWhen(hash: Hash, s: State, ops: seq<Op>)
    requires ProperFrom(hash, s, ops)
    ensures AllRepresentable(ops) && AllRepresentable(Reordered(ops))
    ensures Answers(hash, s, Reordered(ops)) == Reverse(Answers(hash, s, ops)) <==>
      MissesNothing(hash, s, Reordered(ops), ExecAll(hash, s, ops).epochs)
  {
    hide Answers, AnswerAtEnd, Reordered, Reads, ExecAll, ProperFrom, AllRepresentable, Reverse, MissesNothing;
    ReorderedHistory(hash, s, ops);
    var end := ExecAll(hash, s, ops);
    SealedReadsAreTimeless(hash, s, ops);
    TimelessExactlyWhen(hash, s, Reordered(ops), end);
    ReversedTimeless(Answers(hash, s, ops), Reads(ops), Answers(hash, s, Reordered(ops)), end);
  }

  lemma ReversedTimeless(answers: seq<int>, observed: seq<Op>, reordered: seq<int>, end: State)
    requires |answers| == |observed| == |reordered| && forall j :: 0 <= j < |observed| ==> observed[j].Read?
    requires Timeless(answers, observed, end)
    ensures Timeless(reordered, Reverse(observed), end) <==> reordered == Reverse(answers)
  {
    hide AnswerAtEnd;
    var back := Reverse(observed);
    assert forall j :: 0 <= j < |back| ==> AnswerAtEnd(end, back[j]) == Reverse(answers)[j];
  }

  /** A schedule that stays valid keeps its answers. */
  lemma ReorderingKeepsAnswers(hash: Hash, s: State, ops: seq<Op>)
    requires ProperFrom(hash, s, ops) && ProperFrom(hash, s, Reordered(ops))
    ensures AllRepresentable(ops) && AllRepresentable(Reordered(ops))
    ensures Answers(hash, s, Reordered(ops)) == Reverse(Answers(hash, s, ops))
  {
    hide Answers, AnswerAtEnd, Reordered, Reads, ExecAll, ProperFrom, AllRepresentable, Reverse, MissesNothing;
    ReorderedHistory(hash, s, ops);
    SealedReadsAreTimeless(hash, s, Reordered(ops));
    TimelessExactlyWhen(hash, s, Reordered(ops), ExecAll(hash, s, ops));
    ReorderingKeepsAnswersExactlyWhen(hash, s, ops);
  }

  /** Each read of `ops` names an epoch sealed when it is made. */
  ghost predicate ReadsSealed(hash: Hash, s: State, ops: seq<Op>)
    requires AllRepresentable(ops)
    decreases |ops|
  {
    ops == [] || ((ops[0].Read? ==> ops[0].anchor < |s.epochs|)
                  && ReadsSealed(hash, Exec(hash, s, ops[0]), ops[1..]))
  }

  /** A valid schedule stays valid exactly when each read, where it lands, names an epoch already sealed
      there: nothing else about it can break. */
  lemma {:induction false} ReorderedProperExactlyWhen(hash: Hash, s: State, ops: seq<Op>, observed: seq<Op>)
    requires ProperFrom(hash, s, ops) && AllRepresentable(ops)
    requires forall i :: 0 <= i < |observed| ==> observed[i].Read?
    ensures AllRepresentable(Place(ops, observed))
    ensures ProperFrom(hash, s, Place(ops, observed)) <==> ReadsSealed(hash, s, Place(ops, observed))
    decreases |ops|
  {
    PlaceKeepsHistory(hash, s, ops, observed);
    if ops != [] {
      var rest := if ops[0].Read? && observed != [] then observed[1..] else observed;
      var first := if ops[0].Read? && observed != [] then observed[0] else ops[0];
      ReorderedProperExactlyWhen(hash, Exec(hash, s, ops[0]), ops[1..], rest);
      var placed := Place(ops, observed);
      assert placed == [first] + Place(ops[1..], rest);
      assert placed[0] == first && placed[1..] == Place(ops[1..], rest);
    }
  }

  /** A read of the epoch a transfer is about to seal, moved before that transfer, misses it. */
  lemma ReorderingCanChangeAnAnswer(hash: Hash, s: State, op: Op)
    requires op.Submit? && op.from != op.to && op.amt != 0 && Proper(hash, s, op)
    requires 0 < |s.epochs| < 0x1_0000_0000_0000_0000
    ensures var n := |s.epochs|;
            var ops := [Read(op.to, op.cur, n - 1), op, Read(op.to, op.cur, n)];
            && AllRepresentable(ops) && AllRepresentable(Reordered(ops))
            && ProperFrom(hash, s, ops) && !ProperFrom(hash, s, Reordered(ops))
            && Answers(hash, s, Reordered(ops)) != Reverse(Answers(hash, s, ops))
  {
    var n := |s.epochs|;
    var early, late := Read(op.to, op.cur, n - 1), Read(op.to, op.cur, n);
    var ops, t := [early, op, late], Exec(hash, s, op);
    ThreeSteps(hash, s, early, op, late);
    ThreeSteps(hash, s, late, op, early);
    ReorderThree(early, op, late);
    TransferLands(hash, s, op);
    hide Reordered, Answers, ProperFrom, LedgerBalance, AllRepresentable, Exec;
    var after := Answers(hash, s, ops);
    assert after[1] == LedgerBalance(t.epochs, op.to, op.cur, n);
    assert Answers(hash, s, [late, op, early])[0] == LedgerBalance(s.epochs, op.to, op.cur, n);
    assert Reverse(after)[0] == after[1];
  }

  lemma ReorderThree(a: Op, op: Op, b: Op)
    requires a.Read? && b.Read? && !op.Read?
    ensures Reordered([a, op, b]) == [b, op, a]
  {
    assert [a, op, b][1..] == [op, b] && [op, b][1..] == [b] && [b][1..] == [];
    assert Reads([b]) == [b] && Reads([op, b]) == [b] && Reads([a, op, b]) == [a, b];
    ReverseTwo(a, b);
    PlaceThree(a, op, b);
  }

  lemma ReverseTwo(a: Op, b: Op)
    ensures Reverse([a, b]) == [b, a]
  {
  }

  lemma PlaceThree(a: Op, op: Op, b: Op)
    requires a.Read? && b.Read? && !op.Read?
    ensures Place([a, op, b], [b, a]) == [b, op, a]
  {
    assert [a, op, b][1..] == [op, b] && [op, b][1..] == [b] && [b][1..] == [];
    assert [b, a][1..] == [a] && [a][1..] == [];
    assert Place([b], [a]) == [a];
    assert Place([op, b], [a]) == [op, a];
    assert Place([a, op, b], [b, a]) == [b] + Place([op, b], [a]);
  }

  lemma ThreeSteps(hash: Hash, s: State, a: Op, op: Op, b: Op)
    requires a.Read? && b.Read? && op.Submit? && Proper(hash, s, op)
    ensures AllRepresentable([a, op, b])
    ensures ProperFrom(hash, s, [a, op, b]) <==>
      a.anchor < |s.epochs| && b.anchor < |Exec(hash, s, op).epochs|
    ensures Answers(hash, s, [a, op, b]) ==
      [LedgerBalance(s.epochs, a.acct, a.cur, a.anchor),
       LedgerBalance(Exec(hash, s, op).epochs, b.acct, b.cur, b.anchor)]
  {
    hide Admit, LedgerBalance;
    var t := Exec(hash, s, op);
    assert [a, op, b][1..] == [op, b] && [op, b][1..] == [b] && [b][1..] == [];
    assert Exec(hash, s, a) == s && Exec(hash, t, b) == t;
    assert ProperFrom(hash, t, [b]) <==> b.anchor < |t.epochs|;
    assert ProperFrom(hash, s, [op, b]) <==> ProperFrom(hash, t, [b]);
    assert Answers(hash, Exec(hash, s, op), [b]) ==
      [LedgerBalance(Exec(hash, s, op).epochs, b.acct, b.cur, b.anchor)];
    assert Answers(hash, s, [op, b]) == Answers(hash, Exec(hash, s, op), [b]);
  }

  /** An admitted transfer changes the receiver's balance at the epoch it seals. */
  lemma TransferLands(hash: Hash, s: State, op: Op)
    requires op.Submit? && op.from != op.to && Proper(hash, s, op)
    requires |s.epochs| < 0x1_0000_0000_0000_0000
    ensures LedgerBalance(Exec(hash, s, op).epochs, op.to, op.cur, |s.epochs|)
         == LedgerBalance(s.epochs, op.to, op.cur, |s.epochs|) + op.amt
  {
    var rows := Transfer(op.from, op.to, op.cur, op.amt);
    var e := NextEpoch(hash, s.epochs, rows);
    var after := s.epochs + [e];
    assert after[..|s.epochs|] == s.epochs && after[..|after|] == after && s.epochs[..|s.epochs|] == s.epochs;
    AmountAppend(RowsOf(s.epochs), rows, OfAccount(op.to, op.cur));
    AmountSnoc(rows, 0, OfAccount(op.to, op.cur));
    AmountSnoc(rows, 1, OfAccount(op.to, op.cur));
    assert rows[..0] == [] && rows[..2] == rows;
  }
}
