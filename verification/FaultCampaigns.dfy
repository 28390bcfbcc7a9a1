/** Fault campaigns: injecting faults into a schedule, and permuting its reads. */
module FaultCampaigns {
  import opened Prelude
  import opened Chain
  import opened ReferenceOracle
  import opened Schedules

  datatype Fault = CrashFault | EvictionStorm(times: nat) | DuplicateDelivery

  // ---------- Injection ----------

  function Evictions(times: nat): (ops: seq<Op>)
    ensures |ops| == times && forall i :: 0 <= i < times ==> ops[i] == Evict
  {
    if times == 0 then [] else Evictions(times - 1) + [Evict]
  }

  /** What one injection inserts, given the key of the last submission, if any. */
  function Payload(fault: Fault, last: Option<Key>): seq<Op> {
    match fault
    case CrashFault => [Crash]
    case EvictionStorm(times) => Evictions(times)
    case DuplicateDelivery => if last.Some? then [Op.Duplicate(last.value)] else []
  }

  function LastKey(op: Op, last: Option<Key>): Option<Key> {
    if op.Submit? then Some(op.key) else last
  }

  /** The payload after the operation at position `i`: due after every `every`-th one. */
  function Due(fault: Fault, last: Option<Key>, i: nat, every: nat): seq<Op>
    requires every > 0
  {
    if (i + 1) % every == 0 then Payload(fault, last) else []
  }

  /** The campaign from position `i` on. */
  function InjectFrom(ops: seq<Op>, i: nat, last: Option<Key>, fault: Fault, every: nat): seq<Op>
    requires every > 0
  {
    if ops == [] then []
    else
      var key := LastKey(ops[0], last);
      [ops[0]] + Due(fault, key, i, every) + InjectFrom(ops[1..], i + 1, key, fault, every)
  }

  /** Push what is due after position `i`. */
  method PushDue(ops0: seq<Op>, fault: Fault, last: Option<Key>, i: nat, every: nat) returns (ops: seq<Op>)
    requires every > 0
    ensures ops == ops0 + Due(fault, last, i, every)
  {
    ops := ops0;
    if (i + 1) % every == 0 {
      match fault {
        case CrashFault => ops := ops + [Crash];
        case EvictionStorm(times) =>
          for k := 0 to times
            invariant ops == ops0 + Evictions(k)
          {
            ops := ops + [Evict];
          }
        case DuplicateDelivery =>
          if last.Some? {
            ops := ops + [Op.Duplicate(last.value)];
          }
      }
    }
  }

  /** Build a campaign: the payload goes in at each multiple of the stride. */
  method Inject(base: Schedule, fault: Fault, every: nat) returns (s: Schedule)
    requires every > 0
    ensures s.seed == base.seed && s.ops == InjectFrom(base.ops, 0, None, fault, every)
  {
    hide Due;
    var ops: seq<Op> := [];
    var last: Option<Key> := None;
    for i := 0 to |base.ops|
      invariant ops + InjectFrom(base.ops[i..], i, last, fault, every)
             == InjectFrom(base.ops, 0, None, fault, every)
    {
      InjectStep(base.ops, ops, i, last, fault, every);
      var op := base.ops[i];
      if op.Submit? {
        last := Some(op.key);
      }
      ops := ops + [op];
      ops := PushDue(ops, fault, last, i, every);
    }
    s := Schedule(base.seed, ops);
  }

  lemma InjectStep(base: seq<Op>, ops: seq<Op>, i: nat, last: Option<Key>, fault: Fault, every: nat)
    requires every > 0 && i < |base|
    ensures ops + InjectFrom(base[i..], i, last, fault, every) == ops + [base[i]]
            + Due(fault, LastKey(base[i], last), i, every)
            + InjectFrom(base[i + 1..], i + 1, LastKey(base[i], last), fault, every)
  {
    hide Due;
    assert base[i..][0] == base[i] && base[i..][1..] == base[i + 1..];
  }

  /** What is inserted at a stride whose operations so far are `ops`: a crash; a storm of that many
      evictions; or a replay of the last submission, if there is one. */
  ghost predicate IsInsertion(ops: seq<Op>, fault: Fault, inserted: seq<Op>) {
    match fault
    case CrashFault => inserted == [Crash]
    case EvictionStorm(times) => |inserted| == times && forall k :: 0 <= k < times ==> inserted[k] == Evict
    case DuplicateDelivery =>
      if exists j :: 0 <= j < |ops| && ops[j].Submit? then
        exists j :: IsLastSubmission(ops, j) && inserted == [Op.Duplicate(ops[j].key)]
      else inserted == []
  }

  ghost predicate IsLastSubmission(ops: seq<Op>, j: int) {
    0 <= j < |ops| && ops[j].Submit? && forall k :: j < k < |ops| ==> !ops[k].Submit?
  }

  /** The key of the last submission among `ops`. */
  function LastOf(ops: seq<Op>): Option<Key> {
    if ops == [] then None else LastKey(ops[|ops| - 1], LastOf(ops[..|ops| - 1]))
  }

  lemma {:induction false} LastOfIsLast(ops: seq<Op>)
    ensures LastOf(ops).None? <==> forall j :: 0 <= j < |ops| ==> !ops[j].Submit?
    ensures LastOf(ops).Some? ==> exists j :: IsLastSubmission(ops, j) && LastOf(ops).value == ops[j].key
  {
    if ops != [] {
      var init := ops[..|ops| - 1];
      LastOfIsLast(init);
      if !ops[|ops| - 1].Submit? && LastOf(init).Some? {
        var j :| IsLastSubmission(init, j) && LastOf(init).value == init[j].key;
        assert IsLastSubmission(ops, j);
      } else if ops[|ops| - 1].Submit? {
        assert IsLastSubmission(ops, |ops| - 1);
      }
    }
  }

  lemma {:induction false} InjectSnoc(
    ops: seq<Op>, op: Op, i: nat, last: Option<Key>, fault: Fault, every: nat)
    requires every > 0
    ensures var key := LastKey(op, LastFrom(ops, last));
      InjectFrom(ops + [op], i, last, fault, every)
        == InjectFrom(ops, i, last, fault, every) + ([op] + Due(fault, key, i + |ops|, every))
    decreases |ops|
  {
    hide Due, InjectFrom;
    InjectCons(ops + [op], i, last, fault, every);
    InjectCons(ops, i, last, fault, every);
    if ops == [] {
      assert (ops + [op])[1..] == [];
      InjectCons([], i + 1, LastKey(op, last), fault, every);
    } else {
      var first, tail := ops[0], ops[1..];
      var key := LastKey(first, last);
      assert (ops + [op])[1..] == tail + [op];
      InjectSnoc(tail, op, i + 1, key, fault, every);
      var due, rest := Due(fault, key, i, every), InjectFrom(tail, i + 1, key, fault, every);
      var end := [op] + Due(fault, LastKey(op, LastFrom(ops, last)), i + |ops|, every);
      Associates(due, rest, end);
      Associates([first], due + rest, end);
    }
  }

  /** The last key after `ops`, starting from `last`. */
  function LastFrom(ops: seq<Op>, last: Option<Key>): Option<Key> {
    if ops == [] then last else LastFrom(ops[1..], LastKey(ops[0], last))
  }

  lemma {:induction false} LastFromSnoc(ops: seq<Op>, op: Op, last: Option<Key>)
    ensures LastFrom(ops + [op], last) == LastKey(op, LastFrom(ops, last))
  {
    if ops == [] {
      assert (ops + [op])[1..] == [];
    } else {
      assert (ops + [op])[1..] == ops[1..] + [op];
      LastFromSnoc(ops[1..], op, LastKey(ops[0], last));
    }
  }

  lemma {:induction false} LastFromNone(ops: seq<Op>)
    ensures LastFrom(ops, None) == LastOf(ops)
  {
    if ops != [] {
      var init := ops[..|ops| - 1];
      LastFromNone(init);
      LastFromSnoc(init, ops[|ops| - 1], None);
      assert ops == init + [ops[|ops| - 1]];
    }
  }

  /** **What a campaign holds**: each operation of the base in its place, and after every `every`-th one
      the fault, replays carrying the last key submitted by then. */
  lemma CampaignIs(ops: seq<Op>, fault: Fault, every: nat)
    requires every > 0 && ops != []
    ensures var n := |ops| - 1;
      var before, after := InjectFrom(ops[..n], 0, None, fault, every), InjectFrom(ops, 0, None, fault, every);
      if |ops| % every == 0
      then exists inserted :: IsInsertion(ops, fault, inserted) && after == before + ([ops[n]] + inserted)
      else after == before + [ops[n]]
  {
    var n := |ops| - 1;
    var init, op := ops[..n], ops[n];
    assert ops == init + [op];
    InjectSnoc(init, op, 0, None, fault, every);
    LastFromNone(init);
    LastOfIsLast(ops);
    if |ops| % every == 0 {
      assert IsInsertion(ops, fault, Payload(fault, LastOf(ops)));
    }
  }

  /** Take the injected operations out again. */
  function Uninject(ops: seq<Op>, i: nat, last: Option<Key>, fault: Fault, every: nat): seq<Op>
    requires every > 0
    decreases |ops|
  {
    if ops == [] then []
    else
      var key := LastKey(ops[0], last);
      var skip := 1 + |Due(fault, key, i, every)|;
      [ops[0]] + if skip <= |ops| then Uninject(ops[skip..], i + 1, key, fault, every) else []
  }

  /** **A campaign erases back to its base**: nothing of the base is lost, moved or changed. */
  lemma {:induction false} InjectionErases(
    ops: seq<Op>, i: nat, last: Option<Key>, fault: Fault, every: nat)
    requires every > 0
    ensures Uninject(InjectFrom(ops, i, last, fault, every), i, last, fault, every) == ops
  {
    hide Due;
    if ops != [] {
      var key := LastKey(ops[0], last);
      var due := Due(fault, key, i, every);
      var rest := InjectFrom(ops[1..], i + 1, key, fault, every);
      var all := InjectFrom(ops, i, last, fault, every);
      assert all == [ops[0]] + due + rest && all[0] == ops[0];
      assert all[1 + |due|..] == rest;
      InjectionErases(ops[1..], i + 1, key, fault, every);
    }
  }

  lemma {:induction false} ProperAppend(hash: Hash, s: State, a: seq<Op>, b: seq<Op>)
    requires ProperFrom(hash, s, a) && AllRepresentable(a)
    requires ProperFrom(hash, ExecAll(hash, s, a), b) && AllRepresentable(b)
    ensures ProperFrom(hash, s, a + b) && AllRepresentable(a + b)
    ensures ExecAll(hash, s, a + b) == ExecAll(hash, ExecAll(hash, s, a), b)
    decreases |a|
  {
    hide Exec, Proper;
    if a == [] {
      assert a + b == b;
    } else {
      assert (a + b)[1..] == a[1..] + b;
      ProperAppend(hash, Exec(hash, s, a[0]), a[1..], b);
      assert AllRepresentable(a + b) by {
        assert forall i :: 0 <= i < |a + b| ==> (a + b)[i] == if i < |a| then a[i] else b[i - |a|];
      }
      assert (a + b)[0] == a[0];
      ProperHead(hash, s, a, b);
    }
  }

  lemma ProperHead(hash: Hash, s: State, a: seq<Op>, b: seq<Op>)
    requires a != [] && ProperFrom(hash, s, a)
    ensures Proper(hash, s, a[0])
  {
  }

  /** What is injected is proper where it stands, and leaves the oracle alone. */
  lemma DueIsQuiet(hash: Hash, s: State, fault: Fault, last: Option<Key>, i: nat, every: nat)
    requires every > 0 && (last.Some? ==> last.value in s.idem)
    ensures AllRepresentable(Due(fault, last, i, every))
    ensures ProperFrom(hash, s, Due(fault, last, i, every))
    ensures ExecAll(hash, s, Due(fault, last, i, every)) == s
  {
    var due := Due(fault, last, i, every);
    if due != [] {
      match fault
      case EvictionStorm(times) => EvictionsAreQuiet(hash, s, times);
      case _ =>
        assert |due| == 1 && due[1..] == [] && Exec(hash, s, due[0]) == s;
        assert ProperFrom(hash, s, due[1..]);
    }
  }

  lemma {:induction false} EvictionsAreQuiet(hash: Hash, s: State, times: nat)
    ensures AllRepresentable(Evictions(times)) && ProperFrom(hash, s, Evictions(times))
    ensures ExecAll(hash, s, Evictions(times)) == s
  {
    if times > 0 {
      EvictionsAreQuiet(hash, s, times - 1);
      ProperSnoc(hash, s, Evictions(times - 1), Evict);
    }
  }

  /** **A campaign is still a valid schedule**, and drives the oracle through the same history. */
  lemma {:induction false} InjectionKeepsProper(
    hash: Hash, s: State, ops: seq<Op>, i: nat, last: Option<Key>, fault: Fault, every: nat)
    requires every > 0 && ProperFrom(hash, s, ops) && AllRepresentable(ops)
    requires last.Some? ==> last.value in s.idem
    ensures AllRepresentable(InjectFrom(ops, i, last, fault, every))
    ensures ProperFrom(hash, s, InjectFrom(ops, i, last, fault, every))
    ensures ExecAll(hash, s, InjectFrom(ops, i, last, fault, every)) == ExecAll(hash, s, ops)
    decreases |ops|
  {
    hide Due, InjectFrom, Exec, Proper;
    InjectCons(ops, i, last, fault, every);
    if ops != [] {
      var op, key, t := ops[0], LastKey(ops[0], last), Exec(hash, s, ops[0]);
      var due, rest := Due(fault, key, i, every), InjectFrom(ops[1..], i + 1, key, fault, every);
      KeyIsSpent(hash, s, op, last);
      DueIsQuiet(hash, t, fault, key, i, every);
      InjectionKeepsProper(hash, t, ops[1..], i + 1, key, fault, every);
      ProperAppend(hash, t, due, rest);
      ProperCons(hash, s, op, due + rest);
    }
  }

  lemma InjectCons(ops: seq<Op>, i: nat, last: Option<Key>, fault: Fault, every: nat)
    requires every > 0
    ensures ops == [] ==> InjectFrom(ops, i, last, fault, every) == []
    ensures ops != [] ==>
      var key := LastKey(ops[0], last);
      InjectFrom(ops, i, last, fault, every)
        == [ops[0]] + (Due(fault, key, i, every) + InjectFrom(ops[1..], i + 1, key, fault, every))
  {
    hide Due;
  }

  /** The key a replay would carry has been admitted. */
  lemma KeyIsSpent(hash: Hash, s: State, op: Op, last: Option<Key>)
    requires Proper(hash, s, op) && (last.Some? ==> last.value in s.idem)
    ensures LastKey(op, last).Some? ==> LastKey(op, last).value in Exec(hash, s, op).idem
  {
  }

  lemma ProperCons(hash: Hash, s: State, op: Op, rest: seq<Op>)
    requires Proper(hash, s, op) && AllRepresentable(rest) && ProperFrom(hash, Exec(hash, s, op), rest)
    ensures AllRepresentable([op] + rest) && ProperFrom(hash, s, [op] + rest)
    ensures ExecAll(hash, s, [op] + rest) == ExecAll(hash, Exec(hash, s, op), rest)
  {
    hide Exec;
    assert ([op] + rest)[0] == op && ([op] + rest)[1..] == rest;
  }

  /** Every replay names one of `keys`, or a submission before it. */
  ghost predicate ReplaysAmong(keys: set<Key>, ops: seq<Op>)
    decreases |ops|
  {
    ops == []
    || ((ops[0].Duplicate? ==> ops[0].key in keys) && ReplaysAmong(Spent(keys, ops[0]), ops[1..]))
  }

  function Spent(keys: set<Key>, op: Op): set<Key> {
    if op.Submit? then keys + {op.key} else keys
  }

  /** A replay at `i` names one of `keys` or a submission before `i`. */
  ghost predicate ReplayNamesEarlier(keys: set<Key>, ops: seq<Op>, i: nat)
    requires i < |ops|
  {
    ops[i].Duplicate? ==> ops[i].key in keys || exists j :: 0 <= j < i && ops[j].Submit? && ops[j].key == ops[i].key
  }

  lemma {:induction false} ReplaysAmongAll(keys: set<Key>, ops: seq<Op>)
    ensures ReplaysAmong(keys, ops) <==> forall i :: 0 <= i < |ops| ==> ReplayNamesEarlier(keys, ops, i)
    decreases |ops|
  {
    if ops != [] {
      var op, rest := ops[0], ops[1..];
      ReplaysAmongAll(Spent(keys, op), rest);
      forall i | 0 <= i < |rest|
        ensures ReplayNamesEarlier(keys, ops, i + 1) <==> ReplayNamesEarlier(Spent(keys, op), rest, i)
      {
        OneEarlier(keys, ops, i);
      }
      hide ReplayNamesEarlier;
      assert forall i :: 0 < i < |ops| ==>
        (ReplayNamesEarlier(keys, ops, i) <==> ReplayNamesEarlier(Spent(keys, op), rest, i - 1));
      assert ReplayNamesEarlier(keys, ops, 0) <==> (op.Duplicate? ==> op.key in keys) by {
        FirstReplay(keys, ops);
      }
    }
  }

  lemma FirstReplay(keys: set<Key>, ops: seq<Op>)
    requires ops != []
    ensures ReplayNamesEarlier(keys, ops, 0) <==> (ops[0].Duplicate? ==> ops[0].key in keys)
  {
  }

  lemma OneEarlier(keys: set<Key>, ops: seq<Op>, i: nat)
    requires i + 1 < |ops|
    ensures ReplayNamesEarlier(keys, ops, i + 1) <==> ReplayNamesEarlier(Spent(keys, ops[0]), ops[1..], i)
  {
    var rest, key := ops[1..], ops[i + 1];
    if key.Duplicate? && key.key !in keys {
      if j :| 0 <= j < i + 1 && ops[j].Submit? && ops[j].key == key.key {
        assert j > 0 ==> rest[j - 1] == ops[j];
      }
      if j :| 0 <= j < i && rest[j].Submit? && rest[j].key == key.key {
        assert ops[j + 1] == rest[j];
      }
    }
  }

  lemma {:induction false} InjectionReplaysAmong(
    keys: set<Key>, ops: seq<Op>, i: nat, last: Option<Key>, fault: Fault, every: nat)
    requires every > 0 && ReplaysAmong(keys, ops) && (last.Some? ==> last.value in keys)
    ensures ReplaysAmong(keys, InjectFrom(ops, i, last, fault, every))
    decreases |ops|
  {
    hide Due, InjectFrom;
    InjectCons(ops, i, last, fault, every);
    if ops != [] {
      var op, key := ops[0], LastKey(ops[0], last);
      var due, rest := Due(fault, key, i, every), InjectFrom(ops[1..], i + 1, key, fault, every);
      InjectionReplaysAmong(Spent(keys, op), ops[1..], i + 1, key, fault, every);
      DueReplaysAmong(Spent(keys, op), fault, key, i, every, rest);
      assert ([op] + (due + rest))[1..] == due + rest;
    }
  }

  lemma DueReplaysAmong(keys: set<Key>, fault: Fault, last: Option<Key>, i: nat, every: nat, rest: seq<Op>)
    requires every > 0 && ReplaysAmong(keys, rest) && (last.Some? ==> last.value in keys)
    ensures ReplaysAmong(keys, Due(fault, last, i, every) + rest)
  {
    var due := Due(fault, last, i, every);
    assert forall k :: 0 <= k < |due| ==> !due[k].Submit? && (due[k].Duplicate? ==> due[k].key in keys);
    hide Due;
    QuietReplaysAmong(keys, due, rest);
  }

  lemma {:induction false} QuietReplaysAmong(keys: set<Key>, due: seq<Op>, rest: seq<Op>)
    requires ReplaysAmong(keys, rest)
    requires forall k :: 0 <= k < |due| ==> !due[k].Submit? && (due[k].Duplicate? ==> due[k].key in keys)
    ensures ReplaysAmong(keys, due + rest)
  {
    if due == [] {
      assert due + rest == rest;
    } else {
      QuietReplaysAmong(keys, due[1..], rest);
      assert (due + rest)[0] == due[0] && (due + rest)[1..] == due[1..] + rest;
    }
  }

  /** **A campaign replays only what it has submitted**: if every replay of the base names an earlier
      submission, so does every replay of the campaign, the injected ones included. */
  lemma InjectionKeepsReplays(ops: seq<Op>, fault: Fault, every: nat)
    requires every > 0 && ReplaysEarlier(ops)
    ensures ReplaysEarlier(InjectFrom(ops, 0, None, fault, every))
  {
    ReplaysAmongAll({}, ops);
    InjectionReplaysAmong({}, ops, 0, None, fault, every);
    ReplaysAmongAll({}, InjectFrom(ops, 0, None, fault, every));
    EarlierIsAmong(ops);
    EarlierIsAmong(InjectFrom(ops, 0, None, fault, every));
  }

  lemma EarlierIsAmong(ops: seq<Op>)
    ensures ReplaysEarlier(ops) <==> forall i :: 0 <= i < |ops| ==> ReplayNamesEarlier({}, ops, i)
  {
    if ReplaysEarlier(ops) {
      forall i | 0 <= i < |ops| ensures ReplayNamesEarlier({}, ops, i) {
      }
    }
    if forall i :: 0 <= i < |ops| ==> ReplayNamesEarlier({}, ops, i) {
      forall i | 0 <= i < |ops| && ops[i].Duplicate?
        ensures exists j :: 0 <= j < i && ops[j].Submit? && ops[j].key == ops[i].key
      {
        assert ReplayNamesEarlier({}, ops, i);
      }
    }
  }

  // ---------- Reordering reads ----------

  function Reads(ops: seq<Op>): (r: seq<Op>)
    ensures |r| <= |ops| && forall i :: 0 <= i < |r| ==> r[i].Read?
  {
    if ops == [] then []
    else (if ops[0].Read? then [ops[0]] else []) + Reads(ops[1..])
  }

  function Writes(ops: seq<Op>): seq<Op> {
    if ops == [] then []
    else (if ops[0].Read? then [] else [ops[0]]) + Writes(ops[1..])
  }

  function Reverse<T>(s: seq<T>): (r: seq<T>)
    ensures |r| == |s| && forall i :: 0 <= i < |s| ==> r[i] == s[|s| - 1 - i]
  {
    if s == [] then [] else Reverse(s[1..]) + [s[0]]
  }

  /** `ops` with its reads replaced, in order, by `observed` for as long as there are any. */
  function Place(ops: seq<Op>, observed: seq<Op>): seq<Op> {
    if ops == [] then []
    else if !ops[0].Read? then [ops[0]] + Place(ops[1..], observed)
    else if observed == [] then [ops[0]] + Place(ops[1..], [])
    else [observed[0]] + Place(ops[1..], observed[1..])
  }

  function Reordered(ops: seq<Op>): seq<Op> {
    Place(ops, Reverse(Reads(ops)))
  }

  lemma {:induction false} ReadsSnoc(ops: seq<Op>, op: Op)
    ensures Reads(ops + [op]) == Reads(ops) + if op.Read? then [op] else []
  {
    if ops == [] {
      assert ops + [op] == [op] && [op][1..] == [];
    } else {
      assert (ops + [op])[1..] == ops[1..] + [op];
      ReadsSnoc(ops[1..], op);
    }
  }

  lemma PlaceNext(ops: seq<Op>, left: seq<Op>)
    requires ops != []
    ensures Place(ops, left) ==
      if ops[0].Read? && left != [] then [left[0]] + Place(ops[1..], left[1..]) else [ops[0]] + Place(ops[1..], left)
  {
  }

  lemma NothingPlaced(left: seq<Op>)
    ensures Place([], left) == []
  {
  }

  /** The same writes in the same places, with the reads between them in reverse. */
  method ReorderReads(base: Schedule) returns (s: Schedule)
    ensures s.seed == base.seed && s.ops == Reordered(base.ops)
  {
    var observed := ReadsIn(base.ops);
    hide Place, Reordered, Reads, Reverse;
    var left := Reverse(observed);
    var ops: seq<Op> := [];
    ReorderedIs(base.ops);
    assert base.ops[0..] == base.ops;
    for i := 0 to |base.ops|
      invariant ops + Place(base.ops[i..], left) == Reordered(base.ops)
    {
      var op := base.ops[i];
      PlaceNext(base.ops[i..], left);
      assert base.ops[i..][0] == op && base.ops[i..][1..] == base.ops[i + 1..];
      if op.Read? && left != [] {
        Associates(ops, [left[0]], Place(base.ops[i + 1..], left[1..]));
        ops := ops + [left[0]];
        left := left[1..];
      } else {
        Associates(ops, [op], Place(base.ops[i + 1..], left));
        ops := ops + [op];
      }
    }
    NothingPlaced(left);
    assert base.ops[|base.ops|..] == [];
    s := Schedule(base.seed, ops);
  }

  method ReadsIn(ops: seq<Op>) returns (observed: seq<Op>)
    ensures observed == Reads(ops)
  {
    observed := [];
    for i := 0 to |ops|
      invariant observed == Reads(ops[..i])
    {
      ReadsSnoc(ops[..i], ops[i]);
      assert ops[..i + 1] == ops[..i] + [ops[i]];
      if ops[i].Read? {
        observed := observed + [ops[i]];
      }
    }
    assert ops[..|ops|] == ops;
  }

  lemma ReorderedIs(ops: seq<Op>)
    ensures [] + Place(ops, Reverse(Reads(ops))) == Reordered(ops)
  {
  }

  lemma PlaceFacts(ops: seq<Op>, observed: seq<Op>)
    requires |observed| == |Reads(ops)| && forall i :: 0 <= i < |observed| ==> observed[i].Read?
    ensures |Place(ops, observed)| == |ops|
    ensures Reads(Place(ops, observed)) == observed && Writes(Place(ops, observed)) == Writes(ops)
    ensures forall i :: 0 <= i < |ops| ==>
      (Place(ops, observed)[i].Read? <==> ops[i].Read?) && (!ops[i].Read? ==> Place(ops, observed)[i] == ops[i])
  {
    PlaceKeepsKinds(ops, observed);
    PlaceReads(ops, observed);
  }

  lemma {:induction false} PlaceKeepsKinds(ops: seq<Op>, observed: seq<Op>)
    requires |observed| == |Reads(ops)| && forall i :: 0 <= i < |observed| ==> observed[i].Read?
    ensures |Place(ops, observed)| == |ops|
    ensures forall i :: 0 <= i < |ops| ==>
      (Place(ops, observed)[i].Read? <==> ops[i].Read?) && (!ops[i].Read? ==> Place(ops, observed)[i] == ops[i])
  {
    if ops != [] {
      PlaceOne(ops, observed);
      PlaceKeepsKinds(ops[1..], if ops[0].Read? then observed[1..] else observed);
    }
  }

  lemma {:induction false} PlaceReads(ops: seq<Op>, observed: seq<Op>)
    requires |observed| == |Reads(ops)| && forall i :: 0 <= i < |observed| ==> observed[i].Read?
    ensures Reads(Place(ops, observed)) == observed && Writes(Place(ops, observed)) == Writes(ops)
  {
    if ops != [] {
      var op, tail := ops[0], ops[1..];
      assert ops == [op] + tail;
      ReadsCons(op, tail);
      PlaceOne(ops, observed);
      hide Place, Reads, Writes;
      if op.Read? {
        PlaceReads(tail, observed[1..]);
        ReadsCons(observed[0], Place(tail, observed[1..]));
      } else {
        PlaceReads(tail, observed);
        ReadsCons(op, Place(tail, observed));
      }
    }
  }

  lemma PlaceOne(ops: seq<Op>, observed: seq<Op>)
    requires ops != [] && (ops[0].Read? ==> observed != [])
    ensures Place(ops, observed) ==
      if ops[0].Read? then [observed[0]] + Place(ops[1..], observed[1..]) else [ops[0]] + Place(ops[1..], observed)
  {
  }

  lemma ReadsCons(op: Op, rest: seq<Op>)
    ensures Reads([op] + rest) == (if op.Read? then [op] else []) + Reads(rest)
    ensures Writes([op] + rest) == (if op.Read? then [] else [op]) + Writes(rest)
  {
    assert ([op] + rest)[1..] == rest;
  }

  /** Putting the original reads back gives the original operations. */
  lemma {:induction false} PlaceBack(ops: seq<Op>, observed: seq<Op>)
    requires |observed| == |Reads(ops)| && forall i :: 0 <= i < |observed| ==> observed[i].Read?
    ensures Place(Place(ops, observed), Reads(ops)) == ops
  {
    if ops != [] {
      var rest := if ops[0].Read? then observed[1..] else observed;
      var first := if ops[0].Read? then observed[0] else ops[0];
      PlaceBack(ops[1..], rest);
      var placed := Place(ops, observed);
      assert placed == [first] + Place(ops[1..], rest);
      assert placed[1..] == Place(ops[1..], rest) && placed[0] == first;
      if ops[0].Read? {
        assert Reads(ops) == [ops[0]] + Reads(ops[1..]);
        assert Reads(ops)[1..] == Reads(ops[1..]);
        assert Place(placed, Reads(ops)) == [ops[0]] + Place(placed[1..], Reads(ops)[1..]);
      } else {
        assert Reads(ops) == Reads(ops[1..]);
        assert Place(placed, Reads(ops)) == [ops[0]] + Place(placed[1..], Reads(ops));
      }
    }
  }

  lemma ReverseTwice<T>(s: seq<T>)
    ensures Reverse(Reverse(s)) == s
  {
  }

  /** **Reordering moves no write and undoes itself.** */
  lemma ReorderingInvolution(ops: seq<Op>)
    ensures |Reordered(ops)| == |ops| && Writes(Reordered(ops)) == Writes(ops)
    ensures forall i :: 0 <= i < |ops| && !ops[i].Read? ==> Reordered(ops)[i] == ops[i]
    ensures Reads(Reordered(ops)) == Reverse(Reads(ops))
    ensures Reordered(Reordered(ops)) == ops
  {
    PlaceFacts(ops, Reverse(Reads(ops)));
    PlaceBack(ops, Reverse(Reads(ops)));
    ReverseTwice(Reads(ops));
  }

  /** Reads do not move the oracle, so neither does replacing them. */
  lemma {:induction false} PlaceKeepsHistory(hash: Hash, s: State, ops: seq<Op>, observed: seq<Op>)
    requires AllRepresentable(ops) && forall i :: 0 <= i < |observed| ==> observed[i].Read?
    ensures AllRepresentable(Place(ops, observed))
    ensures ExecAll(hash, s, Place(ops, observed)) == ExecAll(hash, s, ops)
    decreases |ops|
  {
    if ops != [] {
      var rest := if ops[0].Read? && observed != [] then observed[1..] else observed;
      var first := if ops[0].Read? && observed != [] then observed[0] else ops[0];
      PlaceKeepsHistory(hash, Exec(hash, s, ops[0]), ops[1..], rest);
      var placed := Place(ops, observed);
      assert placed == [first] + Place(ops[1..], rest);
      assert placed[0] == first && placed[1..] == Place(ops[1..], rest);
      assert Exec(hash, s, first) == Exec(hash, s, ops[0]);
    }
  }
}
