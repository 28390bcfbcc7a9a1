/** The replica bracket: which epochs an answer read through a lagging replica can be for. */
module Replica {
  import opened Prelude

  const MAX_U64: u64 := 0xFFFF_FFFF_FFFF_FFFF

  /** Per measured write, the log position just before it and just after it; the latter is the
      greatest position while the write is in flight. */
  type Positions = map<u64, (u64, u64)>

  /** The greatest of `s` and `floor`. */
  ghost function Greatest(s: set<u64>, floor: u64): (m: u64)
    ensures m >= floor && (m == floor || m in s) && forall x :: x in s ==> x <= m
  {
    if s == {} then floor
    else
      var x :| x in s;
      var m := Greatest(s - {x}, floor);
      assert forall y :: y in s ==> y == x || y in s - {x};
      if x > m then x else m
  }

  ghost function Surely(positions: Positions, lo: u64): set<u64> {
    set i | i in positions && positions[i].1 <= lo
  }

  ghost function Possibly(positions: Positions, hi: u64): set<u64> {
    set i | i in positions && positions[i].0 < hi
  }

  /** The greatest write surely behind the lower position, and the greatest possibly behind the upper. */
  ghost function Bracket(positions: Positions, loadedHead: u64, lo: u64, hi: u64): (u64, u64) {
    var must := Greatest(Surely(positions, lo), loadedHead);
    (must, Greatest(Possibly(positions, hi), must))
  }

  /** What is recorded just before write `idx`, at log position `p`. */
  function Begun(positions: Positions, idx: u64, p: u64): Positions {
    positions[idx := (p, MAX_U64)]
  }

  /** What is recorded just after it; a write never begun leaves no record. */
  function Ended(positions: Positions, idx: u64, p: u64): Positions {
    if idx in positions then positions[idx := (positions[idx].0, p)] else positions
  }

  class Recorder {
    const loadedHead: u64
    var positions: Positions

    constructor (loadedHead: u64)
      ensures this.loadedHead == loadedHead && positions == map[]
    {
      this.loadedHead, positions := loadedHead, map[];
    }

    method BeforeWrite(idx: u64, p: u64)
      modifies this
      ensures positions == Begun(old(positions), idx, p) == old(positions)[idx := (p, 0xFFFF_FFFF_FFFF_FFFF)]
    {
      positions := positions[idx := (p, MAX_U64)];
    }

    method AfterWrite(idx: u64, p: u64)
      modifies this
      ensures positions == Ended(old(positions), idx, p)
      ensures positions == if idx in old(positions) then old(positions)[idx := (old(positions)[idx].0, p)] else old(positions)
    {
      if idx in positions {
        positions := positions[idx := (positions[idx].0, p)];
      }
    }

    method EpochsBetween(lo: u64, hi: u64) returns (must: u64, may: u64)
      ensures (must, may) == Bracket(positions, loadedHead, lo, hi)
    {
      must, may := loadedHead, loadedHead;
      ghost var done: set<u64> := {};
      var left := positions.Keys;
      while left != {}
        invariant done !! left && done + left == positions.Keys
        invariant must >= loadedHead && (must == loadedHead || must in Surely(positions, lo))
        invariant may >= loadedHead && (may == loadedHead || may in Possibly(positions, hi))
        invariant forall i :: i in done && i in Surely(positions, lo) ==> i <= must
        invariant forall i :: i in done && i in Possibly(positions, hi) ==> i <= may
      {
        var i :| i in left;
        if positions[i].1 <= lo && i > must {
          must := i;
        }
        if positions[i].0 < hi && i > may {
          may := i;
        }
        done, left := done + {i}, left - {i};
      }
      assert done == positions.Keys;
      may := if may < must then must else may;
    }
  }

  // ---------- Writer, replica and reader, as one protocol ----------

  datatype Writer = Idle | Writing(idx: u64) | Committed(done: u64)

  /** A read: the lowest applied position before it, where the answer was computed and for which
      epoch, and the highest applied position after it. */
  datatype Reader =
    | NotReading
    | SawLow(lo: u64)
    | Answered(lo: u64, at: u64, epoch: u64)
    | Finished(lo: u64, at: u64, epoch: u64, hi: u64)

  /** `lowest` and `highest` bound how far the replica's parts have applied the log. */
  datatype System = System(
    log: u64, commits: map<u64, u64>, positions: Positions, writer: Writer, last: u64,
    lowest: u64, highest: u64, reader: Reader)

  datatype Event =
    | LogGrows(to: u64)
    | BeginWrite
    | Commit(at: u64)
    | EndWrite
    | Apply(low: u64, high: u64)
    | ReadLow
    | Answer(at: u64)
    | ReadHigh

  ghost function Start(log: u64, loadedHead: u64): System {
    System(log, map[], map[], Idle, loadedHead, log, log, NotReading)
  }

  ghost function AppliedWrites(commits: map<u64, u64>, at: u64): set<u64> {
    set i | i in commits && commits[i] <= at
  }

  /** The epoch whose prefix a position has applied. */
  ghost function AppliedEpoch(commits: map<u64, u64>, loadedHead: u64, at: u64): u64 {
    Greatest(AppliedWrites(commits, at), loadedHead)
  }

  /** When an event can happen: one writer at a time, a commit strictly after everything logged so far,
      a replica that only moves forward and never past the log, and answers computed at a position the
      replica reports. */
  predicate Enabled(s: System, e: Event) {
    match e
    case LogGrows(to) => s.log <= to < MAX_U64
    case BeginWrite => s.writer.Idle? && s.last < MAX_U64
    case Commit(at) => s.writer.Writing? && s.log < at < MAX_U64
    case EndWrite => s.writer.Committed?
    case Apply(low, high) => s.lowest <= low <= high && s.highest <= high <= s.log
    case ReadLow => true
    case Answer(at) => s.reader.SawLow? && s.lowest <= at <= s.highest
    case ReadHigh => s.reader.Answered?
  }

  ghost function Next(s: System, loadedHead: u64, e: Event): System
    requires Enabled(s, e)
  {
    match e
    case LogGrows(to) => s.(log := to)
    case BeginWrite =>
      var idx := s.last + 1;
      s.(writer := Writing(idx), last := idx, positions := Begun(s.positions, idx, s.log))
    case Commit(at) =>
      s.(log := at, commits := s.commits[s.writer.idx := at], writer := Committed(s.writer.idx))
    case EndWrite =>
      s.(writer := Idle, positions := Ended(s.positions, s.writer.done, s.log))
    case Apply(low, high) => s.(lowest := low, highest := high)
    case ReadLow => s.(reader := SawLow(s.lowest))
    case Answer(at) => s.(reader := Answered(s.reader.lo, at, AppliedEpoch(s.commits, loadedHead, at)))
    case ReadHigh => s.(reader := Finished(s.reader.lo, s.reader.at, s.reader.epoch, s.highest))
  }

  /** The events of a run are each enabled where they occur. */
  ghost predicate IsRun(log: u64, loadedHead: u64, events: seq<Event>)
    decreases |events|, 0
  {
    events == [] ||
    (var before := events[..|events| - 1];
     IsRun(log, loadedHead, before) && Enabled(After(log, loadedHead, before), events[|events| - 1]))
  }

  ghost function After(log: u64, loadedHead: u64, events: seq<Event>): System
    requires IsRun(log, loadedHead, events)
    decreases |events|, 1
  {
    if events == [] then Start(log, loadedHead)
    else Next(After(log, loadedHead, events[..|events| - 1]), loadedHead, events[|events| - 1])
  }

  /** Each committed write's place: after its recorded start, at or before its recorded end. */
  ghost predicate Placed(s: System, loadedHead: u64) {
    && (forall i :: i in s.commits ==>
          i in s.positions && s.positions[i].0 < s.commits[i] <= s.positions[i].1
          && s.commits[i] <= s.log && loadedHead < i <= s.last)
    && (forall i :: i in s.positions && i !in s.commits ==> s.positions[i].1 == MAX_U64)
    && (forall i :: i in s.positions ==> i <= s.last)
  }

  /** Commits happen in index order. */
  ghost predicate InOrder(commits: map<u64, u64>) {
    forall i, j :: i in commits && j in commits && i < j ==> commits[i] < commits[j]
  }

  ghost predicate WriterAgrees(s: System, loadedHead: u64) {
    match s.writer
    case Idle => true
    case Writing(i) =>
      i == s.last && loadedHead < i && i !in s.commits && i in s.positions && s.positions[i].0 <= s.log
    case Committed(i) => i == s.last && i in s.commits && i in s.positions
  }

  /** Every write begun is committed, but for the one in flight. */
  ghost predicate NoGaps(s: System, loadedHead: u64) {
    forall i: u64 :: loadedHead < i <= s.last ==> i in s.commits || s.writer == Writing(i)
  }

  ghost predicate ReaderAgrees(s: System, loadedHead: u64) {
    match s.reader
    case NotReading => true
    case SawLow(lo) => lo <= s.lowest
    case Answered(lo, at, e) => lo <= at <= s.highest && e == AppliedEpoch(s.commits, loadedHead, at)
    case Finished(lo, at, e, hi) => lo <= at <= hi <= s.highest && e == AppliedEpoch(s.commits, loadedHead, at)
  }

  ghost predicate Inv(s: System, loadedHead: u64) {
    && Placed(s, loadedHead) && InOrder(s.commits) && WriterAgrees(s, loadedHead) && ReaderAgrees(s, loadedHead)
    && NoGaps(s, loadedHead) && s.lowest <= s.highest <= s.log < MAX_U64 && loadedHead <= s.last
  }

  /** A later commit is beyond everything applied so far, so it changes no earlier answer's epoch. */
  lemma LaterCommitsDoNotMatter(commits: map<u64, u64>, loadedHead: u64, at: u64, idx: u64, c: u64)
    requires idx !in commits && at < c
    ensures AppliedEpoch(commits[idx := c], loadedHead, at) == AppliedEpoch(commits, loadedHead, at)
  {
    assert AppliedWrites(commits[idx := c], at) == AppliedWrites(commits, at);
  }

  lemma NextKeepsPlaced(s: System, loadedHead: u64, e: Event)
    requires Inv(s, loadedHead) && Enabled(s, e)
    ensures var t := Next(s, loadedHead, e);
            Placed(t, loadedHead) && WriterAgrees(t, loadedHead)
  {
    hide AppliedEpoch, ReaderAgrees, InOrder, NoGaps;
  }

  lemma NextKeepsNoGaps(s: System, loadedHead: u64, e: Event)
    requires Inv(s, loadedHead) && Enabled(s, e)
    ensures NoGaps(Next(s, loadedHead, e), loadedHead)
  {
    hide AppliedEpoch, ReaderAgrees, InOrder, Placed, Begun, Ended;
  }

  lemma NextKeepsOrder(s: System, loadedHead: u64, e: Event)
    requires Inv(s, loadedHead) && Enabled(s, e)
    ensures InOrder(Next(s, loadedHead, e).commits)
  {
    hide AppliedEpoch, ReaderAgrees, Begun, Ended, NoGaps;
  }

  lemma NextKeepsReader(s: System, loadedHead: u64, e: Event)
    requires Inv(s, loadedHead) && Enabled(s, e)
    ensures ReaderAgrees(Next(s, loadedHead, e), loadedHead)
  {
    hide AppliedEpoch, Placed, InOrder, NoGaps;
    if e.Commit? && (s.reader.Answered? || s.reader.Finished?) {
      LaterCommitsDoNotMatter(s.commits, loadedHead, s.reader.at, s.writer.idx, e.at);
    }
  }

  lemma NextKeepsInv(s: System, loadedHead: u64, e: Event)
    requires Inv(s, loadedHead) && Enabled(s, e)
    ensures Inv(Next(s, loadedHead, e), loadedHead)
  {
    NextKeepsPlaced(s, loadedHead, e);
    NextKeepsOrder(s, loadedHead, e);
    NextKeepsReader(s, loadedHead, e);
    NextKeepsNoGaps(s, loadedHead, e);
    hide AppliedEpoch, Placed, InOrder, WriterAgrees, ReaderAgrees, NoGaps;
  }

  lemma {:induction false} RunsKeepInv(log: u64, loadedHead: u64, events: seq<Event>)
    requires log < MAX_U64 && IsRun(log, loadedHead, events)
    ensures Inv(After(log, loadedHead, events), loadedHead)
  {
    if events != [] {
      RunsKeepInv(log, loadedHead, events[..|events| - 1]);
      NextKeepsInv(After(log, loadedHead, events[..|events| - 1]), loadedHead, events[|events| - 1]);
    }
  }

  /** **The bracket is sound over every run**: when a read has finished, whatever the writer and the
      replica did meanwhile or do afterwards, the epoch it was answered for lies in the bracket, and the
      answer saw exactly the writes up to that epoch. */
  lemma BracketIsSound(log: u64, loadedHead: u64, events: seq<Event>)
    requires log < MAX_U64 && IsRun(log, loadedHead, events)
    requires After(log, loadedHead, events).reader.Finished?
    ensures var s := After(log, loadedHead, events);
            var (must, may) := Bracket(s.positions, loadedHead, s.reader.lo, s.reader.hi);
            must <= s.reader.epoch <= may && s.reader.epoch <= s.last
    ensures var s := After(log, loadedHead, events);
            && s.reader.epoch >= loadedHead && (forall i :: i in s.commits ==> i > loadedHead)
            && (forall i: u64 :: i > loadedHead ==> (AppliedAt(s.commits, i, s.reader.at) <==> i <= s.reader.epoch))
  {
    hide IsRun, After;
    RunsKeepInv(log, loadedHead, events);
    EpochInBracket(After(log, loadedHead, events), loadedHead);
    EpochIsPrefix(After(log, loadedHead, events), loadedHead);
  }

  lemma EpochInBracket(s: System, loadedHead: u64)
    requires Inv(s, loadedHead) && s.reader.Finished?
    ensures var (must, may) := Bracket(s.positions, loadedHead, s.reader.lo, s.reader.hi);
            must <= s.reader.epoch <= may && s.reader.epoch <= s.last
  {
    var r := s.reader;
    var applied := AppliedWrites(s.commits, r.at);
    assert r.epoch == Greatest(applied, loadedHead);
    assert forall i :: i in Surely(s.positions, r.lo) ==> i in applied;
    assert forall i :: i in applied ==> i in Possibly(s.positions, r.hi);
  }

  lemma EpochIsPrefix(s: System, loadedHead: u64)
    requires Inv(s, loadedHead) && s.reader.Finished?
    ensures s.reader.epoch >= loadedHead && forall i :: i in s.commits ==> i > loadedHead
    ensures forall i: u64 :: i > loadedHead ==> (AppliedAt(s.commits, i, s.reader.at) <==> i <= s.reader.epoch)
  {
    var r := s.reader;
    assert r.epoch == AppliedEpoch(s.commits, loadedHead, r.at);
    forall i: u64 | i > loadedHead ensures AppliedAt(s.commits, i, r.at) <==> i <= r.epoch {
      AppliedExactlyUpto(s, loadedHead, r.at, i);
    }
  }

  /** A position has applied exactly the writes up to its epoch. */
  lemma AppliedExactlyUpto(s: System, loadedHead: u64, at: u64, i: u64)
    requires Placed(s, loadedHead) && InOrder(s.commits) && WriterAgrees(s, loadedHead) && NoGaps(s, loadedHead)
    requires i > loadedHead
    ensures AppliedAt(s.commits, i, at) <==> i <= AppliedEpoch(s.commits, loadedHead, at)
  {
    var applied, epoch := AppliedWrites(s.commits, at), AppliedEpoch(s.commits, loadedHead, at);
    assert AppliedAt(s.commits, i, at) ==> i in applied;
    if i < epoch {
      assert epoch in applied && epoch <= s.last;
    }
  }

  ghost predicate AppliedAt(commits: map<u64, u64>, i: u64, at: u64) {
    i in commits && commits[i] <= at
  }

  // ---------- No bracket could be narrower ----------

  /** Writes are recorded one after another, each ending beyond where it began. */
  ghost predicate Sequential(positions: Positions) {
    && (forall i :: i in positions ==> positions[i].0 < positions[i].1)
    && (forall i, j :: i in positions && j in positions && i < j ==> positions[i].1 <= positions[j].0)
  }

  /** All but a write in flight ended at or before the head of the log. */
  ghost predicate Ending(s: System) {
    && Sequential(s.positions)
    && (forall i :: i in s.positions ==> s.positions[i].0 <= s.log)
    && (forall i :: i in s.positions ==> s.positions[i].1 <= s.log || (i == s.last && !s.writer.Idle?))
  }

  lemma {:induction false} RunsAreSequential(log: u64, loadedHead: u64, events: seq<Event>)
    requires log < MAX_U64 && IsRun(log, loadedHead, events)
    ensures Ending(After(log, loadedHead, events))
  {
    if events != [] {
      var before := events[..|events| - 1];
      RunsAreSequential(log, loadedHead, before);
      RunsKeepInv(log, loadedHead, before);
      NextKeepsEnding(After(log, loadedHead, before), loadedHead, events[|events| - 1]);
    }
  }

  lemma NextKeepsEnding(s: System, loadedHead: u64, e: Event)
    requires Inv(s, loadedHead) && Ending(s) && Enabled(s, e)
    ensures Ending(Next(s, loadedHead, e))
  {
    WritesSoFar(s, loadedHead);
    hide Inv, AppliedEpoch, Ending, Begun, Ended;
    if e.BeginWrite? {
      BegunEnds(s, s.last + 1);
    } else if e.EndWrite? {
      EndedEnds(s);
    } else {
      QuietlyNext(s, loadedHead, e);
      EndingMoves(s, Next(s, loadedHead, e));
    }
  }

  lemma QuietlyNext(s: System, loadedHead: u64, e: Event)
    requires Inv(s, loadedHead) && Enabled(s, e) && !e.BeginWrite? && !e.EndWrite?
    ensures var t := Next(s, loadedHead, e);
      && t.positions == s.positions && t.last == s.last && s.log <= t.log
      && (t.writer.Idle? ==> s.writer.Idle?)
  {
  }

  lemma WritesSoFar(s: System, loadedHead: u64)
    requires Inv(s, loadedHead)
    ensures forall i :: i in s.positions ==> i <= s.last
    ensures s.writer.Committed? ==>
      s.writer.done == s.last && s.last in s.positions && s.positions[s.last].0 < s.log
  {
    hide AppliedEpoch, ReaderAgrees, InOrder, NoGaps;
  }

  lemma EndingMoves(s: System, t: System)
    requires Ending(s) && t.positions == s.positions && t.last == s.last && s.log <= t.log
    requires t.writer.Idle? ==> s.writer.Idle?
    ensures Ending(t)
  {
    hide Sequential;
  }

  lemma BegunEnds(s: System, idx: u64)
    requires Ending(s) && s.writer.Idle? && s.log < MAX_U64
    requires forall i :: i in s.positions ==> i < idx
    ensures Ending(s.(writer := Writing(idx), last := idx, positions := Begun(s.positions, idx, s.log)))
  {
    BegunStaysSequential(s.positions, idx, s.log);
    hide Sequential;
  }

  lemma EndedEnds(s: System)
    requires Ending(s) && s.last in s.positions && s.positions[s.last].0 < s.log
    requires forall i :: i in s.positions ==> i <= s.last
    ensures Ending(s.(writer := Idle, positions := Ended(s.positions, s.last, s.log)))
  {
    EndedStaysSequential(s.positions, s.last, s.log);
    hide Sequential;
  }

  lemma BegunStaysSequential(positions: Positions, idx: u64, p: u64)
    requires Sequential(positions) && p < MAX_U64
    requires forall i :: i in positions ==> i < idx && positions[i].1 <= p
    ensures Sequential(Begun(positions, idx, p))
  {
  }

  lemma EndedStaysSequential(positions: Positions, idx: u64, p: u64)
    requires Sequential(positions) && idx in positions && positions[idx].0 < p
    requires forall i :: i in positions ==> i <= idx
    ensures Sequential(Ended(positions, idx, p))
  {
  }

  /** Commits that the recorded positions leave possible. */
  ghost predicate MayBe(commits: map<u64, u64>, positions: Positions) {
    && commits.Keys == positions.Keys && InOrder(commits)
    && forall i :: i in positions ==> positions[i].0 < commits[i] <= positions[i].1
  }

  /** What the bracket is: each end is the loaded head, or a recorded write, one that ended by `lo` for the
      lower end and one that began before `hi` for the upper, and no such write is beyond it. */
  lemma BracketIs(positions: Positions, loadedHead: u64, lo: u64, hi: u64)
    requires lo <= hi && forall i :: i in positions ==> positions[i].0 < positions[i].1
    ensures var (must, may) := Bracket(positions, loadedHead, lo, hi);
      && loadedHead <= must <= may
      && (must == loadedHead || (must in positions && positions[must].1 <= lo))
      && (may == loadedHead || (may in positions && positions[may].0 < hi))
      && (forall i :: i in positions && positions[i].1 <= lo ==> i <= must)
      && (forall i :: i in positions && positions[i].0 < hi ==> i <= may)
  {
    assert forall i :: i in positions && positions[i].1 <= lo ==> i in Surely(positions, lo);
    assert forall i :: i in positions && positions[i].0 < hi ==> i in Possibly(positions, hi);
  }

  /** **No narrower bracket is sound.** Whatever commits the positions leave possible, an answer computed
      between the offsets has its epoch in the bracket; and some of them put an answer at each end. */
  lemma BracketIsTight(positions: Positions, loadedHead: u64, lo: u64, hi: u64)
    requires Sequential(positions) && lo <= hi
    ensures var (must, may) := Bracket(positions, loadedHead, lo, hi);
      && (forall commits, at: u64 :: MayBe(commits, positions) && lo <= at <= hi ==>
            must <= AppliedEpoch(commits, loadedHead, at) <= may)
      && (exists commits :: MayBe(commits, positions) && AppliedEpoch(commits, loadedHead, lo) == must)
      && (exists commits :: MayBe(commits, positions) && AppliedEpoch(commits, loadedHead, hi) == may)
  {
    EpochsAreInside(positions, loadedHead, lo, hi);
    BothEndsAreReached(positions, loadedHead, lo, hi);
    hide AppliedEpoch, Bracket, MayBe;
  }

  lemma EpochsAreInside(positions: Positions, loadedHead: u64, lo: u64, hi: u64)
    requires Sequential(positions) && lo <= hi
    ensures var (must, may) := Bracket(positions, loadedHead, lo, hi);
      forall commits, at: u64 :: MayBe(commits, positions) && lo <= at <= hi ==>
        must <= AppliedEpoch(commits, loadedHead, at) <= may
  {
    BracketIs(positions, loadedHead, lo, hi);
    hide AppliedEpoch, Bracket, InOrder;
    forall commits, at: u64 | MayBe(commits, positions) && lo <= at <= hi
      ensures var (must, may) := Bracket(positions, loadedHead, lo, hi);
        must <= AppliedEpoch(commits, loadedHead, at) <= may
    {
      EpochIs(commits, loadedHead, at);
    }
  }

  /** Commits as late as they may be reach the lower end, and as early as they may be the upper. */
  lemma BothEndsAreReached(positions: Positions, loadedHead: u64, lo: u64, hi: u64)
    requires Sequential(positions) && lo <= hi
    ensures var (must, may) := Bracket(positions, loadedHead, lo, hi);
      && (exists commits :: MayBe(commits, positions) && AppliedEpoch(commits, loadedHead, lo) == must)
      && (exists commits :: MayBe(commits, positions) && AppliedEpoch(commits, loadedHead, hi) == may)
  {
    LateReachesLower(positions, loadedHead, lo, hi);
    EarlyReachesUpper(positions, loadedHead, lo, hi);
    hide AppliedEpoch, Bracket, MayBe;
  }

  lemma LateReachesLower(positions: Positions, loadedHead: u64, lo: u64, hi: u64)
    requires Sequential(positions) && lo <= hi
    ensures exists commits ::
      MayBe(commits, positions) && AppliedEpoch(commits, loadedHead, lo) == Bracket(positions, loadedHead, lo, hi).0
  {
    var late: map<u64, u64> := map i | i in positions :: positions[i].1;
    assert MayBe(late, positions);
    hide MayBe, Sequential;
    assert AppliedWrites(late, lo) == Surely(positions, lo);
  }

  lemma EarlyReachesUpper(positions: Positions, loadedHead: u64, lo: u64, hi: u64)
    requires Sequential(positions) && lo <= hi
    ensures exists commits ::
      MayBe(commits, positions) && AppliedEpoch(commits, loadedHead, hi) == Bracket(positions, loadedHead, lo, hi).1
  {
    var early: map<u64, u64> := map i | i in positions :: positions[i].0 + 1;
    assert MayBe(early, positions);
    BracketIs(positions, loadedHead, lo, hi);
    EpochIs(early, loadedHead, hi);
    hide MayBe, Sequential, AppliedEpoch, Bracket;
  }

  lemma EpochIs(commits: map<u64, u64>, loadedHead: u64, at: u64)
    ensures var e := AppliedEpoch(commits, loadedHead, at);
      && e >= loadedHead && (e == loadedHead || (e in commits && commits[e] <= at))
      && forall i :: i in commits && commits[i] <= at ==> i <= e
  {
    assert forall i :: i in commits && commits[i] <= at ==> i in AppliedWrites(commits, at);
  }

  /** **Exactly when an answer reaches the lower end of a bracket**: for an answer computed at any position
      `at`, whatever lower offset `lo` was reported, when the bracket claims no write at all or the greatest
      write it claims was applied at `at`. So a reported offset must not run ahead of what readers see. */
  lemma OffsetsMustBeWhatReadersSee(s: System, loadedHead: u64, lo: u64, hi: u64, at: u64)
    requires Inv(s, loadedHead)
    ensures var must := Bracket(s.positions, loadedHead, lo, hi).0;
      must <= AppliedEpoch(s.commits, loadedHead, at) <==>
        must == loadedHead || AppliedAt(s.commits, must, at)
  {
    var must := Bracket(s.positions, loadedHead, lo, hi).0;
    if must > loadedHead {
      AppliedExactlyUpto(s, loadedHead, at, must);
    }
  }

  /** An offset that runs ahead: a replica that reports 250 while its readers still see position 120
      answers for epoch 50, outside the bracket. */
  lemma OneOffsetAhead()
    ensures var positions: Positions := map[51 := (100, 200)];
            var commits: map<u64, u64> := map[51 := 150];
            Bracket(positions, 50, 250, 250) == (51, 51) && AppliedEpoch(commits, 50, 120) == 50
  {
    var positions: Positions := map[51 := (100, 200)];
    assert Surely(positions, 250) == {51} && Possibly(positions, 250) == {51};
    assert AppliedWrites(map[51 := 150], 120) == {};
  }
}
