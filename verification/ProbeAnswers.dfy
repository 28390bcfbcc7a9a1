/** What the probe reports, over the legs of the log and the clock readings of the mutations. */
module ProbeAnswers {
  import opened Prelude
  import opened ComparatorOracle
  import opened ComparatorAnswers
  import opened Probe

  // ---------- Which reads fit ----------

  /** Which mutations a read in window `w` may have seen: all those over before it opened, and any of those
      begun before it closed. */
  ghost predicate MayHaveSeen(ms: seq<Mutation>, seen: seq<bool>, w: (u64, u64)) {
    |seen| == |ms| && forall i :: 0 <= i < |ms| ==> SeenOrNot(ms[i], seen[i], w)
  }

  ghost predicate SeenOrNot(m: Mutation, seen: bool, w: (u64, u64)) {
    (m.at.1 <= w.0 ==> seen) && (seen ==> m.at.1 <= w.0 || m.at.0 < w.1)
  }

  /** What the mutations seen add to `k` through `e`: a thousand million to a target, and as much from its twin. */
  ghost function Moved(ms: seq<Mutation>, seen: seq<bool>, k: Key, e: u64): int
    requires |seen| == |ms|
  {
    if ms == [] then 0
    else
      var n := |ms| - 1;
      Moved(ms[..n], seen[..n], k, e)
      + if seen[n] && ms[n].epoch <= e
        then (if ms[n].target == k then 1_000_000_000 else if ms[n].twin == k then -1_000_000_000 else 0)
        else 0
  }

  /** What the log alone gives `k` by `e`. */
  ghost function Logged(log: seq<Sealed>, k: Key, e: u64): int {
    SumOver(Through(log, k, e), Moves(log))
  }

  lemma LoggedIsBalance(log: seq<Sealed>, k: Key, e: u64)
    requires Ordered(log)
    ensures BalanceOr0(Replay(log), k, e) == Logged(log, k, e)
  {
    BalanceOfLegs(log, k, e);
    hide Balance, Replay;
  }

  ghost predicate Explained(log: seq<Sealed>, ms: seq<Mutation>, r: Observed, e: u64) {
    exists seen :: MayHaveSeen(ms, seen, r.window) && r.value == Logged(log, r.key, e) + Moved(ms, seen, r.key, e)
  }

  /** A choice of the uncertain mutations, as what was seen. */
  lemma {:induction false} ChoiceIsSeen(ms: seq<Mutation>, picks: seq<bool>, k: Key, e: u64, w: (u64, u64))
    returns (seen: seq<bool>)
    requires |picks| == |ms|
    ensures MayHaveSeen(ms, seen, w)
    ensures Moved(ms, seen, k, e) == CertainSum(ms, k, e, w) + Chosen(ms, picks, k, e, w)
  {
    if ms == [] {
      seen := [];
    } else {
      var n := |ms| - 1;
      var rest := ChoiceIsSeen(ms[..n], picks[..n], k, e, w);
      seen := rest + [Certain(ms[n], w) || (picks[n] && Uncertain(ms[n], w))];
      assert seen[..n] == rest;
      assert forall i :: 0 <= i < n ==> SeenOrNot(ms[..n][i], rest[i], w);
    }
  }

  lemma {:induction false} SeenIsChoice(ms: seq<Mutation>, seen: seq<bool>, k: Key, e: u64, w: (u64, u64))
    requires MayHaveSeen(ms, seen, w)
    ensures Moved(ms, seen, k, e) == CertainSum(ms, k, e, w) + Chosen(ms, seen, k, e, w)
  {
    if ms != [] {
      var n := |ms| - 1;
      assert SeenOrNot(ms[n], seen[n], w);
      SeenIsChoice(ms[..n], seen[..n], k, e, w);
    }
  }

  /** **A read fits exactly when some epoch explains it**: the log through that epoch, every mutation over
      before the read began, and any of those begun before it ended. */
  lemma FitsExactlyWhenExplained(log: seq<Sealed>, ms: seq<Mutation>, r: Observed)
    requires Ordered(log)
    ensures Fits(Replay(log), ms, r) <==> exists e: u64 :: r.first <= e <= r.last && Explained(log, ms, r, e)
  {
    forall e: u64 ensures FitsAt(Replay(log), ms, r, e) <==> Explained(log, ms, r, e) {
      FitsAtExplained(log, ms, r, e);
    }
    hide FitsAt, Explained, Replay;
  }

  lemma FitsAtExplained(log: seq<Sealed>, ms: seq<Mutation>, r: Observed, e: u64)
    requires Ordered(log)
    ensures FitsAt(Replay(log), ms, r, e) <==> Explained(log, ms, r, e)
  {
    var o, k, w := Replay(log), r.key, r.window;
    FitsExactlyWhenTruthful(o, ms, r, e);
    LoggedIsBalance(log, k, e);
    hide FitsAt, BalanceOr0, Logged, Replay, Moved, Chosen, CertainSum, MayHaveSeen;
    if FitsAt(o, ms, r, e) {
      var picks: seq<bool> :| |picks| == |ms| &&
        r.value == BalanceOr0(o, k, e) + CertainSum(ms, k, e, w) + Chosen(ms, picks, k, e, w);
      var seen := ChoiceIsSeen(ms, picks, k, e, w);
      assert Explained(log, ms, r, e);
    }
    if Explained(log, ms, r, e) {
      var seen :| MayHaveSeen(ms, seen, w) && r.value == Logged(log, k, e) + Moved(ms, seen, k, e);
      assert |seen| == |ms| by {
        HaveSeenLength(ms, seen, w);
      }
      SeenIsChoice(ms, seen, k, e, w);
      assert Truthful(o, ms, k, e, w, r.value);
    }
  }

  lemma HaveSeenLength(ms: seq<Mutation>, seen: seq<bool>, w: (u64, u64))
    requires MayHaveSeen(ms, seen, w)
    ensures |seen| == |ms|
  {
  }

  // ---------- What a misfit is called ----------

  /** The mutations over before a read began. */
  ghost function Landed(ms: seq<Mutation>, w: (u64, u64)): (seen: seq<bool>)
    ensures |seen| == |ms| && forall i :: 0 <= i < |ms| ==> (seen[i] <==> ms[i].at.1 <= w.0)
  {
    seq(|ms|, i requires 0 <= i < |ms| => ms[i].at.1 <= w.0)
  }

  /** How far a read is from the log and the mutations landed. */
  ghost function OffBy(log: seq<Sealed>, ms: seq<Mutation>, r: Observed, e: u64): int {
    r.value - Logged(log, r.key, e) - Moved(ms, Landed(ms, r.window), r.key, e)
  }

  /** Some leg of `k` sealed by `e` is of `x`. */
  ghost predicate Has(log: seq<Sealed>, k: Key, e: u64, x: int) {
    exists p :: p in Through(log, k, e) && LegAt(log, p).amt == x
  }

  /** It is off by a leg of its own key. */
  ghost predicate Doubles(log: seq<Sealed>, ms: seq<Mutation>, r: Observed, e: u64) {
    Has(log, r.key, e, OffBy(log, ms, r, e))
  }

  /** It lacks a leg of its own key, or, when the probe was mutating, is off by some number of mutations. */
  ghost predicate Skips(log: seq<Sealed>, ms: seq<Mutation>, r: Observed, mutate: bool, e: u64) {
    Has(log, r.key, e, -OffBy(log, ms, r, e)) || (mutate && exists q: int :: OffBy(log, ms, r, e) == 1_000_000_000 * q)
  }

  /** The latest epoch a read can be for, up to a bound, that gives it a name. */
  ghost predicate Names(log: seq<Sealed>, ms: seq<Mutation>, r: Observed, mutate: bool, e: u64, upto: int) {
    && r.first <= e <= upto && (Doubles(log, ms, r, e) || Skips(log, ms, r, mutate, e))
    && forall f: u64 :: e < f <= upto ==> !Doubles(log, ms, r, f) && !Skips(log, ms, r, mutate, f)
  }

  lemma {:induction false} LandedIsCertain(ms: seq<Mutation>, k: Key, e: u64, w: (u64, u64))
    ensures Moved(ms, Landed(ms, w), k, e) == CertainSum(ms, k, e, w)
  {
    if ms != [] {
      var n := |ms| - 1;
      LandedIsCertain(ms[..n], k, e, w);
      assert Landed(ms, w)[..n] == Landed(ms[..n], w);
    }
  }

  lemma {:induction false} AmountsAre(legs: seq<Entry>, at: u64, x: int)
    requires Sorted(legs)
    ensures x in Amounts(legs, at) <==> exists i :: 0 <= i < |legs| && legs[i].epoch <= at && legs[i].amt == x
  {
    if legs != [] {
      AmountsAre(legs[1..], at, x);
      assert legs[1..] == [] || legs[0].epoch <= legs[1].epoch;
      assert forall i :: 0 < i < |legs| ==> legs[i] == legs[1..][i - 1];
    }
  }

  ghost predicate LeavesEntry(log: seq<Sealed>, p: Place, k: Key, e: Entry)
    requires p.0 < |log|
  {
    LegAt(log, p).acct == k.0 && LegAt(log, p).cur == k.1 && EntryAt(log, p) == e
  }

  ghost predicate HasEntry(log: seq<Sealed>, k: Key, e: Entry) {
    exists p :: p in Places(log) && LeavesEntry(log, p, k, e)
  }

  lemma HasEntryLast(log: seq<Sealed>, k: Key, e: Entry)
    requires log != []
    ensures var n: nat := |log| - 1;
      HasEntry(log, k, e) <==>
        HasEntry(log[..n], k, e) || LeavesEntry(log, (n, false), k, e) || LeavesEntry(log, (n, true), k, e)
  {
    var n: nat := |log| - 1;
    if p :| p in Places(log) && LeavesEntry(log, p, k, e) {
      assert p.0 < n ==> p in Places(log[..n]) && LeavesEntry(log[..n], p, k, e);
    }
    if p :| p in Places(log[..n]) && LeavesEntry(log[..n], p, k, e) {
      assert p in Places(log) && LeavesEntry(log, p, k, e);
    }
  }

  lemma {:induction false} EntriesAreLegs(log: seq<Sealed>, k: Key, e: Entry)
    ensures e in LegsOf(log, k) <==> HasEntry(log, k, e)
  {
    if log != [] {
      var n: nat := |log| - 1;
      EntriesAreLegs(log[..n], k, e);
      LastLegs(log, k);
      HasEntryLast(log, k, e);
      hide LegsOf, HasEntry;
    }
  }

  lemma LegsThroughAre(log: seq<Sealed>, k: Key, at: u64, x: int)
    requires Ordered(log)
    ensures x in LegsThrough(Replay(log), k, at) <==> Has(log, k, at, x)
  {
    var legs := LegsOf(log, k);
    ReplayIsIndex(log);
    LegsSorted(log, k);
    AmountsAre(legs, at, x);
    hide Replay, LegsOf, Amounts, Has;
    if i :| 0 <= i < |legs| && legs[i].epoch <= at && legs[i].amt == x {
      EntryIsLeg(log, k, at, legs[i]);
    }
    if Has(log, k, at, x) {
      var i := LegIsEntry(log, k, at, x);
    }
  }

  lemma EntryIsLeg(log: seq<Sealed>, k: Key, at: u64, e: Entry)
    requires e in LegsOf(log, k) && e.epoch <= at
    ensures Has(log, k, at, e.amt)
  {
    EntriesAreLegs(log, k, e);
    hide LegsOf;
    var p :| p in Places(log) && LeavesEntry(log, p, k, e);
    assert p in Through(log, k, at);
  }

  lemma LegIsEntry(log: seq<Sealed>, k: Key, at: u64, x: int) returns (i: nat)
    requires Has(log, k, at, x)
    ensures i < |LegsOf(log, k)| && LegsOf(log, k)[i].epoch <= at && LegsOf(log, k)[i].amt == x
  {
    var p :| p in Through(log, k, at) && LegAt(log, p).amt == x;
    assert LeavesEntry(log, p, k, EntryAt(log, p));
    EntriesAreLegs(log, k, EntryAt(log, p));
    hide LegsOf;
    i :| 0 <= i < |LegsOf(log, k)| && LegsOf(log, k)[i] == EntryAt(log, p);
  }

  /** The kind a search down from `upto` arrives at. */
  ghost predicate Called(log: seq<Sealed>, ms: seq<Mutation>, r: Observed, mutate: bool, upto: int, kind: Kind) {
    && (forall e: u64 :: Names(log, ms, r, mutate, e, upto) ==>
          kind == if Doubles(log, ms, r, e) then DoubleApplication else SkippedDelta)
    && ((forall e: u64 :: !Names(log, ms, r, mutate, e, upto)) ==> kind == OtherDivergence)
  }

  lemma {:induction false} KindFromIs(log: seq<Sealed>, ms: seq<Mutation>, r: Observed, mutate: bool, e: int)
    requires Ordered(log) && e < 0x1_0000_0000_0000_0000
    ensures Called(log, ms, r, mutate, e, KindFrom(Replay(log), ms, r, mutate, e))
    decreases e - r.first
  {
    if e >= r.first {
      KindFromIs(log, ms, r, mutate, e - 1);
      KindStep(log, ms, r, mutate, e);
      CalledStep(log, ms, r, mutate, e, KindFrom(Replay(log), ms, r, mutate, e - 1));
      hide KindFrom, Doubles, Skips, Called;
    }
  }

  lemma CalledStep(log: seq<Sealed>, ms: seq<Mutation>, r: Observed, mutate: bool, e: u64, below: Kind)
    requires e >= r.first && Called(log, ms, r, mutate, e - 1, below)
    ensures Called(log, ms, r, mutate, e,
                   if Doubles(log, ms, r, e) then DoubleApplication
                   else if Skips(log, ms, r, mutate, e) then SkippedDelta
                   else below)
  {
    hide Doubles, Skips;
    if !Doubles(log, ms, r, e) && !Skips(log, ms, r, mutate, e) {
      var before: int := e - 1;
      forall f: u64 | Names(log, ms, r, mutate, f, e) ensures Names(log, ms, r, mutate, f, before) {
      }
      forall f: u64 | Names(log, ms, r, mutate, f, before) ensures Names(log, ms, r, mutate, f, e) {
      }
      assert Called(log, ms, r, mutate, e, below);
    } else {
      assert Names(log, ms, r, mutate, e, e);
    }
  }

  lemma KindStep(log: seq<Sealed>, ms: seq<Mutation>, r: Observed, mutate: bool, e: u64)
    requires Ordered(log) && e >= r.first
    ensures KindFrom(Replay(log), ms, r, mutate, e) ==
      if Doubles(log, ms, r, e) then DoubleApplication
      else if Skips(log, ms, r, mutate, e) then SkippedDelta
      else KindFrom(Replay(log), ms, r, mutate, e - 1)
  {
    var o := Replay(log);
    var d := r.value - Range(o, ms, r.key, e, r.window).0;
    LoggedIsBalance(log, r.key, e);
    LandedIsCertain(ms, r.key, e, r.window);
    LegsThroughAre(log, r.key, e, d);
    LegsThroughAre(log, r.key, e, -d);
    ExactMultiples(d);
    hide BalanceOr0, Logged, Replay, Moved, CertainSum, Rem, Quot, LegsThrough, Through;
    assert d == OffBy(log, ms, r, e);
    assert Rem(d, D) == 0 <==> exists q: int :: d == 1_000_000_000 * q;
  }

  /** **What a misfit is called**: the latest epoch it can be for at which it doubles or skips something
      decides, doubling first; a read no epoch names is another divergence. */
  lemma KindExactlyWhen(log: seq<Sealed>, ms: seq<Mutation>, r: Observed, mutate: bool)
    requires Ordered(log)
    ensures var kind := KindOf(Replay(log), ms, r, mutate);
      && (kind == DoubleApplication <==> exists e: u64 :: Names(log, ms, r, mutate, e, r.last) && Doubles(log, ms, r, e))
      && (kind == SkippedDelta <==> exists e: u64 :: Names(log, ms, r, mutate, e, r.last) && !Doubles(log, ms, r, e))
      && (kind == OtherDivergence <==>
            forall e: u64 :: r.first <= e <= r.last ==> !Doubles(log, ms, r, e) && !Skips(log, ms, r, mutate, e))
  {
    KindFromIs(log, ms, r, mutate, r.last);
    if (exists e: u64 :: r.first <= e <= r.last && (Doubles(log, ms, r, e) || Skips(log, ms, r, mutate, e))) {
      var e: u64 :| r.first <= e <= r.last && (Doubles(log, ms, r, e) || Skips(log, ms, r, mutate, e));
      var f := LatestFrom(log, ms, r, mutate, e);
    }
    hide KindFrom, Doubles, Skips;
  }

  lemma {:induction false} LatestFrom(log: seq<Sealed>, ms: seq<Mutation>, r: Observed, mutate: bool, e: u64)
    returns (f: u64)
    requires r.first <= e <= r.last && (Doubles(log, ms, r, e) || Skips(log, ms, r, mutate, e))
    ensures Names(log, ms, r, mutate, f, r.last)
    decreases r.last - e
  {
    if Names(log, ms, r, mutate, e, r.last) {
      f := e;
    } else {
      var g: u64 :| e < g <= r.last && (Doubles(log, ms, r, g) || Skips(log, ms, r, mutate, g));
      f := LatestFrom(log, ms, r, mutate, g);
    }
  }

  // ---------- Races and counts ----------

  /** **A quiet read**: for one epoch only, with no mutation of its key and epoch in flight during it. */
  lemma QuietExactlyWhen(o: Index, ms: seq<Mutation>, r: Observed)
    ensures Quiet(o, ms, r) <==> r.first == r.last && forall i :: 0 <= i < |ms| ==> !InFlight(ms[i], r)
  {
    NoneInFlight(ms, r, |ms|);
    assert ms[..|ms|] == ms;
  }

  ghost predicate InFlight(m: Mutation, r: Observed) {
    m.epoch <= r.first && (m.target == r.key || m.twin == r.key) && r.window.0 < m.at.1 && m.at.0 < r.window.1
  }

  lemma {:induction false} NoneInFlight(ms: seq<Mutation>, r: Observed, n: nat)
    requires n <= |ms|
    ensures (forall i :: 0 <= i < n ==> !InFlight(ms[i], r)) <==>
      UncertainCount(ms[..n], r.key, r.first, r.window, D) == 0
      && UncertainCount(ms[..n], r.key, r.first, r.window, -D) == 0
  {
    if n > 0 {
      NoneInFlight(ms, r, n - 1);
      assert ms[..n][..n - 1] == ms[..n - 1];
    }
  }

  /** **A race**: two quiet reads of one key at one epoch, with the same sum of mutations landed before each,
      that return different values. */
  lemma RaceExactlyWhen(log: seq<Sealed>, ms: seq<Mutation>, r: Observed, s: Observed)
    requires Ordered(log)
    ensures Race(Replay(log), ms, r, s) <==>
      && r.first == r.last == s.first == s.last && r.key == s.key && r.value != s.value
      && (forall i :: 0 <= i < |ms| ==> !InFlight(ms[i], r) && !InFlight(ms[i], s))
      && Moved(ms, Landed(ms, r.window), r.key, r.first) == Moved(ms, Landed(ms, s.window), s.key, s.first)
  {
    var o := Replay(log);
    QuietExactlyWhen(o, ms, r);
    QuietExactlyWhen(o, ms, s);
    LandedIsCertain(ms, r.key, r.first, r.window);
    LandedIsCertain(ms, s.key, s.first, s.window);
    hide Quiet, BalanceOr0, Replay, Moved, CertainSum, InFlight;
  }

  /** The misfits of a kind are the reads no epoch explains that are called so. */
  lemma {:induction false} MisfitsAre(log: seq<Sealed>, ms: seq<Mutation>, obs: seq<Observed>, mutate: bool, kind: Kind)
    requires Ordered(log)
    ensures Misfits(Replay(log), ms, obs, mutate, kind)
         == |Those(log, ms, obs, mutate, kind)|
  {
    var o := Replay(log);
    hide Replay, KindOf, Fits, Misfit;
    if obs != [] {
      var n: nat := |obs| - 1;
      MisfitsAre(log, ms, obs[..n], mutate, kind);
      MisfitFitsNot(log, ms, obs[n]);
      var before, after := Those(log, ms, obs[..n], mutate, kind), Those(log, ms, obs, mutate, kind);
      if Misfit(log, ms, obs[n]) && KindOf(o, ms, obs[n], mutate) == kind {
        assert after == before + {n};
      } else {
        assert after == before;
      }
    }
  }

  /** The positions of the reads that no epoch explains and that get the name `kind`. */
  ghost function Those(log: seq<Sealed>, ms: seq<Mutation>, obs: seq<Observed>, mutate: bool, kind: Kind): set<nat> {
    set i: nat | i < |obs| && Misfit(log, ms, obs[i]) && KindOf(Replay(log), ms, obs[i], mutate) == kind
  }

  ghost predicate Misfit(log: seq<Sealed>, ms: seq<Mutation>, r: Observed) {
    forall e: u64 :: r.first <= e <= r.last ==> !Explained(log, ms, r, e)
  }

  lemma MisfitFitsNot(log: seq<Sealed>, ms: seq<Mutation>, r: Observed)
    requires Ordered(log)
    ensures Misfit(log, ms, r) <==> !Fits(Replay(log), ms, r)
  {
    FitsExactlyWhenExplained(log, ms, r);
    hide Explained, Fits;
  }
}
