/** The anomaly probe: which values a concurrent read may truthfully return, and how others are named. */
module Probe {
  import opened Prelude
  import opened ComparatorOracle
  import Universe

  const D: int := 1_000_000_000

  /** One mutation: D is moved from the twin of a leg to that leg, on `target`; both legs were sealed at
      `epoch`, and the move took effect somewhere between the two clock readings `at`. */
  datatype Mutation = Mutation(target: Key, twin: Key, epoch: u64, at: (u64, u64))

  /** One read: the epochs it can be for, its value, and where it stood before and after. */
  datatype Observed = Observed(key: Key, first: u64, last: u64, value: int, window: (u64, u64))

  // ---------- The truth range ----------

  /** What a mutation does to `k` as the probe counts it: the target's leg is looked at first. */
  function Effect(m: Mutation, k: Key): int {
    if m.target == k then D else if m.twin == k then -D else 0
  }

  /** Landed before the window opened. */
  predicate Certain(m: Mutation, w: (u64, u64)) {
    m.at.1 <= w.0
  }

  /** May have landed during the window. */
  predicate Uncertain(m: Mutation, w: (u64, u64)) {
    !Certain(m, w) && m.at.0 < w.1
  }

  function CertainSum(ms: seq<Mutation>, k: Key, e: u64, w: (u64, u64)): int {
    if ms == [] then 0
    else
      var m := ms[|ms| - 1];
      CertainSum(ms[..|ms| - 1], k, e, w) + if m.epoch <= e && Certain(m, w) then Effect(m, k) else 0
  }

  /** How many uncertain mutations have effect `effect` on `k`. */
  function UncertainCount(ms: seq<Mutation>, k: Key, e: u64, w: (u64, u64), effect: int): nat {
    if ms == [] then 0
    else
      var m := ms[|ms| - 1];
      UncertainCount(ms[..|ms| - 1], k, e, w, effect)
      + if m.epoch <= e && Uncertain(m, w) && Effect(m, k) == effect then 1 else 0
  }

  function BalanceOr0(o: Index, k: Key, e: u64): int {
    var b := Balance(o, k, e);
    if b.Some? then b.value else 0
  }

  /** The value with only the certain mutations, and the extra multiples of D the others allow. */
  function Range(o: Index, ms: seq<Mutation>, k: Key, e: u64, w: (u64, u64)): (int, int, int) {
    (BalanceOr0(o, k, e) + CertainSum(ms, k, e, w),
     0 - UncertainCount(ms, k, e, w, -D),
     UncertainCount(ms, k, e, w, D))
  }

  method TruthRange(o: Index, ms: seq<Mutation>, k: Key, e: u64, w: (u64, u64))
    returns (base: int, lo: int, hi: int)
    ensures (base, lo, hi) == Range(o, ms, k, e, w)
  {
    base := BalanceOr0(o, k, e);
    var up, down := 0, 0;
    for i := 0 to |ms|
      invariant base == BalanceOr0(o, k, e) + CertainSum(ms[..i], k, e, w)
      invariant up == UncertainCount(ms[..i], k, e, w, D) && down == UncertainCount(ms[..i], k, e, w, -D)
    {
      var m := ms[i];
      assert ms[..i + 1][..i] == ms[..i];
      if m.epoch > e {
        continue;
      }
      if m.target != k && m.twin != k {
        continue;
      }
      var effect := if m.target == k then D else -D;
      if m.at.1 <= w.0 {
        base := base + effect;
      } else if m.at.0 < w.1 {
        if effect > 0 {
          up := up + 1;
        } else {
          down := down + 1;
        }
      }
    }
    assert ms[..|ms|] == ms;
    lo, hi := -down, up;
  }

  // ---------- Which values fit ----------

  /** Division and remainder as the machine does them, toward zero. */
  function Quot(a: int, b: int): int
    requires b > 0
  {
    if a >= 0 then a / b else -((-a) / b)
  }

  function Rem(a: int, b: int): int
    requires b > 0
  {
    a - b * Quot(a, b)
  }

  predicate FitsAt(o: Index, ms: seq<Mutation>, r: Observed, e: u64) {
    var (base, lo, hi) := Range(o, ms, r.key, e, r.window);
    var d := r.value - base;
    Rem(d, D) == 0 && lo <= Quot(d, D) <= hi
  }

  predicate Fits(o: Index, ms: seq<Mutation>, r: Observed) {
    exists e: u64 | r.first <= e <= r.last :: FitsAt(o, ms, r, e)
  }

  /** The sum of the effects of the chosen uncertain mutations. */
  function Chosen(ms: seq<Mutation>, picks: seq<bool>, k: Key, e: u64, w: (u64, u64)): int
    requires |picks| == |ms|
  {
    if ms == [] then 0
    else
      var n := |ms| - 1;
      Chosen(ms[..n], picks[..n], k, e, w)
      + if picks[n] && ms[n].epoch <= e && Uncertain(ms[n], w) then Effect(ms[n], k) else 0
  }

  /** `v` is the balance, plus every certain mutation, plus some of the uncertain ones. */
  ghost predicate Truthful(o: Index, ms: seq<Mutation>, k: Key, e: u64, w: (u64, u64), v: int) {
    exists picks: seq<bool> :: |picks| == |ms| &&
      v == BalanceOr0(o, k, e) + CertainSum(ms, k, e, w) + Chosen(ms, picks, k, e, w)
  }

  /** Any choice moves the value by a multiple of D within the range. */
  lemma {:induction false} ChoiceInRange(ms: seq<Mutation>, picks: seq<bool>, k: Key, e: u64, w: (u64, u64))
    returns (q: int)
    requires |picks| == |ms|
    ensures Chosen(ms, picks, k, e, w) == D * q
    ensures 0 - UncertainCount(ms, k, e, w, -D) <= q <= UncertainCount(ms, k, e, w, D)
  {
    if ms == [] {
      q := 0;
    } else {
      var n := |ms| - 1;
      q := ChoiceInRange(ms[..n], picks[..n], k, e, w);
      if picks[n] && ms[n].epoch <= e && Uncertain(ms[n], w) {
        q := q + if ms[n].target == k then 1 else if ms[n].twin == k then -1 else 0;
      }
    }
  }

  /** Every multiple within the range is some choice: take as many on one side as it needs. */
  lemma {:induction false} RangeHasChoice(ms: seq<Mutation>, k: Key, e: u64, w: (u64, u64), q: int)
    returns (picks: seq<bool>)
    requires 0 - UncertainCount(ms, k, e, w, -D) <= q <= UncertainCount(ms, k, e, w, D)
    ensures |picks| == |ms| && Chosen(ms, picks, k, e, w) == D * q
  {
    if ms == [] {
      picks := [];
    } else {
      var n := |ms| - 1;
      var m := ms[n];
      var live := m.epoch <= e && Uncertain(m, w);
      var step := if live && q > 0 && Effect(m, k) == D then 1 else if live && q < 0 && Effect(m, k) == -D then -1 else 0;
      var rest := RangeHasChoice(ms[..n], k, e, w, q - step);
      picks := rest + [step != 0];
      assert picks[..n] == rest;
    }
  }

  lemma ExactMultiples(d: int)
    ensures Rem(d, D) == 0 <==> d == D * Quot(d, D)
    ensures forall q: int :: d == D * q ==> Quot(d, D) == q
  {
  }

  /** **The test accepts exactly the truthful values**: the balance, all the mutations certainly landed,
      and any subset of those that may have landed during the read. */
  lemma FitsExactlyWhenTruthful(o: Index, ms: seq<Mutation>, r: Observed, e: u64)
    ensures FitsAt(o, ms, r, e) <==> Truthful(o, ms, r.key, e, r.window, r.value)
  {
    hide Balance, Rem, Quot;
    var (base, lo, hi) := Range(o, ms, r.key, e, r.window);
    var d := r.value - base;
    ExactMultiples(d);
    if FitsAt(o, ms, r, e) {
      var picks := RangeHasChoice(ms, r.key, e, r.window, Quot(d, D));
      assert r.value == base + Chosen(ms, picks, r.key, e, r.window);
    }
    if Truthful(o, ms, r.key, e, r.window, r.value) {
      var picks: seq<bool> :| |picks| == |ms| && r.value == base + Chosen(ms, picks, r.key, e, r.window);
      var q := ChoiceInRange(ms, picks, r.key, e, r.window);
    }
  }

  // ---------- Interleavings ----------

  /** What a mutation really does to `k`: both of its legs move. */
  function TrueEffect(m: Mutation, k: Key): int {
    (if m.target == k then D else 0) - (if m.twin == k then D else 0)
  }

  /** The sum of the mutations whose instant is before the read's. */
  ghost function SeenBy(ms: seq<Mutation>, instants: seq<real>, read: real, k: Key, e: u64): int
    requires |instants| == |ms|
  {
    if ms == [] then 0
    else
      var n := |ms| - 1;
      SeenBy(ms[..n], instants[..n], read, k, e)
      + if ms[n].epoch <= e && instants[n] < read then TrueEffect(ms[n], k) else 0
  }

  /** Each mutation takes effect strictly inside its own window. */
  ghost predicate InsideWindows(ms: seq<Mutation>, instants: seq<real>) {
    |instants| == |ms| && forall i :: 0 <= i < |ms| ==> ms[i].at.0 as real < instants[i] < ms[i].at.1 as real
  }

  /** No mutation has both its legs on one key. */
  ghost predicate TwoKeys(ms: seq<Mutation>) {
    forall i :: 0 <= i < |ms| ==> ms[i].target != ms[i].twin
  }

  /** A read that sees, at one instant of its window, exactly the mutations that took effect before it,
      for an epoch it can be for. */
  ghost predicate Interleaved(
    o: Index, ms: seq<Mutation>, instants: seq<real>, r: Observed, e: u64, read: real)
  {
    && InsideWindows(ms, instants) && r.window.0 as real <= read <= r.window.1 as real
    && r.first <= e <= r.last
    && r.value == BalanceOr0(o, r.key, e) + SeenBy(ms, instants, read, r.key, e)
  }

  lemma {:induction false} InterleavingIsChoice(
    ms: seq<Mutation>, instants: seq<real>, read: real, k: Key, e: u64, w: (u64, u64)) returns (picks: seq<bool>)
    requires InsideWindows(ms, instants) && TwoKeys(ms) && w.0 as real <= read <= w.1 as real
    ensures |picks| == |ms|
    ensures SeenBy(ms, instants, read, k, e) == CertainSum(ms, k, e, w) + Chosen(ms, picks, k, e, w)
  {
    if ms == [] {
      picks := [];
    } else {
      var n := |ms| - 1;
      var rest := InterleavingIsChoice(ms[..n], instants[..n], read, k, e, w);
      picks := rest + [instants[n] < read];
      assert picks[..n] == rest && TrueEffect(ms[n], k) == Effect(ms[n], k);
    }
  }

  /** **No interleaving is reported**, whatever the instants. */
  lemma InterleavingsFit(
    o: Index, ms: seq<Mutation>, instants: seq<real>, r: Observed, e: u64, read: real)
    requires TwoKeys(ms) && Interleaved(o, ms, instants, r, e, read)
    ensures Fits(o, ms, r)
  {
    var picks := InterleavingIsChoice(ms, instants, read, r.key, e, r.window);
    FitsExactlyWhenTruthful(o, ms, r, e);
  }

  /** Every interleaving of every read fits. */
  ghost predicate NeverMisjudged(o: Index, ms: seq<Mutation>) {
    forall instants, r, e, read :: Interleaved(o, ms, instants, r, e, read) ==> Fits(o, ms, r)
  }

  /** How many mutations have both legs on `k`: each is counted as moving it, and moves nothing. */
  function SelfTwins(ms: seq<Mutation>, k: Key): nat {
    if ms == [] then 0
    else
      var m := ms[|ms| - 1];
      SelfTwins(ms[..|ms| - 1], k) + if m.target == k && m.twin == k then 1 else 0
  }

  function Midpoints(ms: seq<Mutation>): (instants: seq<real>)
    ensures |instants| == |ms|
    ensures forall i :: 0 <= i < |ms| ==> instants[i] == (ms[i].at.0 as real + ms[i].at.1 as real) / 2.0
  {
    if ms == [] then []
    else
      var m := ms[|ms| - 1];
      Midpoints(ms[..|ms| - 1]) + [(m.at.0 as real + m.at.1 as real) / 2.0]
  }

  const LATEST: u64 := 0xFFFF_FFFF_FFFF_FFFF

  /** At the latest instant everything has landed, and the count is off by one D for each self-twin. */
  lemma {:induction false} AllLanded(ms: seq<Mutation>, instants: seq<real>, k: Key)
    requires InsideWindows(ms, instants)
    ensures CertainSum(ms, k, LATEST, (LATEST, LATEST))
         == SeenBy(ms, instants, LATEST as real, k, LATEST) + D * SelfTwins(ms, k)
    ensures UncertainCount(ms, k, LATEST, (LATEST, LATEST), D) == 0
    ensures UncertainCount(ms, k, LATEST, (LATEST, LATEST), -D) == 0
  {
    if ms != [] {
      var n := |ms| - 1;
      AllLanded(ms[..n], instants[..n], k);
      assert Certain(ms[n], (LATEST, LATEST)) && instants[n] < LATEST as real;
    }
  }

  lemma {:induction false} SomeSelfTwin(ms: seq<Mutation>, i: nat)
    requires i < |ms| && ms[i].target == ms[i].twin
    ensures SelfTwins(ms, ms[i].target) > 0
  {
    if i < |ms| - 1 {
      SomeSelfTwin(ms[..|ms| - 1], i);
    }
  }

  /** **Exactly when no interleaving is reported**: when no mutation has both its legs on one key. */
  lemma NeverMisjudgedExactlyWhen(o: Index, ms: seq<Mutation>)
    requires forall i :: 0 <= i < |ms| ==> ms[i].at.0 < ms[i].at.1
    ensures NeverMisjudged(o, ms) <==> TwoKeys(ms)
  {
    if TwoKeys(ms) {
      TwoKeysNeverMisjudged(o, ms);
    } else {
      var i :| 0 <= i < |ms| && ms[i].target == ms[i].twin;
      SelfTwinIsMisjudged(o, ms, i);
    }
  }

  lemma TwoKeysNeverMisjudged(o: Index, ms: seq<Mutation>)
    requires TwoKeys(ms)
    ensures NeverMisjudged(o, ms)
  {
    hide Interleaved, Fits, TwoKeys;
    forall instants, r, e, read | Interleaved(o, ms, instants, r, e, read) ensures Fits(o, ms, r) {
      InterleavingsFit(o, ms, instants, r, e, read);
    }
  }

  /** A mutation of a leg whose twin is on the same key, among any others, misjudges some true read. */
  lemma SelfTwinIsMisjudged(o: Index, ms: seq<Mutation>, i: nat)
    requires i < |ms| && ms[i].target == ms[i].twin
    requires forall j :: 0 <= j < |ms| ==> ms[j].at.0 < ms[j].at.1
    ensures !NeverMisjudged(o, ms)
  {
    var k, instants := ms[i].target, Midpoints(ms);
    assert InsideWindows(ms, instants);
    AllLanded(ms, instants, k);
    SomeSelfTwin(ms, i);
    var value := BalanceOr0(o, k, LATEST) + SeenBy(ms, instants, LATEST as real, k, LATEST);
    var r := Observed(k, LATEST, LATEST, value, (LATEST, LATEST));
    var n: int := SelfTwins(ms, k);
    hide SeenBy, CertainSum, UncertainCount, BalanceOr0, SelfTwins, Rem, Quot;
    assert Interleaved(o, ms, instants, r, LATEST, LATEST as real);
    assert Range(o, ms, k, LATEST, r.window) == (value + D * n, 0, 0);
    ExactMultiples(0 - D * n);
    assert 0 - D * n == D * (0 - n);
    assert !FitsAt(o, ms, r, LATEST);
  }

  // ---------- The mutations the probe makes ----------

  /** Per key, the twin of its first leg and the batch that leg is in. */
  type FirstLegs = map<Key, (Key, u64)>

  predicate HasLeg(t: Universe.Txn, k: Key) {
    KeyOf(t.first) == k || KeyOf(t.second) == k
  }

  /** The other leg of the first leg of `t` on `k`. */
  function Twin(t: Universe.Txn, k: Key): Key {
    if KeyOf(t.first) == k then KeyOf(t.second) else KeyOf(t.first)
  }

  ghost predicate FirstLegAt(txns: seq<Universe.Txn>, k: Key, i: nat) {
    i < |txns| && HasLeg(txns[i], k) && forall j :: 0 <= j < i ==> !HasLeg(txns[j], k)
  }

  ghost predicate IsFirstLegs(txns: seq<Universe.Txn>, m: FirstLegs) {
    && (forall i, k :: 0 <= i < |txns| && HasLeg(txns[i], k) ==> k in m)
    && (forall k :: k in m ==> exists i: nat ::
          FirstLegAt(txns, k, i) && m[k] == (Twin(txns[i], k), txns[i].batch))
  }

  method CollectFirstLegs(txns: seq<Universe.Txn>) returns (m: FirstLegs)
    ensures IsFirstLegs(txns, m)
  {
    hide HasLeg;
    m := map[];
    for i := 0 to |txns|
      invariant IsFirstLegs(txns[..i], m)
    {
      var t := txns[i];
      ghost var before := m;
      var first, second := KeyOf(t.first), KeyOf(t.second);
      if first !in m {
        m := m[first := (second, t.batch)];
      }
      if second !in m {
        m := m[second := (first, t.batch)];
      }
      assert txns[..i + 1] == txns[..i] + [t];
      FirstLegsGrow(txns[..i], t, before, m);
    }
    assert txns[..|txns|] == txns;
  }

  lemma FirstLegsGrow(txns: seq<Universe.Txn>, t: Universe.Txn, m: FirstLegs, after: FirstLegs)
    requires IsFirstLegs(txns, m)
    requires after.Keys == m.Keys + {KeyOf(t.first), KeyOf(t.second)}
    requires forall k :: k in m ==> after[k] == m[k]
    requires forall k :: k in after && k !in m ==> after[k] == (Twin(t, k), t.batch)
    ensures IsFirstLegs(txns + [t], after)
  {
    var longer := txns + [t];
    hide HasLeg, Twin;
    assert forall i :: 0 <= i < |txns| ==> longer[i] == txns[i];
    forall i, k | 0 <= i < |longer| && HasLeg(longer[i], k) ensures k in after {
      LegKeys(longer[i], k);
    }
    forall k | k in after
      ensures exists i: nat :: FirstLegAt(longer, k, i) && after[k] == (Twin(longer[i], k), longer[i].batch)
    {
      if k in m {
        var i: nat :| FirstLegAt(txns, k, i) && m[k] == (Twin(txns[i], k), txns[i].batch);
        assert FirstLegAt(longer, k, i);
      } else {
        LegKeys(t, k);
        assert longer[|txns|] == t;
        assert FirstLegAt(longer, k, |txns|);
      }
    }
  }

  lemma LegKeys(t: Universe.Txn, k: Key)
    ensures HasLeg(t, k) <==> k in {KeyOf(t.first), KeyOf(t.second)}
  {
  }

  lemma TwinElsewhere(txns: seq<Universe.Txn>, p: Universe.Params, i: nat, k: Key)
    requires Universe.IsHistory(txns, p) && p.accounts >= 2 && i < |txns| && HasLeg(txns[i], k)
    ensures Twin(txns[i], k) != k
  {
    assert Universe.WellFormed(txns[i], p);
  }

  /** A mutation of a key's first leg, stamped with its batch. */
  ghost predicate OfFirstLegs(m: FirstLegs, ms: seq<Mutation>) {
    forall i :: 0 <= i < |ms| ==> ms[i].target in m && m[ms[i].target] == (ms[i].twin, ms[i].epoch)
  }

  /** **The probe's own mutations are never misjudged**: a generated universe of two accounts or more
      gives every first leg a twin on another key. */
  lemma ProbeNeverMisjudges(
    txns: seq<Universe.Txn>, p: Universe.Params, m: FirstLegs, o: Index, ms: seq<Mutation>)
    requires Universe.IsHistory(txns, p) && p.accounts >= 2
    requires IsFirstLegs(txns, m) && OfFirstLegs(m, ms)
    ensures TwoKeys(ms) && NeverMisjudged(o, ms)
  {
    forall j | 0 <= j < |ms| ensures ms[j].target != ms[j].twin {
      var k := ms[j].target;
      hide NeverMisjudged, Universe.IsHistory, Universe.WellFormed;
      var i: nat :| FirstLegAt(txns, k, i) && m[k] == (Twin(txns[i], k), txns[i].batch);
      TwinElsewhere(txns, p, i, k);
    }
    TwoKeysNeverMisjudged(o, ms);
  }

  // ---------- Classification ----------

  datatype Kind = DoubleApplication | SkippedDelta | OtherDivergence

  function Amounts(legs: seq<Entry>, at: u64): seq<int> {
    if legs == [] || legs[0].epoch > at then [] else [legs[0].amt] + Amounts(legs[1..], at)
  }

  /** The amounts of the key's legs through `at`. */
  function LegsThrough(o: Index, k: Key, at: u64): seq<int> {
    if k in o.byKey then Amounts(o.byKey[k], at) else []
  }

  /** What a misfit is called, looking from the latest epoch it can be for down to the earliest. */
  function KindFrom(o: Index, ms: seq<Mutation>, r: Observed, mutate: bool, e: int): Kind
    requires e < 0x1_0000_0000_0000_0000
    decreases e - r.first
  {
    if e < r.first then OtherDivergence
    else
      var d := r.value - Range(o, ms, r.key, e, r.window).0;
      var legs := LegsThrough(o, r.key, e);
      if d in legs then DoubleApplication
      else if -d in legs || (mutate && Rem(d, D) == 0) then SkippedDelta
      else KindFrom(o, ms, r, mutate, e - 1)
  }

  function KindOf(o: Index, ms: seq<Mutation>, r: Observed, mutate: bool): Kind {
    KindFrom(o, ms, r, mutate, r.last)
  }

  /** How many reads do not fit and are called `kind`. */
  function Misfits(o: Index, ms: seq<Mutation>, obs: seq<Observed>, mutate: bool, kind: Kind): nat {
    if obs == [] then 0
    else
      var r := obs[|obs| - 1];
      Misfits(o, ms, obs[..|obs| - 1], mutate, kind)
      + if !Fits(o, ms, r) && KindOf(o, ms, r, mutate) == kind then 1 else 0
  }

  datatype Counters = Counters(doubleApplication: nat, skippedDelta: nat, otherDivergence: nat, upqueryRace: nat)

  method SearchFits(o: Index, ms: seq<Mutation>, r: Observed) returns (fits: bool)
    ensures fits <==> Fits(o, ms, r)
  {
    var e: int := r.first;
    fits := false;
    while e <= r.last && !fits
      invariant r.first <= e && (e <= r.last + 1 || e == r.first)
      invariant fits ==> Fits(o, ms, r)
      invariant !fits ==> forall f: u64 :: r.first <= f < e ==> !FitsAt(o, ms, r, f)
      decreases r.last - e, !fits
    {
      var base, lo, hi := TruthRange(o, ms, r.key, e, r.window);
      var d := r.value - base;
      if Rem(d, D) == 0 && lo <= Quot(d, D) <= hi {
        assert FitsAt(o, ms, r, e);
        fits := true;
      } else {
        e := e + 1;
      }
    }
  }

  /** The values of quiet reads, by key, epoch and truth. */
  type ByAnchor = map<(Key, u64, int), set<int>>

  /** A read that can be for one epoch only, and that nothing in flight could have moved. */
  predicate Quiet(o: Index, ms: seq<Mutation>, r: Observed) {
    var (base, lo, hi) := Range(o, ms, r.key, r.first, r.window);
    r.first == r.last && lo == 0 && hi == 0
  }

  function AnchorOf(o: Index, ms: seq<Mutation>, r: Observed): (Key, u64, int) {
    (r.key, r.first, Range(o, ms, r.key, r.first, r.window).0)
  }

  /** Two quiet reads of one key at one epoch, with the same mutations landed, that disagree. */
  predicate Race(o: Index, ms: seq<Mutation>, r: Observed, s: Observed) {
    Quiet(o, ms, r) && Quiet(o, ms, s) && AnchorOf(o, ms, r) == AnchorOf(o, ms, s) && r.value != s.value
  }

  /** A quiet read that fits has the truth as its value. */
  lemma QuietFitIsTruth(o: Index, ms: seq<Mutation>, r: Observed)
    requires Quiet(o, ms, r) && Fits(o, ms, r)
    ensures r.value == AnchorOf(o, ms, r).2
  {
    ExactMultiples(r.value - Range(o, ms, r.key, r.first, r.window).0);
  }

  /** The map holds exactly the values of the quiet reads among `obs`, by anchor. */
  ghost predicate Collected(o: Index, ms: seq<Mutation>, obs: seq<Observed>, byAnchor: ByAnchor) {
    && (forall i :: 0 <= i < |obs| && Quiet(o, ms, obs[i]) ==>
          AnchorOf(o, ms, obs[i]) in byAnchor && obs[i].value in byAnchor[AnchorOf(o, ms, obs[i])])
    && (forall a, v :: a in byAnchor && v in byAnchor[a] ==> Source(o, ms, obs, a, v))
  }

  ghost predicate Source(o: Index, ms: seq<Mutation>, obs: seq<Observed>, a: (Key, u64, int), v: int) {
    exists i :: 0 <= i < |obs| && Quiet(o, ms, obs[i]) && AnchorOf(o, ms, obs[i]) == a && obs[i].value == v
  }

  lemma CollectOne(o: Index, ms: seq<Mutation>, obs: seq<Observed>, byAnchor: ByAnchor, r: Observed)
    requires Collected(o, ms, obs, byAnchor)
    ensures var a := AnchorOf(o, ms, r);
            var more := byAnchor[a := (if a in byAnchor then byAnchor[a] else {}) + {r.value}];
            Collected(o, ms, obs + [r], if Quiet(o, ms, r) then more else byAnchor)
  {
    hide Quiet, AnchorOf;
    var after := obs + [r];
    assert after[|obs|] == r && forall i :: 0 <= i < |obs| ==> after[i] == obs[i];
    forall a, v | Source(o, ms, obs, a, v) ensures Source(o, ms, after, a, v) {
      var i :| 0 <= i < |obs| && Quiet(o, ms, obs[i]) && AnchorOf(o, ms, obs[i]) == a && obs[i].value == v;
      assert Quiet(o, ms, after[i]);
    }
    if Quiet(o, ms, r) {
      assert Source(o, ms, after, AnchorOf(o, ms, r), r.value);
    }
  }

  /** The anchors two reads race at. */
  ghost function Raced(o: Index, ms: seq<Mutation>, obs: seq<Observed>): set<(Key, u64, int)> {
    set i, j | 0 <= i < |obs| && 0 <= j < |obs| && Race(o, ms, obs[i], obs[j]) :: AnchorOf(o, ms, obs[i])
  }

  /** The anchors that hold more than one value. */
  ghost function Disputed(byAnchor: ByAnchor): set<(Key, u64, int)> {
    set a | a in byAnchor && |byAnchor[a]| > 1
  }

  /** An anchor holds more than one value exactly when two reads race at it. */
  lemma RacesAreCollected(o: Index, ms: seq<Mutation>, obs: seq<Observed>, byAnchor: ByAnchor)
    requires Collected(o, ms, obs, byAnchor)
    ensures Disputed(byAnchor) == Raced(o, ms, obs)
  {
    hide Quiet, AnchorOf;
    forall a | a in Disputed(byAnchor) ensures a in Raced(o, ms, obs) {
      var u, v := TwoElements(byAnchor[a]);
      assert Source(o, ms, obs, a, v) && Source(o, ms, obs, a, u);
      var i :| 0 <= i < |obs| && Quiet(o, ms, obs[i]) && AnchorOf(o, ms, obs[i]) == a && obs[i].value == v;
      var j :| 0 <= j < |obs| && Quiet(o, ms, obs[j]) && AnchorOf(o, ms, obs[j]) == a && obs[j].value == u;
      assert Race(o, ms, obs[i], obs[j]);
    }
    forall a | a in Raced(o, ms, obs) ensures a in Disputed(byAnchor) {
      var i, j :| 0 <= i < |obs| && 0 <= j < |obs| && Race(o, ms, obs[i], obs[j]) && AnchorOf(o, ms, obs[i]) == a;
      SubsetCardinality({obs[i].value, obs[j].value}, byAnchor[a]);
    }
  }

  /** **The report**: every misfit is counted once, under the name its difference gives it, and a race is
      reported once for each anchor at which two quiet reads disagree. */
  method ClassifyReads(o: Index, ms: seq<Mutation>, obs: seq<Observed>, mutate: bool) returns (c: Counters)
    ensures c.doubleApplication == Misfits(o, ms, obs, mutate, DoubleApplication)
    ensures c.skippedDelta == Misfits(o, ms, obs, mutate, SkippedDelta)
    ensures c.otherDivergence == Misfits(o, ms, obs, mutate, OtherDivergence)
    ensures c.upqueryRace == |Raced(o, ms, obs)|
  {
    hide Fits, FitsAt, KindOf, Collected;
    var double, skipped, other := 0, 0, 0;
    var byAnchor: ByAnchor := map[];
    NothingCollected(o, ms);
    for i := 0 to |obs|
      invariant double == Misfits(o, ms, obs[..i], mutate, DoubleApplication)
      invariant skipped == Misfits(o, ms, obs[..i], mutate, SkippedDelta)
      invariant other == Misfits(o, ms, obs[..i], mutate, OtherDivergence)
      invariant Collected(o, ms, obs[..i], byAnchor)
    {
      var r := obs[i];
      assert obs[..i + 1] == obs[..i] + [r] && obs[..i + 1][..i] == obs[..i];
      CollectOne(o, ms, obs[..i], byAnchor, r);
      if r.first == r.last {
        var base, lo, hi := TruthRange(o, ms, r.key, r.first, r.window);
        if lo == 0 && hi == 0 {
          var a := (r.key, r.first, base);
          byAnchor := byAnchor[a := (if a in byAnchor then byAnchor[a] else {}) + {r.value}];
        }
      }
      var fits := SearchFits(o, ms, r);
      if !fits {
        match KindOf(o, ms, r, mutate) {
          case DoubleApplication => double := double + 1;
          case SkippedDelta => skipped := skipped + 1;
          case OtherDivergence => other := other + 1;
        }
      }
    }
    assert obs[..|obs|] == obs;
    var races := CountRaces(byAnchor);
    RacesAreCollected(o, ms, obs, byAnchor);
    c := Counters(double, skipped, other, races);
  }

  lemma NothingCollected(o: Index, ms: seq<Mutation>)
    ensures Collected(o, ms, [], map[])
  {
  }

  /** **Nothing is reported of truthful reads**: when every read fits, no misfit is counted and no two
      reads race. */
  lemma {:induction false} TruthfulReadsAreClean(o: Index, ms: seq<Mutation>, obs: seq<Observed>, mutate: bool, kind: Kind)
    requires forall i :: 0 <= i < |obs| ==> Fits(o, ms, obs[i])
    ensures Misfits(o, ms, obs, mutate, kind) == 0
    ensures forall i, j :: 0 <= i < |obs| && 0 <= j < |obs| ==> !Race(o, ms, obs[i], obs[j])
  {
    hide Fits, KindOf, AnchorOf, Quiet;
    if obs != [] {
      TruthfulReadsAreClean(o, ms, obs[..|obs| - 1], mutate, kind);
    }
    forall i, j | 0 <= i < |obs| && 0 <= j < |obs| ensures !Race(o, ms, obs[i], obs[j]) {
      if Quiet(o, ms, obs[i]) && Quiet(o, ms, obs[j]) {
        QuietFitIsTruth(o, ms, obs[i]);
        QuietFitIsTruth(o, ms, obs[j]);
      }
    }
  }

  /** How many anchors hold more than one value. */
  method CountRaces(byAnchor: ByAnchor) returns (races: nat)
    ensures races == |Disputed(byAnchor)|
  {
    races := 0;
    ghost var found: set<(Key, u64, int)> := {};
    var left := byAnchor.Keys;
    while left != {}
      invariant left <= byAnchor.Keys
      invariant races == |found| && found == Disputed(byAnchor) - left
    {
      var a :| a in left;
      if |byAnchor[a]| > 1 {
        races := races + 1;
        found := found + {a};
      }
      left := left - {a};
    }
    assert found == Disputed(byAnchor);
  }
}
