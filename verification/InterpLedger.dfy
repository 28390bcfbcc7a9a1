/** The interpreter's ledger: one open transaction, checked per-currency sums, an append-only list. */
module InterpLedger {
  import opened Prelude
  import opened Bytes
  import opened PostingSets

  datatype Posted = Posted(txn: Utf8, epoch: nat, legs: seq<Leg>)

  datatype Refusal =
    | Unbalanced(currency: Utf8, residual: int)
    | ScaleConflict(currency: Utf8, first: u32, then_: u32)
    | NoTransaction
    | Overflow(currency: Utf8)

  datatype State = State(opening: map<(Utf8, Utf8), int>, sealed: seq<Posted>, nextEpoch: nat, open: Option<Posted>)

  const NewState := State(map[], [], 1, None)

  // ---------- The order of the currency map ----------

  /** Byte-lexicographic order, as strings compare. */
  predicate LexLeq(a: Utf8, b: Utf8) {
    a == [] || (b != [] && (a[0] < b[0] || (a[0] == b[0] && LexLeq(a[1..], b[1..]))))
  }

  lemma {:induction false} LexTotal(a: Utf8, b: Utf8)
    ensures LexLeq(a, b) || LexLeq(b, a)
    ensures LexLeq(a, b) && LexLeq(b, a) ==> a == b
  {
    if a != [] && b != [] {
      LexTotal(a[1..], b[1..]);
      assert a == [a[0]] + a[1..] && b == [b[0]] + b[1..];
    }
  }

  lemma {:induction false} LexTransitive(a: Utf8, b: Utf8, c: Utf8)
    requires LexLeq(a, b) && LexLeq(b, c)
    ensures LexLeq(a, c)
  {
    if a != [] && a[0] == b[0] && b[0] == c[0] {
      LexTransitive(a[1..], b[1..], c[1..]);
    }
  }

  /** A text comes before another when it begins it, or has the smaller byte where they first differ. */
  lemma {:induction false} LexLeqExactly(a: Utf8, b: Utf8)
    ensures LexLeq(a, b) <==> a <= b || exists i: nat :: SmallerAt(a, b, i)
  {
    if a != [] && b != [] {
      LexLeqExactly(a[1..], b[1..]);
      if a[0] < b[0] {
        assert SmallerAt(a, b, 0);
      }
      if a[0] == b[0] {
        assert a == [a[0]] + a[1..] && b == [b[0]] + b[1..];
        forall i: nat ensures SmallerAt(a, b, i + 1) <==> SmallerAt(a[1..], b[1..], i) {
          SmallerInTail(a, b, i);
        }
        if i: nat :| SmallerAt(a, b, i) && i > 0 {
          assert SmallerAt(a[1..], b[1..], i - 1);
        }
        if i: nat :| SmallerAt(a[1..], b[1..], i) {
          assert SmallerAt(a, b, i + 1);
        }
        assert a[1..] <= b[1..] <==> a <= b;
      }
    }
  }

  ghost predicate SmallerAt(a: Utf8, b: Utf8, i: nat) {
    i < |a| && i < |b| && a[..i] == b[..i] && a[i] < b[i]
  }

  lemma SmallerInTail(a: Utf8, b: Utf8, i: nat)
    requires a != [] && b != [] && a[0] == b[0]
    ensures SmallerAt(a, b, i + 1) <==> SmallerAt(a[1..], b[1..], i)
  {
    if i < |a| - 1 && i < |b| - 1 {
      assert a[..i + 1] == [a[0]] + a[1..][..i] && b[..i + 1] == [b[0]] + b[1..][..i];
      assert a[1..][..i] == a[..i + 1][1..] && b[1..][..i] == b[..i + 1][1..];
    }
  }

  ghost predicate IsLeast(k: Utf8, keys: set<Utf8>) {
    k in keys && forall j :: j in keys ==> LexLeq(k, j)
  }

  lemma {:induction false} LeastExists(keys: set<Utf8>) returns (k: Utf8)
    requires keys != {}
    ensures IsLeast(k, keys)
    decreases |keys|
  {
    hide LexLeq;
    var x :| x in keys;
    k := x;
    LexTotal(x, x);
    if keys != {x} {
      var y := LeastExists(keys - {x});
      LexTotal(x, y);
      if LexLeq(y, x) {
        k := y;
      } else {
        forall j | j in keys ensures LexLeq(x, j) {
          if j != x {
            LexTransitive(x, y, j);
          }
        }
      }
    }
  }

  // ---------- The commit rule ----------

  /** What a currency's legs sum to. */
  function Total(legs: seq<Leg>, c: Utf8): int {
    if legs == [] then 0
    else Total(legs[..|legs| - 1], c) + (if legs[|legs| - 1].currency == c then legs[|legs| - 1].minor else 0)
  }

  lemma TotalSnoc(legs: seq<Leg>, l: Leg, c: Utf8)
    ensures Total(legs + [l], c) == Total(legs, c) + (if l.currency == c then l.minor else 0)
  {
    assert (legs + [l])[..|legs|] == legs;
  }

  ghost function Minors(legs: seq<Leg>): map<nat, int> {
    map i: nat | i < |legs| :: legs[i].minor
  }

  /** The legs in a currency, and those of them on an account. */
  ghost function LegsIn(legs: seq<Leg>, c: Utf8): set<nat> {
    set i: nat | i < |legs| && legs[i].currency == c
  }

  ghost function LegsOn(legs: seq<Leg>, account: Utf8, c: Utf8): set<nat> {
    set i: nat | i < |legs| && legs[i].account == account && legs[i].currency == c
  }

  lemma MinorsSnoc(legs: seq<Leg>, before: set<nat>, after: set<nat>, picked: bool)
    requires legs != [] && before <= Minors(legs[..|legs| - 1]).Keys
    requires after == before + if picked then {|legs| - 1} else {}
    ensures after <= Minors(legs).Keys
    ensures SumOver(after, Minors(legs))
         == SumOver(before, Minors(legs[..|legs| - 1])) + if picked then legs[|legs| - 1].minor else 0
  {
    var n: nat := |legs| - 1;
    SumOverSame(before, Minors(legs[..n]), Minors(legs));
    if picked {
      SumOverTake(after, Minors(legs), n);
      assert n !in before && after - {n} == before;
    } else {
      assert after == before;
    }
  }

  /** The total is the sum of the minors of the currency's legs. */
  lemma {:induction false} TotalIsSum(legs: seq<Leg>, c: Utf8)
    ensures Total(legs, c) == SumOver(LegsIn(legs, c), Minors(legs))
  {
    if legs == [] {
      assert LegsIn(legs, c) == {};
    } else {
      var rest, l := legs[..|legs| - 1], legs[|legs| - 1];
      TotalIsSum(rest, c);
      assert LegsIn(legs, c) == LegsIn(rest, c) + if l.currency == c then {|legs| - 1} else {};
      MinorsSnoc(legs, LegsIn(rest, c), LegsIn(legs, c), l.currency == c);
    }
  }

  ghost predicate ScalesAgree(legs: seq<Leg>) {
    forall i, j :: 0 <= i < |legs| && 0 <= j < |legs| && legs[i].currency == legs[j].currency ==>
      legs[i].scale == legs[j].scale
  }

  predicate FitsI128(x: int) {
    -0x8000_0000_0000_0000_0000_0000_0000_0000 <= x < 0x8000_0000_0000_0000_0000_0000_0000_0000
  }

  /** No running total leaves the 128-bit range. */
  ghost predicate SumsFit(legs: seq<Leg>) {
    forall k, c :: 0 <= k <= |legs| ==> FitsI128(Total(legs[..k], c))
  }

  ghost predicate Conserves(legs: seq<Leg>) {
    forall c :: Total(legs, c) == 0
  }

  ghost predicate Sealable(legs: seq<Leg>) {
    ScalesAgree(legs) && SumsFit(legs) && Conserves(legs)
  }

  /** **What can seal**: legs of one currency have one scale, no sum of a currency over the first legs leaves
      127 bits and a sign, and each currency's legs cancel. */
  lemma SealableExactly(legs: seq<Leg>)
    ensures Sealable(legs) <==>
      && (forall i, j :: 0 <= i < |legs| && 0 <= j < |legs| && legs[i].currency == legs[j].currency ==>
            legs[i].scale == legs[j].scale)
      && (forall k, c :: 0 <= k <= |legs| ==>
            var sum := SumOver(LegsIn(legs[..k], c), Minors(legs[..k]));
            -170141183460469231731687303715884105728 <= sum < 170141183460469231731687303715884105728)
      && (forall c :: SumOver(LegsIn(legs, c), Minors(legs)) == 0)
  {
    forall k, c | 0 <= k <= |legs| ensures Total(legs[..k], c) == SumOver(LegsIn(legs[..k], c), Minors(legs[..k])) {
      TotalIsSum(legs[..k], c);
    }
    forall c ensures Total(legs, c) == SumOver(LegsIn(legs, c), Minors(legs)) {
      TotalIsSum(legs, c);
    }
    hide Total, LegsIn, Minors;
  }

  /** Every leg so far was accepted. */
  ghost predicate Clean(legs: seq<Leg>) {
    ScalesAgree(legs) && SumsFit(legs)
  }

  /** Which refusal a set of legs gets: the first bad leg decides, the scale before the sum; if no
      leg is bad, the least currency that does not sum to zero. */
  ghost predicate Refused(legs: seq<Leg>, why: Refusal) {
    match why
    case NoTransaction => false
    case ScaleConflict(c, first, then_) =>
      exists k: nat, i: nat :: i < k < |legs| && Clean(legs[..k])
        && legs[i].currency == c && legs[i].scale == first
        && legs[k].currency == c && legs[k].scale == then_ && first != then_
    case Overflow(c) =>
      exists k: nat :: k < |legs| && Clean(legs[..k]) && ScalesAgree(legs[..k + 1])
        && legs[k].currency == c && !FitsI128(Total(legs[..k + 1], c))
    case Unbalanced(c, residual) =>
      && Clean(legs) && Total(legs, c) == residual && residual != 0
      && forall other :: Total(legs, other) != 0 ==> LexLeq(c, other)
  }

  ghost predicate Judged(legs: seq<Leg>, why: Option<Refusal>) {
    match why
    case None => Sealable(legs)
    case Some(w) => Refused(legs, w)
  }

  lemma CleanPrefix(legs: seq<Leg>, k: nat, m: nat)
    requires k <= m <= |legs| && Clean(legs[..m])
    ensures Clean(legs[..k])
  {
    hide Total;
    forall j, c | 0 <= j <= k ensures FitsI128(Total(legs[..k][..j], c)) {
      assert legs[..k][..j] == legs[..m][..j];
    }
    assert forall i :: 0 <= i < k ==> legs[..k][i] == legs[..m][i];
  }

  /** A set that seals is refused nothing, and there is one refusal for each set that does not. */
  lemma OneVerdict(legs: seq<Leg>, a: Option<Refusal>, b: Option<Refusal>)
    requires Judged(legs, a) && Judged(legs, b)
    ensures a == b
  {
    hide Total, Clean, ScalesAgree, LexLeq;
    if a.Some? && !a.value.Unbalanced? {
      var k := BadLeg(legs, a.value);
      if b.Some? && !b.value.Unbalanced? {
        var j := BadLeg(legs, b.value);
        SameBadLeg(legs, a.value, b.value, k, j);
      } else {
        CleanSet(legs, b);
        CleanPrefix(legs, k + 1, |legs|);
      }
    } else if b.Some? && !b.value.Unbalanced? {
      var j := BadLeg(legs, b.value);
      CleanSet(legs, a);
      CleanPrefix(legs, j + 1, |legs|);
    } else if a.Some? && b.Some? {
      LexTotal(a.value.currency, b.value.currency);
    }
  }

  lemma CleanSet(legs: seq<Leg>, a: Option<Refusal>)
    requires Judged(legs, a) && (a.None? || a.value.Unbalanced?)
    ensures Clean(legs) && legs == legs[..|legs|]
  {
  }

  /** The leg a refusal is for. */
  ghost predicate BadAt(legs: seq<Leg>, why: Refusal, k: nat) {
    && k < |legs| && Clean(legs[..k]) && !Clean(legs[..k + 1])
    && (match why
        case ScaleConflict(c, first, then_) =>
          legs[k].currency == c && legs[k].scale == then_ && first != then_
          && exists i: nat :: i < k && legs[i].currency == c && legs[i].scale == first
        case Overflow(c) => legs[k].currency == c && ScalesAgree(legs[..k + 1])
        case _ => false)
  }

  lemma BadLeg(legs: seq<Leg>, why: Refusal) returns (k: nat)
    requires Refused(legs, why) && !why.Unbalanced?
    ensures BadAt(legs, why, k)
  {
    hide Total;
    match why
    case ScaleConflict(c, first, then_) =>
      var at: nat, i: nat :| i < at < |legs| && Clean(legs[..at])
        && legs[i].currency == c && legs[i].scale == first
        && legs[at].currency == c && legs[at].scale == then_ && first != then_;
      k := at;
      var cut := legs[..at + 1];
      assert cut[i] == legs[i] && cut[at] == legs[at];
    case Overflow(c) =>
      k :| k < |legs| && Clean(legs[..k]) && ScalesAgree(legs[..k + 1])
        && legs[k].currency == c && !FitsI128(Total(legs[..k + 1], c));
      assert legs[..k + 1][..k + 1] == legs[..k + 1];
  }

  lemma SameBadLeg(legs: seq<Leg>, a: Refusal, b: Refusal, k: nat, j: nat)
    requires BadAt(legs, a, k) && BadAt(legs, b, j)
    ensures a == b
  {
    hide Total;
    if k < j {
      CleanPrefix(legs, k + 1, j);
    } else if j < k {
      CleanPrefix(legs, j + 1, k);
    } else {
      hide SumsFit;
      var cut, longer := legs[..k], legs[..k + 1];
      assert forall i :: 0 <= i < k ==> cut[i] == legs[i] && longer[i] == legs[i];
      assert longer[k] == legs[k];
    }
  }

  // ---------- The transitions ----------

  datatype Call =
    | OpenBalance(account: Utf8, currency: Utf8, minor: int)
    | Begin(txn: Utf8)
    | PushLegs(legs: seq<Leg>)
    | Seal
    | Abandon

  function Opening(s: State, account: Utf8, currency: Utf8): int {
    if (account, currency) in s.opening then s.opening[(account, currency)] else 0
  }

  ghost function Next(s: State, call: Call): State {
    match call
    case OpenBalance(a, c, minor) => s.(opening := s.opening[(a, c) := Opening(s, a, c) + minor])
    case Begin(txn) => s.(open := Some(Posted(txn, s.nextEpoch, [])))
    case PushLegs(legs) =>
      if s.open.None? then s else s.(open := Some(s.open.value.(legs := s.open.value.legs + legs)))
    case Seal =>
      if s.open.Some? && Sealable(s.open.value.legs)
      then State(s.opening, s.sealed + [s.open.value], s.nextEpoch + 1, None)
      else s.(open := None)
    case Abandon => s.(open := None)
  }

  // ---------- Balances ----------

  /** What a list of legs adds to one account and currency. */
  function LegsBalance(legs: seq<Leg>, account: Utf8, c: Utf8): int {
    if legs == [] then 0
    else
      var l := legs[|legs| - 1];
      LegsBalance(legs[..|legs| - 1], account, c) + (if l.account == account && l.currency == c then l.minor else 0)
  }

  /** It is the sum of the minors of the legs on the account in the currency. */
  lemma {:induction false} LegsBalanceIsSum(legs: seq<Leg>, account: Utf8, c: Utf8)
    ensures LegsBalance(legs, account, c) == SumOver(LegsOn(legs, account, c), Minors(legs))
  {
    if legs == [] {
      assert LegsOn(legs, account, c) == {};
    } else {
      var rest, l := legs[..|legs| - 1], legs[|legs| - 1];
      var picked := l.account == account && l.currency == c;
      LegsBalanceIsSum(rest, account, c);
      assert LegsOn(legs, account, c) == LegsOn(rest, account, c) + if picked then {|legs| - 1} else {};
      MinorsSnoc(legs, LegsOn(rest, account, c), LegsOn(legs, account, c), picked);
    }
  }

  function SealedBalance(sealed: seq<Posted>, account: Utf8, c: Utf8): int {
    if sealed == [] then 0
    else SealedBalance(sealed[..|sealed| - 1], account, c) + LegsBalance(sealed[|sealed| - 1].legs, account, c)
  }

  function BalanceOf(s: State, account: Utf8, c: Utf8): int {
    Opening(s, account, c) + SealedBalance(s.sealed, account, c)
  }

  // ---------- The ledger ----------

  class Ledger {
    var opening: map<(Utf8, Utf8), int>
    var sealed: seq<Posted>
    var nextEpoch: nat
    var open: Option<Posted>

    ghost function View(): State
      reads this
    {
      State(opening, sealed, nextEpoch, open)
    }

    constructor ()
      ensures View() == NewState
    {
      opening, sealed, nextEpoch, open := map[], [], 1, None;
    }

    method OpenBalance(account: Utf8, currency: Utf8, minor: int)
      modifies this
      ensures View() == Next(old(View()), Call.OpenBalance(account, currency, minor))
    {
      var was := if (account, currency) in opening then opening[(account, currency)] else 0;
      opening := opening[(account, currency) := was + minor];
    }

    method Begin(txn: Utf8) returns (epoch: nat)
      modifies this
      ensures View() == Next(old(View()), Call.Begin(txn))
      ensures epoch == old(nextEpoch)
    {
      epoch := nextEpoch;
      open := Some(Posted(txn, epoch, []));
    }

    method PushLegs(legs: seq<Leg>) returns (r: Result<(), Refusal>)
      modifies this
      ensures View() == Next(old(View()), Call.PushLegs(legs))
      ensures r == if old(open).None? then Err(NoTransaction) else Ok(())
    {
      match open {
        case None =>
          r := Err(NoTransaction);
        case Some(o) =>
          open := Some(o.(legs := o.legs + legs));
          r := Ok(());
      }
    }

    /** Seal what is open: succeeds exactly when it may, says exactly why not, and closes it either way. */
    method Seal() returns (r: Result<Posted, Refusal>)
      modifies this
      ensures View() == Next(old(View()), Call.Seal)
      ensures old(open).None? ==> r == Err(NoTransaction)
      ensures old(open).Some? ==>
        && (r.Ok? <==> Sealable(old(open).value.legs))
        && (r.Ok? ==> r.value == old(open).value)
        && (r.Err? ==> Refused(old(open).value.legs, r.error))
    {
      if open.None? {
        return Err(NoTransaction);
      }
      var taken := open.value;
      open := None;
      var refused := Judge(taken.legs);
      SealableIsNotRefused(taken.legs, refused);
      if refused.Some? {
        return Err(refused.value);
      }
      nextEpoch := nextEpoch + 1;
      sealed := sealed + [taken];
      r := Ok(taken);
    }

    method Abandon()
      modifies this
      ensures View() == Next(old(View()), Call.Abandon)
    {
      open := None;
    }

    method Balance(account: Utf8, currency: Utf8) returns (acc: int)
      ensures acc == BalanceOf(View(), account, currency)
    {
      acc := if (account, currency) in opening then opening[(account, currency)] else 0;
      ghost var start := acc;
      for i := 0 to |sealed|
        invariant acc == start + SealedBalance(sealed[..i], account, currency)
      {
        var legs := sealed[i].legs;
        ghost var before := acc;
        for j := 0 to |legs|
          invariant acc == before + LegsBalance(legs[..j], account, currency)
        {
          if legs[j].account == account && legs[j].currency == currency {
            acc := acc + legs[j].minor;
          }
          assert legs[..j + 1][..j] == legs[..j];
        }
        assert legs[..|legs|] == legs;
        assert sealed[..i + 1][..i] == sealed[..i];
      }
      assert sealed[..|sealed|] == sealed;
    }
  }

  lemma SealableIsNotRefused(legs: seq<Leg>, why: Option<Refusal>)
    requires Judged(legs, why)
    ensures Sealable(legs) <==> why.None?
  {
    if Sealable(legs) {
      OneVerdict(legs, why, None);
    }
  }

  /** The two maps the sealing loop fills. */
  ghost predicate Tallied(legs: seq<Leg>, sums: map<Utf8, int>, scales: map<Utf8, u32>) {
    && sums.Keys == scales.Keys
    && (forall c :: Total(legs, c) == if c in sums then sums[c] else 0)
    && (forall i :: 0 <= i < |legs| ==> legs[i].currency in scales && scales[legs[i].currency] == legs[i].scale)
    && (forall c :: c in scales ==> exists i :: 0 <= i < |legs| && legs[i].currency == c)
  }

  lemma TallyLeg(legs: seq<Leg>, l: Leg, sums: map<Utf8, int>, scales: map<Utf8, u32>, total: int)
    requires Tallied(legs, sums, scales) && Clean(legs)
    requires l.currency in scales ==> scales[l.currency] == l.scale
    requires total == (if l.currency in sums then sums[l.currency] else 0) + l.minor
    ensures Total(legs + [l], l.currency) == total
    ensures ScalesAgree(legs + [l])
    ensures FitsI128(total) ==>
      Clean(legs + [l]) && Tallied(legs + [l], sums[l.currency := total], scales[l.currency := l.scale])
  {
    hide Total;
    var longer := legs + [l];
    forall c ensures Total(longer, c) == Total(legs, c) + (if l.currency == c then l.minor else 0) {
      TotalSnoc(legs, l, c);
    }
    assert forall i :: 0 <= i < |longer| ==> longer[i] == if i < |legs| then legs[i] else l;
    if FitsI128(total) {
      forall k, c | 0 <= k <= |longer| ensures FitsI128(Total(longer[..k], c)) {
        assert legs[..|legs|] == legs && longer[..|longer|] == longer;
        assert k <= |legs| ==> longer[..k] == legs[..k];
      }
      var scales' := scales[l.currency := l.scale];
      forall c | c in scales' ensures exists i :: 0 <= i < |longer| && longer[i].currency == c {
        if c == l.currency {
          assert longer[|legs|].currency == c;
        } else {
          var i :| 0 <= i < |legs| && legs[i].currency == c;
          assert longer[i].currency == c;
        }
      }
    }
  }

  /** The currency map in order: the first residual that is not zero. */
  method FirstResidual(legs: seq<Leg>, sums: map<Utf8, int>, scales: map<Utf8, u32>) returns (why: Option<Refusal>)
    requires Tallied(legs, sums, scales) && Clean(legs)
    ensures Judged(legs, why)
  {
    hide Total, ScalesAgree, SumsFit, LexLeq;
    var left := sums.Keys;
    while left != {}
      invariant left <= sums.Keys
      invariant forall c :: c in sums.Keys - left ==> sums[c] == 0
      decreases |left|
    {
      ghost var least := LeastExists(left);
      assert IsLeast(least, left);
      var c :| c in left && forall j :: j in left ==> LexLeq(c, j);
      if sums[c] != 0 {
        assert Total(legs, c) == sums[c];
        return Some(Unbalanced(c, sums[c]));
      }
      left := left - {c};
    }
    why := None;
  }

  lemma ConflictFound(legs: seq<Leg>, k: nat, sums: map<Utf8, int>, scales: map<Utf8, u32>)
    requires k < |legs| && Tallied(legs[..k], sums, scales) && Clean(legs[..k])
    requires legs[k].currency in scales && scales[legs[k].currency] != legs[k].scale
    ensures Refused(legs, ScaleConflict(legs[k].currency, scales[legs[k].currency], legs[k].scale))
  {
    hide Total, Clean;
    var cut := legs[..k];
    var i :| 0 <= i < |cut| && cut[i].currency == legs[k].currency;
    assert legs[i] == cut[i];
  }

  lemma EmptyTally()
    ensures Tallied([], map[], map[]) && Clean([])
  {
    var none: seq<Leg> := [];
    assert forall c :: Total(none, c) == 0;
    assert forall k :: 0 <= k <= 0 ==> none[..k] == none;
  }

  /** The commit rule, leg by leg and then currency by currency in map order. */
  method Judge(legs: seq<Leg>) returns (why: Option<Refusal>)
    ensures Judged(legs, why)
  {
    hide Total, Clean, Tallied, LexLeq;
    var sums: map<Utf8, int> := map[];
    var scales: map<Utf8, u32> := map[];
    EmptyTally();
    for k := 0 to |legs|
      invariant Tallied(legs[..k], sums, scales) && Clean(legs[..k])
    {
      var l := legs[k];
      ghost var before := scales;
      assert legs[..k + 1] == legs[..k] + [l];
      if l.currency in scales && scales[l.currency] != l.scale {
        ConflictFound(legs, k, sums, scales);
        return Some(ScaleConflict(l.currency, scales[l.currency], l.scale));
      }
      scales := scales[l.currency := l.scale];
      var total := (if l.currency in sums then sums[l.currency] else 0) + l.minor;
      TallyLeg(legs[..k], l, sums, before, total);
      if !FitsI128(total) {
        return Some(Overflow(l.currency));
      }
      sums := sums[l.currency := total];
    }
    assert legs[..|legs|] == legs;
    why := FirstResidual(legs, sums, scales);
  }

  // ---------- Every run ----------

  ghost function Run(calls: seq<Call>): State {
    if calls == [] then NewState else Next(Run(calls[..|calls| - 1]), calls[|calls| - 1])
  }

  ghost predicate Sound(s: State) {
    && s.nextEpoch == |s.sealed| + 1
    && (s.open.Some? ==> s.open.value.epoch == s.nextEpoch)
    && (forall i :: 0 <= i < |s.sealed| ==> s.sealed[i].epoch == i + 1 && Sealable(s.sealed[i].legs))
  }

  /** **Epochs are consecutive**: the i-th sealed set has epoch i + 1, and everything sealed could seal. */
  lemma {:induction false} RunsAreSound(calls: seq<Call>)
    ensures Sound(Run(calls))
  {
    hide Sealable;
    if calls != [] {
      RunsAreSound(calls[..|calls| - 1]);
    }
  }

  /** Sealed sets are never changed or removed. */
  lemma {:induction false} SealedIsAppendOnly(calls: seq<Call>, more: seq<Call>)
    ensures Run(calls).sealed <= Run(calls + more).sealed
  {
    hide Sealable;
    if more == [] {
      assert calls + more == calls;
    } else {
      SealedIsAppendOnly(calls, more[..|more| - 1]);
      assert (calls + more)[..|calls + more| - 1] == calls + more[..|more| - 1];
    }
  }

  /** The legs pushed by a stretch of calls, first pushed first. */
  function Pushed(calls: seq<Call>): seq<Leg> {
    if calls == [] then [] else (if calls[0].PushLegs? then calls[0].legs else []) + Pushed(calls[1..])
  }

  lemma {:induction false} PushedSnoc(calls: seq<Call>, last: Call)
    ensures Pushed(calls + [last]) == Pushed(calls) + if last.PushLegs? then last.legs else []
  {
    if calls == [] {
      assert calls + [last] == [last] && [last][1..] == [];
    } else {
      assert (calls + [last])[1..] == calls[1..] + [last];
      PushedSnoc(calls[1..], last);
      Associates(if calls[0].PushLegs? then calls[0].legs else [], Pushed(calls[1..]),
                 if last.PushLegs? then last.legs else []);
    }
  }

  ghost predicate OnlyPushes(calls: seq<Call>) {
    forall i :: 0 <= i < |calls| ==> calls[i].PushLegs? || calls[i].OpenBalance?
  }

  lemma RunSnoc(calls: seq<Call>, last: Call)
    ensures Run(calls + [last]) == Next(Run(calls), last)
  {
    assert (calls + [last])[..|calls|] == calls;
  }

  /** While a transaction is open it holds what was pushed since it began. */
  lemma {:induction false} OpenHoldsWhatWasPushed(calls: seq<Call>, txn: Utf8, pushes: seq<Call>)
    requires OnlyPushes(pushes)
    ensures var s, t := Run(calls), Run(calls + [Call.Begin(txn)] + pushes);
      t.sealed == s.sealed && t.nextEpoch == s.nextEpoch && t.open == Some(Posted(txn, s.nextEpoch, Pushed(pushes)))
  {
    hide Sealable, Pushed, Run;
    var begun := calls + [Call.Begin(txn)];
    RunSnoc(calls, Call.Begin(txn));
    if pushes == [] {
      assert begun + pushes == begun && Pushed(pushes) == [] by {
        PushedNone();
      }
    } else {
      var rest, last := pushes[..|pushes| - 1], pushes[|pushes| - 1];
      OpenHoldsWhatWasPushed(calls, txn, rest);
      assert pushes == rest + [last];
      Associates(begun, rest, [last]);
      RunSnoc(begun + rest, last);
      PushedSnoc(rest, last);
      assert last.OpenBalance? ==> Pushed(pushes) == Pushed(rest);
    }
  }

  lemma PushedNone()
    ensures Pushed([]) == []
  {
  }

  /** **A transaction seals what was pushed into it**: whatever came before it, also when another was open,
      sealing adds one set of just those legs, in order, at the next epoch, or adds nothing. */
  lemma TransactionSealsWhatWasPushed(calls: seq<Call>, txn: Utf8, pushes: seq<Call>)
    requires OnlyPushes(pushes)
    ensures var sealed, legs := Run(calls).sealed, Pushed(pushes);
      var t := Run(calls + [Call.Begin(txn)] + pushes + [Call.Seal]);
      && t.open == None
      && t.sealed == if Sealable(legs) then sealed + [Posted(txn, |sealed| + 1, legs)] else sealed
  {
    OpenHoldsWhatWasPushed(calls, txn, pushes);
    RunsAreSound(calls);
    RunSnoc(calls + [Call.Begin(txn)] + pushes, Call.Seal);
    hide Sealable, Pushed, Run;
  }

  /** Outside a transaction nothing seals, until one begins. */
  lemma {:induction false} NothingSealsOutside(calls: seq<Call>, more: seq<Call>)
    requires Run(calls).open.None? && forall i :: 0 <= i < |more| ==> !more[i].Begin?
    ensures Run(calls + more).sealed == Run(calls).sealed && Run(calls + more).open.None?
  {
    hide Sealable, Run;
    if more == [] {
      assert calls + more == calls;
    } else {
      var rest, last := more[..|more| - 1], more[|more| - 1];
      NothingSealsOutside(calls, rest);
      assert more == rest + [last];
      Associates(calls, rest, [last]);
      RunSnoc(calls + rest, last);
    }
  }

  /** The opening balances a run was given in one currency. */
  function Opened(calls: seq<Call>, c: Utf8): int {
    if calls == [] then 0
    else
      var last := calls[|calls| - 1];
      Opened(calls[..|calls| - 1], c) + (if last.OpenBalance? && last.currency == c then last.minor else 0)
  }

  ghost function Balances(s: State, accounts: set<Utf8>, c: Utf8): map<Utf8, int> {
    map a | a in accounts :: BalanceOf(s, a, c)
  }

  ghost function Openings(s: State, accounts: set<Utf8>, c: Utf8): map<Utf8, int> {
    map a | a in accounts :: Opening(s, a, c)
  }

  ghost function SealedBalances(sealed: seq<Posted>, accounts: set<Utf8>, c: Utf8): map<Utf8, int> {
    map a | a in accounts :: SealedBalance(sealed, a, c)
  }

  ghost function LegsBalances(legs: seq<Leg>, accounts: set<Utf8>, c: Utf8): map<Utf8, int> {
    map a | a in accounts :: LegsBalance(legs, a, c)
  }

  ghost predicate LegsWithin(legs: seq<Leg>, accounts: set<Utf8>) {
    forall i :: 0 <= i < |legs| ==> legs[i].account in accounts
  }

  /** Every account the run ever named. */
  ghost predicate Covers(accounts: set<Utf8>, calls: seq<Call>) {
    forall i :: 0 <= i < |calls| ==>
      && (calls[i].OpenBalance? ==> calls[i].account in accounts)
      && (calls[i].PushLegs? ==> LegsWithin(calls[i].legs, accounts))
  }

  lemma {:induction false} ZeroSum(ks: set<Utf8>, b: map<Utf8, int>)
    requires ks <= b.Keys && forall k :: k in ks ==> b[k] == 0
    ensures SumOver(ks, b) == 0
  {
    if ks != {} {
      var k :| k in ks;
      SumOverTake(ks, b, k);
      ZeroSum(ks - {k}, b);
    }
  }

  /** Changing one entry changes the sum by as much. */
  lemma SumOverBump(ks: set<Utf8>, b: map<Utf8, int>, c: map<Utf8, int>, k: Utf8, delta: int)
    requires k in ks && ks <= b.Keys && ks <= c.Keys
    requires forall j :: j in ks ==> c[j] == b[j] + (if j == k then delta else 0)
    ensures SumOver(ks, c) == SumOver(ks, b) + delta
  {
    SumOverTake(ks, b, k);
    SumOverTake(ks, c, k);
    SumOverSame(ks - {k}, b, c);
  }

  /** Regrouping: a list's legs, summed account by account, are its currency total. */
  lemma {:induction false} LegsGroup(legs: seq<Leg>, accounts: set<Utf8>, c: Utf8)
    requires LegsWithin(legs, accounts)
    ensures SumOver(accounts, LegsBalances(legs, accounts, c)) == Total(legs, c)
  {
    if legs == [] {
      ZeroSum(accounts, LegsBalances(legs, accounts, c));
    } else {
      var rest, l := legs[..|legs| - 1], legs[|legs| - 1];
      LegsGroup(rest, accounts, c);
      SumOverBump(accounts, LegsBalances(rest, accounts, c), LegsBalances(legs, accounts, c), l.account,
                  if l.currency == c then l.minor else 0);
    }
  }

  lemma {:induction false} SealedGroup(sealed: seq<Posted>, accounts: set<Utf8>, c: Utf8)
    requires forall i :: 0 <= i < |sealed| ==> LegsWithin(sealed[i].legs, accounts) && Conserves(sealed[i].legs)
    ensures SumOver(accounts, SealedBalances(sealed, accounts, c)) == 0
  {
    if sealed == [] {
      ZeroSum(accounts, SealedBalances(sealed, accounts, c));
    } else {
      var rest, last := sealed[..|sealed| - 1], sealed[|sealed| - 1];
      SealedGroup(rest, accounts, c);
      LegsGroup(last.legs, accounts, c);
      SumOverAdds(accounts, SealedBalances(sealed, accounts, c), SealedBalances(rest, accounts, c),
                  LegsBalances(last.legs, accounts, c));
    }
  }

  lemma {:induction false} CoveredRun(calls: seq<Call>, accounts: set<Utf8>)
    requires Covers(accounts, calls)
    ensures var s := Run(calls);
      && (s.open.Some? ==> LegsWithin(s.open.value.legs, accounts))
      && (forall i :: 0 <= i < |s.sealed| ==> LegsWithin(s.sealed[i].legs, accounts))
  {
    hide Sealable;
    if calls != [] {
      CoveredRun(calls[..|calls| - 1], accounts);
    }
  }

  lemma {:induction false} OpeningsSum(calls: seq<Call>, accounts: set<Utf8>, c: Utf8)
    requires Covers(accounts, calls)
    ensures SumOver(accounts, Openings(Run(calls), accounts, c)) == Opened(calls, c)
  {
    hide Sealable;
    if calls == [] {
      ZeroSum(accounts, Openings(NewState, accounts, c));
    } else {
      var rest, last := calls[..|calls| - 1], calls[|calls| - 1];
      OpeningsSum(rest, accounts, c);
      var b, b' := Openings(Run(rest), accounts, c), Openings(Run(calls), accounts, c);
      if last.OpenBalance? {
        SumOverBump(accounts, b, b', last.account, if last.currency == c then last.minor else 0);
      } else {
        assert b == b';
      }
    }
  }

  /** **Conservation**: after any calls, a currency's balances over all accounts sum to what was opened in it. */
  lemma RunsConserve(calls: seq<Call>, accounts: set<Utf8>, c: Utf8)
    requires Covers(accounts, calls)
    ensures SumOver(accounts, Balances(Run(calls), accounts, c)) == Opened(calls, c)
  {
    var s := Run(calls);
    CoveredRun(calls, accounts);
    RunsAreSound(calls);
    OpeningsSum(calls, accounts, c);
    SealedGroup(s.sealed, accounts, c);
    SumOverAdds(accounts, Balances(s, accounts, c), Openings(s, accounts, c), SealedBalances(s.sealed, accounts, c));
  }
}
