/** The synthetic universe: a seeded shuffle of the accounts, and conserving two-leg transfers. */
module Universe {
  import opened Prelude

  datatype Leg = Leg(acct: u64, cur: u32, amt: i64)

  /** A two-leg transfer; the source's array of two legs is the pair `first`, `second`. */
  datatype Txn = Txn(id: u64, batch: u64, first: Leg, second: Leg, valueDay: int)

  /** The weights come from a power function and stay abstract: any numbers, one per rank. */
  datatype Params = Params(accounts: u64, multiCurrency: bool, historyTxns: u64, batch: u64)

  /** A random generator is any stream of 64-bit words, read in order. */
  class Rng {
    const stream: nat -> u64
    var drawn: nat

    constructor (stream: nat -> u64)
      ensures this.stream == stream && drawn == 0
    {
      this.stream, drawn := stream, 0;
    }

    method NextU64() returns (x: u64)
      modifies this
      ensures x == stream(old(drawn)) && drawn == old(drawn) + 1
    {
      x := stream(drawn);
      drawn := drawn + 1;
    }

    /** Uniform in [0, 1): the top 53 bits over 2^53. */
    method Unit() returns (u: real)
      modifies this
      ensures 0.0 <= u < 1.0 && drawn == old(drawn) + 1
    {
      var x := NextU64();
      assert 0 <= x / 2048 < 0x20_0000_0000_0000;
      u := (x / 2048) as real / 0x20_0000_0000_0000 as real;
    }

    method Below(n: u64) returns (x: u64)
      requires n > 0
      modifies this
      ensures x < n && drawn == old(drawn) + 1
    {
      x := NextU64();
      x := x % n;
    }
  }

  // ---------- The shuffle ----------

  /** Each of 1..n once. */
  ghost predicate IsShuffle(s: seq<u64>, n: nat) {
    |s| == n && Distinct(s) && forall i :: 0 <= i < |s| ==> 1 <= s[i] <= n
  }

  ghost function Accounts(n: nat): (r: set<u64>)
    requires n < 0x1_0000_0000_0000_0000
    ensures forall a: u64 :: a in r <==> 1 <= a <= n
    ensures |r| == n
  {
    if n == 0 then {} else Accounts(n - 1) + {n}
  }

  /** A shuffle leaves no account out. */
  lemma ShuffleCoversAll(s: seq<u64>, n: nat)
    requires IsShuffle(s, n) && n < 0x1_0000_0000_0000_0000
    ensures forall a: u64 :: 1 <= a <= n <==> a in s
  {
    DistinctCardinality(s);
    assert Elements(s) <= Accounts(n);
    SubsetCardinality(Elements(s), Accounts(n));
    assert forall a: u64 :: a in s <==> a in Elements(s);
  }

  lemma SwapKeepsShuffle(s: seq<u64>, n: nat, i: nat, j: nat)
    requires IsShuffle(s, n) && i < |s| && j < |s|
    ensures IsShuffle(s[i := s[j]][j := s[i]], n)
  {
  }

  /** **The shuffle is a permutation of the accounts**, whatever is drawn. */
  method ShuffleAccounts(a: array<u64>, r: Rng)
    requires IsShuffle(a[..], a.Length) && a.Length < 0x1_0000_0000_0000_0000
    modifies a, r
    ensures IsShuffle(a[..], a.Length)
  {
    var i := a.Length - 1;
    while i >= 1
      invariant -1 <= i < a.Length && IsShuffle(a[..], a.Length)
    {
      var j := r.Below(i + 1);
      SwapKeepsShuffle(a[..], a.Length, i, j);
      ghost var was := a[..];
      a[i], a[j] := a[j], a[i];
      assert a[..] == was[i := was[j]][j := was[i]];
      i := i - 1;
    }
  }

  datatype Sampler = Sampler(cumulative: seq<real>, accountOfRank: seq<u64>)

  ghost predicate Samples(s: Sampler, n: nat) {
    |s.cumulative| == n && IsShuffle(s.accountOfRank, n)
  }

  method NewSampler(n: u64, cumulative: seq<real>, r: Rng) returns (s: Sampler)
    requires |cumulative| == n
    modifies r
    ensures Samples(s, n) && s.cumulative == cumulative
  {
    var accounts := new u64[n](_ => 1);
    for k := 0 to n
      invariant forall i :: 0 <= i < k ==> accounts[i] == i + 1
    {
      accounts[k] := k + 1;
    }
    ShuffleAccounts(accounts, r);
    s := Sampler(cumulative, accounts[..]);
  }

  /** The first rank whose cumulative weight reaches `u`. */
  function FirstReaching(cumulative: seq<real>, u: real): (i: nat)
    ensures i <= |cumulative| && forall j :: 0 <= j < i ==> cumulative[j] < u
    ensures i < |cumulative| ==> cumulative[i] >= u
  {
    if cumulative == [] || cumulative[0] >= u then 0 else 1 + FirstReaching(cumulative[1..], u)
  }

  method Draw(s: Sampler, r: Rng) returns (acct: u64)
    requires |s.accountOfRank| > 0
    modifies r
    ensures acct in s.accountOfRank
  {
    var u := r.Unit();
    var i := FirstReaching(s.cumulative, u);
    acct := s.accountOfRank[if i < |s.accountOfRank| - 1 then i else |s.accountOfRank| - 1];
  }

  // ---------- Transfers ----------

  /** Which accounts have the second currency: a wrapping multiply, and the top half modulo 100. */
  predicate HoldsEur(acct: u64, multiCurrency: bool) {
    multiCurrency && (acct * 0x9E37_79B9_7F4A_7C15 % 0x1_0000_0000_0000_0000) / 0x1_0000_0000 % 100 < 35
  }

  /** With the account times the odd constant written out as a part beyond 64 bits, a top half and a bottom
      half, and the top half as hundreds and a rest, the rest decides. */
  lemma HoldsEurExactly(acct: u64, multiCurrency: bool, beyond: nat, top: u32, bottom: u32, hundreds: nat, rest: nat)
    requires acct * 0x9E37_79B9_7F4A_7C15 == beyond * 0x1_0000_0000_0000_0000 + top * 0x1_0000_0000 + bottom
    requires top == hundreds * 100 + rest && rest < 100
    ensures HoldsEur(acct, multiCurrency) <==> multiCurrency && rest < 35
  {
    var low := top * 0x1_0000_0000 + bottom;
    Quotient(acct * 0x9E37_79B9_7F4A_7C15, beyond, 0x1_0000_0000_0000_0000, low);
    Quotient(low, top, 0x1_0000_0000, bottom);
    Quotient(top, hundreds, 100, rest);
  }

  lemma Quotient(n: nat, q: nat, d: nat, r: nat)
    requires n == q * d + r && r < d
    ensures n / d == q && n % d == r
  {
    var p := n / d;
    assert n == p * d + n % d;
    assert q * d < (p + 1) * d && p * d < (q + 1) * d;
    SmallerFactor(q, p + 1, d);
    SmallerFactor(p, q + 1, d);
  }

  function DeskOf(acct: u64): u64 {
    acct % 16
  }

  /** A batch's business day, fifty batches to a day, truncated to 32 bits and read as signed. */
  function DayOf(batch: u64): (day: int)
    ensures -0x8000_0000 <= day < 0x8000_0000
  {
    var d := (batch / 50) % 0x1_0000_0000;
    if d < 0x8000_0000 then d else d - 0x1_0000_0000
  }

  /** A day is the number of whole fifties of batches, until 32 bits no longer hold it, and differs from it
      by a multiple of 2^32 after. */
  lemma DayExactly(batch: u64)
    ensures batch / 50 < 0x8000_0000 ==> DayOf(batch) * 50 <= batch < DayOf(batch) * 50 + 50
    ensures (batch / 50 - DayOf(batch)) % 0x1_0000_0000 == 0
  {
  }

  /** A transfer as the arms may rely on it: conserving, in range, at most 22 days back-valued, and
      between two accounts whenever there are two. */
  ghost predicate WellFormed(t: Txn, p: Params) {
    && t.first.cur == t.second.cur && t.first.amt == 0 - t.second.amt
    && 1 <= t.first.acct <= p.accounts && 1 <= t.second.acct <= p.accounts
    && (t.first.acct != t.second.acct <==> p.accounts >= 2)
    && 100 <= t.second.amt < 1_000_100
    && (t.first.cur == 0 || (t.first.cur == 1 &&
        HoldsEur(t.first.acct, p.multiCurrency) && HoldsEur(t.second.acct, p.multiCurrency)))
    && DayOf(t.batch) - 22 <= t.valueDay <= DayOf(t.batch)
  }

  /** One transfer, for any draws. */
  method One(p: Params, s: Sampler, r: Rng, id: u64, batch: u64) returns (t: Txn)
    requires Samples(s, p.accounts) && p.accounts >= 1
    modifies r
    ensures WellFormed(t, p) && t.id == id && t.batch == batch
  {
    ShuffleCoversAll(s.accountOfRank, p.accounts);
    var from := Draw(s, r);
    var to := Draw(s, r);
    if to == from {
      to := from % p.accounts + 1;
    }
    var cur: u32 := 0;
    if HoldsEur(from, p.multiCurrency) && HoldsEur(to, p.multiCurrency) {
      var u := r.Unit();
      cur := if u < 0.5 then 1 else 0;
    }
    var x := r.Below(1_000_000);
    var amt: i64 := 100 + x;
    var day := DayOf(batch);
    var u := r.Unit();
    if u < 0.03 {
      var back := r.Below(22);
      day := day - 1 - back;
    }
    t := Txn(id, batch, Leg(from, cur, 0 - amt), Leg(to, cur, amt), day);
  }

  /** A history: ids from 1 on, batches of `p.batch` from 1 on, every transfer well formed. */
  ghost predicate IsHistory(txns: seq<Txn>, p: Params) {
    forall i :: 0 <= i < |txns| ==>
      WellFormed(txns[i], p) && txns[i].id == i + 1 && p.batch > 0 && txns[i].batch == i / p.batch + 1
  }

  /** **Every generated universe is well formed**, for any weights and any draws. */
  method Generate(p: Params, cumulative: seq<real>, shuffling: Rng, r: Rng)
    returns (sampler: Sampler, txns: seq<Txn>)
    requires |cumulative| == p.accounts
    requires p.historyTxns > 0 ==> p.accounts >= 1 && p.batch >= 1
    modifies shuffling, r
    ensures Samples(sampler, p.accounts)
    ensures |txns| == p.historyTxns && IsHistory(txns, p)
  {
    sampler := NewSampler(p.accounts, cumulative, shuffling);
    txns := [];
    for i := 0 to p.historyTxns
      invariant |txns| == i && IsHistory(txns, p)
    {
      assert i / p.batch <= i;
      var t := One(p, sampler, r, i + 1, i / p.batch + 1);
      txns := txns + [t];
    }
  }

  /** Batches never step back, so they can be applied in order. */
  lemma HistoryIsOrdered(txns: seq<Txn>, p: Params, i: nat, j: nat)
    requires IsHistory(txns, p) && i <= j < |txns|
    ensures 1 <= txns[i].batch <= txns[j].batch
  {
    hide WellFormed;
    assert txns[i].id == i + 1 && txns[j].id == j + 1;
    DivisionMonotone(i, j, p.batch);
  }

  lemma DivisionMonotone(i: nat, j: nat, d: nat)
    requires i <= j && d > 0
    ensures 0 <= i / d <= j / d
  {
    var a, b := i / d, j / d;
    assert a * d <= i && j < (b + 1) * d;
    SmallerFactor(a, b + 1, d);
  }

  lemma SmallerFactor(a: int, b: int, d: nat)
    requires a * d < b * d
    ensures a < b
  {
  }
}
