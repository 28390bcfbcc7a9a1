/** Types and small facts about sequences and finite sets that every other module uses. */
module Prelude {

  datatype Option<+T> = None | Some(value: T)

  datatype Result<+T, +E> = Ok(value: T) | Err(error: E)

  // The machine integers of the source. Arithmetic on them is written on `int`, and wraps or
  // is checked where the source wraps or checks.
  type u8 = x: int | 0 <= x < 0x100
  type u32 = x: int | 0 <= x < 0x1_0000_0000
  type u64 = x: int | 0 <= x < 0x1_0000_0000_0000_0000
  type i64 = x: int | -0x8000_0000_0000_0000 <= x < 0x8000_0000_0000_0000
  type i128 = x: int |
      -0x8000_0000_0000_0000_0000_0000_0000_0000 <= x < 0x8000_0000_0000_0000_0000_0000_0000_0000

  const EIGHT_ZEROS: seq<u8> := [0, 0, 0, 0, 0, 0, 0, 0]

  type Digest = d: seq<u8> | |d| == 32 witness EIGHT_ZEROS + EIGHT_ZEROS + EIGHT_ZEROS + EIGHT_ZEROS

  /** The hash is any function to 32 bytes; nothing is assumed of it. */
  type Hash = seq<u8> -> Digest

  ghost predicate Distinct<T(!new)>(s: seq<T>) {
    forall i, j :: 0 <= i < j < |s| ==> s[i] != s[j]
  }

  ghost function Elements<T>(s: seq<T>): set<T> {
    set x | x in s
  }

  lemma ElementsAppend<T>(s: seq<T>, t: seq<T>)
    ensures Elements(s + t) == Elements(s) + Elements(t)
  {
  }

  lemma ElementsSplitLast<T>(s: seq<T>)
    requires s != []
    ensures Elements(s) == Elements(s[..|s| - 1]) + {s[|s| - 1]}
  {
    assert s == s[..|s| - 1] + [s[|s| - 1]];
  }

  lemma Associates<T>(a: seq<T>, b: seq<T>, c: seq<T>)
    ensures a + b + c == a + (b + c)
  {
  }

  /** A sequence without repetition has as many elements as positions. */
  lemma {:induction false} DistinctCardinality<T(!new)>(s: seq<T>)
    requires Distinct(s)
    ensures |Elements(s)| == |s|
  {
    if s == [] {
      assert Elements(s) == {};
    } else {
      var rest := s[1..];
      DistinctCardinality(rest);
      assert s[0] !in rest;
      assert Elements(s) == {s[0]} + Elements(rest);
    }
  }

  lemma {:induction false} SubsetCardinality<T>(a: set<T>, b: set<T>)
    requires a <= b
    ensures |a| <= |b|
    ensures |a| == |b| ==> a == b
  {
    if a != {} {
      var x :| x in a;
      SubsetCardinality(a - {x}, b - {x});
    } else if |b| == 0 {
      assert b == {};
    }
  }

  ghost function Below(n: nat): (r: set<nat>)
    ensures forall i: nat :: i in r <==> i < n
  {
    if n == 0 then {} else Below(n - 1) + {n - 1}
  }

  lemma {:induction false} BelowCardinality(n: nat)
    ensures |Below(n)| == n
  {
    if n > 0 {
      BelowCardinality(n - 1);
    }
  }

  /** More positions than values: two positions agree. */
  lemma Pigeonhole<T(!new)>(s: seq<T>, values: set<T>) returns (i: nat, j: nat)
    requires forall k :: 0 <= k < |s| ==> s[k] in values
    requires |s| > |values|
    ensures i < j < |s| && s[i] == s[j]
  {
    if Distinct(s) {
      DistinctCardinality(s);
      SubsetCardinality(Elements(s), values);
      assert false;
    }
    i, j :| 0 <= i < j < |s| && s[i] == s[j];
  }

  lemma TwoElements<T>(s: set<T>) returns (u: T, v: T)
    requires |s| > 1
    ensures u in s && v in s && u != v
  {
    u :| u in s;
    var rest := s - {u};
    assert |rest| == |s| - 1;
    v :| v in rest;
  }

  // ---------- Sums over a finite set ----------

  ghost function SumOver<K>(ks: set<K>, b: map<K, int>): int
    requires ks <= b.Keys
  {
    if ks == {} then 0 else var k :| k in ks; b[k] + SumOver(ks - {k}, b)
  }

  /** Any element can be taken out first. */
  lemma {:induction false} SumOverTake<K>(ks: set<K>, b: map<K, int>, k: K)
    requires k in ks && ks <= b.Keys
    ensures SumOver(ks, b) == b[k] + SumOver(ks - {k}, b)
    decreases |ks|
  {
    var j :| j in ks && SumOver(ks, b) == b[j] + SumOver(ks - {j}, b);
    if j != k {
      SumOverTake(ks - {j}, b, k);
      SumOverTake(ks - {k}, b, j);
      assert ks - {j} - {k} == ks - {k} - {j};
    }
  }

  lemma {:induction false} SumOverSame<K>(ks: set<K>, b: map<K, int>, c: map<K, int>)
    requires ks <= b.Keys && ks <= c.Keys && forall k :: k in ks ==> b[k] == c[k]
    ensures SumOver(ks, b) == SumOver(ks, c)
    decreases |ks|
  {
    if ks != {} {
      var k :| k in ks;
      SumOverTake(ks, b, k);
      SumOverTake(ks, c, k);
      SumOverSame(ks - {k}, b, c);
    }
  }

  lemma {:induction false} SumOverSplit<K>(ks: set<K>, part: set<K>, b: map<K, int>)
    requires part <= ks <= b.Keys
    ensures SumOver(ks, b) == SumOver(ks - part, b) + SumOver(part, b)
    decreases |part|
  {
    if part == {} {
      assert ks - part == ks;
    } else {
      var k :| k in part;
      SumOverTake(ks, b, k);
      SumOverTake(part, b, k);
      SumOverSplit(ks - {k}, part - {k}, b);
      assert ks - {k} - (part - {k}) == ks - part;
    }
  }

  lemma {:induction false} SumOverAdds<K>(ks: set<K>, b: map<K, int>, c: map<K, int>, d: map<K, int>)
    requires ks <= b.Keys && ks <= c.Keys && ks <= d.Keys && forall k :: k in ks ==> b[k] == c[k] + d[k]
    ensures SumOver(ks, b) == SumOver(ks, c) + SumOver(ks, d)
    decreases |ks|
  {
    if ks != {} {
      var k :| k in ks;
      SumOverTake(ks, b, k);
      SumOverTake(ks, c, k);
      SumOverTake(ks, d, k);
      SumOverAdds(ks - {k}, b, c, d);
    }
  }
}
