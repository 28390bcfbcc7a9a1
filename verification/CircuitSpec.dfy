/** The meaning of a circuit, on values: what the graph algorithms of `Circuit` compute. */
module CircuitSpec {
  import opened Prelude

  datatype Anchor = Frontier | Pinned(epoch: u64) | Inherited

  /** The operators the graph algorithms tell apart; every other one is `Other`. */
  datatype OpKind = Source | AsOf(epoch: Option<u64>) | Delay | Other

  /** `conserving` is the operator's own transparency verdict, an arbitrary Boolean here. */
  datatype Op = Op(kind: OpKind, conserving: bool)

  /** What the algorithms read of one node. */
  datatype Shape = Shape(op: Op, inputs: seq<nat>, anchor: Anchor, transparent: bool)

  type Graph = seq<Shape>

  function AnchorOf(op: Op): Anchor {
    match op.kind
    case AsOf(Some(e)) => Pinned(e)
    case Source => Frontier
    case _ => Inherited
  }

  /** The local facts `add` establishes for node `v`: its inputs are earlier nodes, its anchor is
      its operator's, and its transparency is the conjunction over itself and its inputs. */
  ghost predicate WellBuiltAt(g: Graph, v: nat)
    requires v < |g|
  {
    && (forall i :: 0 <= i < |g[v].inputs| ==> g[v].inputs[i] < v)
    && g[v].anchor == AnchorOf(g[v].op)
    && (g[v].transparent <==>
        g[v].op.conserving && forall i :: 0 <= i < |g[v].inputs| ==> g[g[v].inputs[i]].transparent)
  }

  ghost predicate WellBuilt(g: Graph) {
    forall v :: 0 <= v < |g| ==> WellBuiltAt(g, v)
  }

  // ---------- Paths ----------

  /** `p` walks from `v` to `k` along input edges; `through` says which nodes it may leave. */
  ghost predicate IsPath(g: Graph, through: Shape -> bool, v: nat, k: nat, p: seq<nat>) {
    && |p| > 0 && p[0] == v && p[|p| - 1] == k
    && forall i :: 0 <= i < |p| - 1 ==>
         p[i] < |g| && through(g[p[i]]) && p[i + 1] in g[p[i]].inputs
  }

  ghost predicate Reaches(g: Graph, through: Shape -> bool, v: nat, k: nat) {
    exists p :: IsPath(g, through, v, k, p)
  }

  ghost function AnyNode(): Shape -> bool {
    (s: Shape) => true
  }

  ghost function InheritingNode(): Shape -> bool {
    (s: Shape) => s.anchor == Inherited
  }

  /** `k` is `v` or feeds it, directly or not. */
  ghost predicate Ancestor(g: Graph, v: nat, k: nat) {
    Reaches(g, AnyNode(), v, k)
  }

  /** `k` is reached from `v` without leaving a node that has an anchor of its own. */
  ghost predicate Consulted(g: Graph, v: nat, k: nat) {
    Reaches(g, InheritingNode(), v, k)
  }

  lemma ReachesSelf(g: Graph, through: Shape -> bool, v: nat)
    ensures Reaches(g, through, v, v)
  {
    assert IsPath(g, through, v, v, [v]);
  }

  lemma ReachesThroughInput(g: Graph, through: Shape -> bool, v: nat, u: nat, k: nat)
    requires v < |g| && through(g[v]) && u in g[v].inputs
    requires Reaches(g, through, u, k)
    ensures Reaches(g, through, v, k)
  {
    var p :| IsPath(g, through, u, k, p);
    assert IsPath(g, through, v, k, [v] + p);
  }

  lemma ReachesExtend(g: Graph, through: Shape -> bool, v: nat, u: nat, k: nat)
    requires Reaches(g, through, v, u)
    requires u < |g| && through(g[u]) && k in g[u].inputs
    ensures Reaches(g, through, v, k)
  {
    var p :| IsPath(g, through, v, u, p);
    assert IsPath(g, through, v, k, p + [k]);
  }

  /** A node reached from `v` is `v` itself or is reached from one of its inputs. */
  lemma ReachesCases(g: Graph, through: Shape -> bool, v: nat, k: nat)
    requires Reaches(g, through, v, k)
    ensures v == k || (v < |g| && through(g[v]) &&
                       exists u :: u in g[v].inputs && Reaches(g, through, u, k))
  {
    var p :| IsPath(g, through, v, k, p);
    if |p| > 1 {
      assert IsPath(g, through, p[1], k, p[1..]);
      assert p[1] in g[v].inputs && Reaches(g, through, p[1], k);
    }
  }

  // ---------- Effective anchors ----------

  /** The accumulator of the loop over inputs: the least pinned epoch, and whether a frontier
      anchor was seen. */
  datatype Seen = Seen(pinned: Option<u64>, frontier: bool)

  function Note(s: Seen, a: Anchor): Seen {
    match a
    case Pinned(e) =>
      s.(pinned := Some(if s.pinned.Some? && s.pinned.value <= e then s.pinned.value else e))
    case Frontier => s.(frontier := true)
    case Inherited => s
  }

  function Resolve(s: Seen): Anchor {
    if s.pinned.Some? then Pinned(s.pinned.value)
    else if s.frontier then Frontier else Inherited
  }

  /** The accumulator after the first `n` inputs of node `v`. */
  ghost function SeenUpto(g: Graph, v: nat, n: nat): Seen
    requires WellBuilt(g) && v < |g| && n <= |g[v].inputs|
    decreases v, 0, n
  {
    if n == 0 then Seen(None, false)
    else
      assert WellBuiltAt(g, v);
      Note(SeenUpto(g, v, n - 1), EffectiveAnchor(g, g[v].inputs[n - 1]))
  }

  ghost function EffectiveAnchor(g: Graph, v: nat): Anchor
    requires WellBuilt(g) && v < |g|
    decreases v, 1
  {
    if g[v].anchor == Inherited then Resolve(SeenUpto(g, v, |g[v].inputs|)) else g[v].anchor
  }

  /** `s` is the summary of the anchors in `anchors`: the minimum pinned epoch and, when none is
      pinned, whether any is the frontier. */
  ghost predicate Summarises(s: Seen, anchors: iset<Anchor>) {
    && (s.pinned.Some? ==> Pinned(s.pinned.value) in anchors)
    && (forall e: u64 :: Pinned(e) in anchors ==> s.pinned.Some? && s.pinned.value <= e)
    && (s.pinned.None? ==> (s.frontier <==> Frontier in anchors))
  }

  /** Closed form of an effective anchor, over the anchors of the nodes consulted. */
  ghost predicate IsStalest(a: Anchor, anchors: iset<Anchor>) {
    match a
    case Pinned(e) => a in anchors && forall f: u64 :: Pinned(f) in anchors ==> e <= f
    case Frontier => a in anchors && forall f: u64 :: Pinned(f) !in anchors
    case Inherited => Frontier !in anchors && forall f: u64 :: Pinned(f) !in anchors
  }

  ghost function ConsultedAnchors(g: Graph, v: nat): iset<Anchor> {
    iset k: nat | k < |g| && Consulted(g, v, k) :: g[k].anchor
  }

  ghost function InputAnchors(g: Graph, v: nat, n: nat): iset<Anchor>
    requires v < |g| && n <= |g[v].inputs|
  {
    iset i: nat, a: Anchor | i < n && a in ConsultedAnchors(g, g[v].inputs[i]) :: a
  }

  lemma InputsSummarised(g: Graph, v: nat, n: nat)
    requires WellBuilt(g) && v < |g| && n <= |g[v].inputs|
    ensures Summarises(SeenUpto(g, v, n), InputAnchors(g, v, n))
    decreases v, 0, n
  {
    if n > 0 {
      assert WellBuiltAt(g, v);
      var u := g[v].inputs[n - 1];
      InputsSummarised(g, v, n - 1);
      EffectiveAnchorClosedForm(g, u);
      NoteSummarises(SeenUpto(g, v, n - 1), InputAnchors(g, v, n - 1), EffectiveAnchor(g, u), ConsultedAnchors(g, u));
      hide Summarises, IsStalest, Note, ConsultedAnchors;
      assert InputAnchors(g, v, n) == InputAnchors(g, v, n - 1) + ConsultedAnchors(g, u);
    }
  }

  lemma NoteSummarises(s: Seen, anchors: iset<Anchor>, a: Anchor, more: iset<Anchor>)
    requires Summarises(s, anchors) && IsStalest(a, more)
    ensures Summarises(Note(s, a), anchors + more)
  {
  }

  /** **The effective anchor is the stalest anchor consulted**: the least pinned epoch among the
      nodes reached through inheriting ones, the frontier if none is pinned but one reads it, and
      inherited when there is neither. */
  lemma EffectiveAnchorClosedForm(g: Graph, v: nat)
    requires WellBuilt(g) && v < |g|
    ensures IsStalest(EffectiveAnchor(g, v), ConsultedAnchors(g, v))
    decreases v, 1
  {
    ReachesSelf(g, InheritingNode(), v);
    assert g[v].anchor in ConsultedAnchors(g, v);
    if g[v].anchor != Inherited {
      forall a | a in ConsultedAnchors(g, v) ensures a == g[v].anchor {
        var k: nat :| k < |g| && Consulted(g, v, k) && g[k].anchor == a;
        ReachesCases(g, InheritingNode(), v, k);
      }
    } else {
      var n := |g[v].inputs|;
      InputsSummarised(g, v, n);
      InheritingReadsInputs(g, v);
    }
  }

  lemma InheritingReadsInputs(g: Graph, v: nat)
    requires WellBuilt(g) && v < |g| && g[v].anchor == Inherited
    ensures ConsultedAnchors(g, v) == InputAnchors(g, v, |g[v].inputs|) + iset{Inherited}
  {
    var n := |g[v].inputs|;
    ReachesSelf(g, InheritingNode(), v);
    forall a | a in ConsultedAnchors(g, v) ensures a in InputAnchors(g, v, n) + iset{Inherited} {
      var k: nat :| k < |g| && Consulted(g, v, k) && g[k].anchor == a;
      ReachesCases(g, InheritingNode(), v, k);
      if k != v {
        var u :| u in g[v].inputs && Reaches(g, InheritingNode(), u, k);
        var i :| 0 <= i < n && g[v].inputs[i] == u;
        assert a in ConsultedAnchors(g, g[v].inputs[i]);
      }
    }
    forall a | a in InputAnchors(g, v, n) ensures a in ConsultedAnchors(g, v) {
      var i: nat :| i < n && a in ConsultedAnchors(g, g[v].inputs[i]);
      var k: nat :| k < |g| && Consulted(g, g[v].inputs[i], k) && g[k].anchor == a;
      ReachesThroughInput(g, InheritingNode(), v, g[v].inputs[i], k);
    }
  }

  /** `k` is reached from `v` along inputs, leaving only nodes that are neither a source nor pinned. */
  ghost predicate ReadsThrough(g: Graph, v: nat, k: nat) {
    exists p: seq<nat> ::
      && |p| > 0 && p[0] == v && p[|p| - 1] == k
      && forall i :: 0 <= i < |p| - 1 ==>
           && p[i] < |g| && p[i + 1] in g[p[i]].inputs
           && !g[p[i]].op.kind.Source? && !PinsEpoch(g[p[i]].op.kind)
  }

  ghost predicate PinsEpoch(kind: OpKind) {
    kind.AsOf? && kind.epoch.Some?
  }

  /** An as-of node of epoch `e` is reached. */
  ghost predicate ReachesPin(g: Graph, v: nat, e: u64) {
    exists k: nat :: k < |g| && ReadsThrough(g, v, k) && g[k].op.kind == AsOf(Some(e))
  }

  ghost predicate ReachesSource(g: Graph, v: nat) {
    exists k: nat :: k < |g| && ReadsThrough(g, v, k) && g[k].op.kind == Source
  }

  lemma ReadsThroughIsConsulted(g: Graph, v: nat, k: nat)
    requires WellBuilt(g)
    ensures ReadsThrough(g, v, k) <==> Consulted(g, v, k)
  {
    forall i: nat | i < |g|
      ensures g[i].anchor == Inherited <==> !g[i].op.kind.Source? && !PinsEpoch(g[i].op.kind)
    {
      assert WellBuiltAt(g, i);
    }
    if ReadsThrough(g, v, k) {
      var p: seq<nat> :|
        && |p| > 0 && p[0] == v && p[|p| - 1] == k
        && forall i :: 0 <= i < |p| - 1 ==>
             && p[i] < |g| && p[i + 1] in g[p[i]].inputs
             && !g[p[i]].op.kind.Source? && !PinsEpoch(g[p[i]].op.kind);
      assert IsPath(g, InheritingNode(), v, k, p);
    }
  }

  /** **An effective anchor, read off the operators**: pinned to the least epoch of the as-of nodes
      reached through nodes that set no anchor, at the frontier when only sources are reached, and
      inherited when neither is. */
  lemma EffectiveAnchorByOperators(g: Graph, v: nat)
    requires WellBuilt(g) && v < |g|
    ensures match EffectiveAnchor(g, v)
            case Pinned(e) => ReachesPin(g, v, e) && forall f: u64 :: ReachesPin(g, v, f) ==> e <= f
            case Frontier => ReachesSource(g, v) && forall f: u64 :: !ReachesPin(g, v, f)
            case Inherited => !ReachesSource(g, v) && forall f: u64 :: !ReachesPin(g, v, f)
  {
    EffectiveAnchorClosedForm(g, v);
    PinsAreConsulted(g, v);
    SourcesAreConsulted(g, v);
    hide WellBuilt, ReachesPin, ReachesSource, ConsultedAnchors, EffectiveAnchor;
  }

  lemma PinsAreConsulted(g: Graph, v: nat)
    requires WellBuilt(g) && v < |g|
    ensures forall e: u64 :: ReachesPin(g, v, e) <==> Pinned(e) in ConsultedAnchors(g, v)
  {
    hide ReadsThrough, Consulted;
    forall k: nat ensures ReadsThrough(g, v, k) <==> Consulted(g, v, k) {
      ReadsThroughIsConsulted(g, v, k);
    }
    forall k: nat, e: u64 | k < |g| ensures g[k].anchor == Pinned(e) <==> g[k].op.kind == AsOf(Some(e)) {
      assert WellBuiltAt(g, k);
    }
  }

  lemma SourcesAreConsulted(g: Graph, v: nat)
    requires WellBuilt(g) && v < |g|
    ensures ReachesSource(g, v) <==> Frontier in ConsultedAnchors(g, v)
  {
    hide ReadsThrough, Consulted;
    forall k: nat ensures ReadsThrough(g, v, k) <==> Consulted(g, v, k) {
      ReadsThroughIsConsulted(g, v, k);
    }
    forall k: nat | k < |g| ensures g[k].anchor == Frontier <==> g[k].op.kind == Source {
      assert WellBuiltAt(g, k);
    }
  }

  // ---------- Conservation transparency ----------

  /** **Transparency is a path property**: a node is transparent exactly when it and every node
      that feeds it, directly or not, is transparent as an operator. */
  lemma TransparencyClosedForm(g: Graph, v: nat)
    requires WellBuilt(g) && v < |g|
    ensures g[v].transparent <==> forall k :: 0 <= k < |g| && Ancestor(g, v, k) ==> g[k].op.conserving
    decreases v
  {
    assert WellBuiltAt(g, v);
    ReachesSelf(g, AnyNode(), v);
    forall i | 0 <= i < |g[v].inputs|
      ensures var u := g[v].inputs[i];
              g[u].transparent <==> forall k :: 0 <= k < |g| && Ancestor(g, u, k) ==> g[k].op.conserving
    {
      TransparencyClosedForm(g, g[v].inputs[i]);
    }
    if g[v].transparent {
      forall k | 0 <= k < |g| && Ancestor(g, v, k) ensures g[k].op.conserving {
        ReachesCases(g, AnyNode(), v, k);
      }
    } else if g[v].op.conserving {
      var i :| 0 <= i < |g[v].inputs| && !g[g[v].inputs[i]].transparent;
      var u := g[v].inputs[i];
      var k :| 0 <= k < |g| && Ancestor(g, u, k) && !g[k].op.conserving;
      ReachesThroughInput(g, AnyNode(), v, u, k);
    }
  }

  // ---------- Growth ----------

  lemma PathInPrefix(g: Graph, h: Graph, through: Shape -> bool, v: nat, k: nat, p: seq<nat>)
    requires g <= h && WellBuilt(g) && v < |g|
    requires IsPath(h, through, v, k, p)
    ensures IsPath(g, through, v, k, p) && k < |g|
    decreases |p|
  {
    if |p| > 1 {
      assert WellBuiltAt(g, v);
      assert IsPath(h, through, p[1], k, p[1..]);
      PathInPrefix(g, h, through, p[1], k, p[1..]);
      assert forall i :: 0 < i < |p| ==> p[i] == p[1..][i - 1];
    }
  }

  /** Nothing a later `add` does changes what an earlier node reaches. */
  lemma ReachesStable(g: Graph, h: Graph, through: Shape -> bool, v: nat, k: nat)
    requires g <= h && WellBuilt(g) && v < |g|
    ensures Reaches(g, through, v, k) <==> Reaches(h, through, v, k)
  {
    if Reaches(g, through, v, k) {
      var p :| IsPath(g, through, v, k, p);
      assert IsPath(h, through, v, k, p);
    }
    if Reaches(h, through, v, k) {
      var p :| IsPath(h, through, v, k, p);
      PathInPrefix(g, h, through, v, k, p);
    }
  }

  lemma SeenStable(g: Graph, h: Graph, v: nat, n: nat)
    requires g <= h && WellBuilt(g) && WellBuilt(h) && v < |g| && n <= |g[v].inputs|
    ensures SeenUpto(g, v, n) == SeenUpto(h, v, n)
    decreases v, 0, n
  {
    if n > 0 {
      assert WellBuiltAt(g, v);
      SeenStable(g, h, v, n - 1);
      GrowthKeepsNode(g, h, g[v].inputs[n - 1]);
    }
  }

  /** **Later `add`s change no per-node result**: a node keeps its effective anchor, its
      transparency, what it consults and what feeds it as the circuit grows. */
  lemma GrowthKeepsNode(g: Graph, h: Graph, v: nat)
    requires g <= h && WellBuilt(g) && WellBuilt(h) && v < |g|
    ensures EffectiveAnchor(g, v) == EffectiveAnchor(h, v)
    ensures g[v].transparent == h[v].transparent
    ensures forall k :: Ancestor(g, v, k) <==> Ancestor(h, v, k)
    ensures forall k :: Consulted(g, v, k) <==> Consulted(h, v, k)
    decreases v, 1
  {
    if g[v].anchor == Inherited {
      SeenStable(g, h, v, |g[v].inputs|);
    }
    forall k: nat ensures Ancestor(g, v, k) <==> Ancestor(h, v, k) {
      ReachesStable(g, h, AnyNode(), v, k);
    }
    forall k: nat ensures Consulted(g, v, k) <==> Consulted(h, v, k) {
      ReachesStable(g, h, InheritingNode(), v, k);
    }
  }

  // ---------- Dependency order ----------

  /** The inputs that order a node. A delay breaks every cycle it is on, so it has none. */
  function Preds(g: Graph, v: nat): seq<nat>
    requires v < |g|
  {
    if g[v].op.kind == Delay then [] else g[v].inputs
  }

  /** Every node once, each after everything it must follow. */
  ghost predicate IsTopological(g: Graph, order: seq<nat>) {
    && |order| == |g|
    && (forall i :: 0 <= i < |order| ==> order[i] < |g|)
    && Distinct(order)
    && forall i :: 0 <= i < |order| ==> Follows(g, order, i)
  }

  ghost predicate Follows(g: Graph, order: seq<nat>, i: nat)
    requires i < |order| && order[i] < |g|
  {
    forall j :: 0 <= j < |Preds(g, order[i])| ==> Preds(g, order[i])[j] in order[..i]
  }

  /** Each node of `c` is ordered after the next one, and the last after the first. */
  ghost predicate IsCycle(g: Graph, c: seq<nat>) {
    && |c| > 0
    && (forall i :: 0 <= i < |c| ==> c[i] < |g|)
    && (forall i :: 0 <= i < |c| - 1 ==> c[i + 1] in Preds(g, c[i]))
    && c[0] in Preds(g, c[|c| - 1])
  }

  ghost predicate Acyclic(g: Graph) {
    forall c :: !IsCycle(g, c)
  }

  ghost predicate InputsInRange(g: Graph) {
    forall v, j :: 0 <= v < |g| && 0 <= j < |Preds(g, v)| ==> Preds(g, v)[j] < |g|
  }

  /** A nonempty set of nodes, none of which can ever be released. */
  ghost predicate IsStuck(g: Graph, stuck: set<nat>) {
    stuck != {} && forall v :: v in stuck ==> v < |g| && WaitsOn(g, v, stuck)
  }

  ghost predicate WaitsOn(g: Graph, v: nat, stuck: set<nat>)
    requires v < |g|
  {
    exists j :: 0 <= j < |Preds(g, v)| && Preds(g, v)[j] in stuck
  }

  lemma NextStuck(g: Graph, stuck: set<nat>, v: nat) returns (u: nat)
    requires v < |g| && WaitsOn(g, v, stuck)
    ensures u in Preds(g, v) && u in stuck
  {
    var j :| 0 <= j < |Preds(g, v)| && Preds(g, v)[j] in stuck;
    u := Preds(g, v)[j];
  }

  lemma {:induction false} Walk(g: Graph, stuck: set<nat>, n: nat) returns (w: seq<nat>)
    requires IsStuck(g, stuck)
    ensures |w| == n + 1
    ensures forall i :: 0 <= i < |w| ==> w[i] in stuck
    ensures forall i :: 0 <= i < n ==> w[i] < |g| && w[i + 1] in Preds(g, w[i])
  {
    hide WaitsOn, Preds;
    if n == 0 {
      var v :| v in stuck;
      w := [v];
    } else {
      w := Walk(g, stuck, n - 1);
      var u := NextStuck(g, stuck, w[n - 1]);
      w := w + [u];
    }
  }

  /** A stuck set contains a cycle. */
  lemma StuckHasCycle(g: Graph, stuck: set<nat>) returns (c: seq<nat>)
    requires IsStuck(g, stuck)
    ensures IsCycle(g, c)
  {
    hide WaitsOn, Preds;
    var w := Walk(g, stuck, |stuck|);
    var i, j := Pigeonhole(w, stuck);
    c := w[i..j];
    assert c[|c| - 1] == w[j - 1] && w[j] in Preds(g, w[j - 1]);
    forall k | 0 <= k < |c| - 1 ensures c[k + 1] in Preds(g, c[k]) {
      assert c[k] == w[i + k] && c[k + 1] == w[i + k + 1];
    }
  }

  ghost function IndexIn(order: seq<nat>, v: nat): (i: nat)
    requires v in order
    ensures i < |order| && order[i] == v
  {
    var i :| 0 <= i < |order| && order[i] == v;
    i
  }

  /** Positions strictly fall along a cycle, so an ordered graph has none. */
  lemma {:induction false} PositionsFall(g: Graph, order: seq<nat>, c: seq<nat>, i: nat)
    requires IsTopological(g, order) && IsCycle(g, c) && i < |c|
    requires forall v: nat :: v < |g| ==> v in order
    ensures IndexIn(order, c[i]) + i <= IndexIn(order, c[0])
  {
    if i > 0 {
      PositionsFall(g, order, c, i - 1);
      PositionFalls(g, order, c[i - 1], c[i]);
    }
  }

  lemma PositionFalls(g: Graph, order: seq<nat>, v: nat, u: nat)
    requires IsTopological(g, order) && v < |g| && u < |g| && u in Preds(g, v)
    requires forall v: nat :: v < |g| ==> v in order
    ensures IndexIn(order, u) < IndexIn(order, v)
  {
    var k := IndexIn(order, v);
    assert Follows(g, order, k);
    var j :| 0 <= j < |Preds(g, v)| && Preds(g, v)[j] == u;
    var i :| 0 <= i < |order[..k]| && order[..k][i] == u;
  }

  lemma TopologicalCoversAll(g: Graph, order: seq<nat>)
    requires IsTopological(g, order)
    ensures forall v: nat :: v < |g| ==> v in order
  {
    DistinctCardinality(order);
    BelowCardinality(|g|);
    assert Elements(order) <= Below(|g|);
    SubsetCardinality(Elements(order), Below(|g|));
    forall v: nat | v < |g| ensures v in order {
      assert v in Below(|g|);
    }
  }

  lemma TopologicalMeansAcyclic(g: Graph, order: seq<nat>)
    requires IsTopological(g, order)
    ensures Acyclic(g) && InputsInRange(g)
  {
    TopologicalCoversAll(g, order);
    forall v, j | 0 <= v < |g| && 0 <= j < |Preds(g, v)| ensures Preds(g, v)[j] < |g| {
      var k := IndexIn(order, v);
      assert Follows(g, order, k) && Preds(g, order[k])[j] in order[..k];
      var i :| 0 <= i < |order[..k]| && order[..k][i] == Preds(g, v)[j];
    }
    forall c ensures !IsCycle(g, c) {
      if IsCycle(g, c) {
        PositionsFall(g, order, c, |c| - 1);
        PositionFalls(g, order, c[|c| - 1], c[0]);
      }
    }
  }

  // ---------- The order over undelayed edges ----------

  /** Node `v` reads `u`, and not through a delay. */
  ghost predicate Undelayed(g: Graph, v: nat, u: nat) {
    v < |g| && !g[v].op.kind.Delay? && u in g[v].inputs
  }

  ghost predicate UndelayedCycle(g: Graph, c: seq<nat>) {
    && |c| > 0 && (forall i :: 0 <= i < |c| ==> c[i] < |g|)
    && (forall i :: 0 <= i < |c| - 1 ==> Undelayed(g, c[i], c[i + 1]))
    && Undelayed(g, c[|c| - 1], c[0])
  }

  /** Every node once, each after all it reads without delay. */
  ghost predicate OrdersUndelayed(g: Graph, order: seq<nat>) {
    && |order| == |g| && (forall i :: 0 <= i < |order| ==> order[i] < |g|) && Distinct(order)
    && forall i, u :: 0 <= i < |order| && Undelayed(g, order[i], u) ==> u in order[..i]
  }

  /** What the sort orders by is exactly the undelayed edges. */
  lemma OrderIsOverUndelayedEdges(g: Graph, order: seq<nat>)
    ensures IsTopological(g, order) <==> OrdersUndelayed(g, order)
  {
    if IsTopological(g, order) {
      forall i, u | 0 <= i < |order| && Undelayed(g, order[i], u) ensures u in order[..i] {
        assert Follows(g, order, i);
        var j :| 0 <= j < |g[order[i]].inputs| && g[order[i]].inputs[j] == u;
        assert Preds(g, order[i])[j] == u;
      }
    }
    if OrdersUndelayed(g, order) {
      forall i | 0 <= i < |order| ensures Follows(g, order, i) {
        forall j | 0 <= j < |Preds(g, order[i])| ensures Preds(g, order[i])[j] in order[..i] {
          assert Undelayed(g, order[i], Preds(g, order[i])[j]);
        }
      }
    }
  }

  lemma CyclesAreUndelayed(g: Graph, c: seq<nat>)
    ensures IsCycle(g, c) <==> UndelayedCycle(g, c)
  {
    forall v: nat, u: nat | v < |g| ensures u in Preds(g, v) <==> Undelayed(g, v, u) {
    }
    hide Preds, Undelayed;
  }

  /** No undelayed edge closes a circle, and none leaves the graph. */
  ghost predicate Orderable(g: Graph) {
    && (forall c :: !UndelayedCycle(g, c))
    && (forall v: nat, u: nat :: Undelayed(g, v, u) ==> u < |g|)
  }

  lemma OrderableExactly(g: Graph)
    ensures Acyclic(g) && InputsInRange(g) <==> Orderable(g)
  {
    hide IsCycle, UndelayedCycle;
    forall c ensures IsCycle(g, c) <==> UndelayedCycle(g, c) {
      CyclesAreUndelayed(g, c);
    }
    if InputsInRange(g) {
      forall v: nat, u: nat | Undelayed(g, v, u) ensures u < |g| {
        var j: nat :| j < |g[v].inputs| && g[v].inputs[j] == u;
        assert Preds(g, v)[j] == u;
      }
    }
    if forall v: nat, u: nat :: Undelayed(g, v, u) ==> u < |g| {
      forall v: nat, j: nat | v < |g| && j < |Preds(g, v)| ensures Preds(g, v)[j] < |g| {
        assert Undelayed(g, v, Preds(g, v)[j]);
      }
    }
  }

  /** Every circuit built by `add` is acyclic, in node order. */
  lemma WellBuiltIsTopological(g: Graph)
    requires WellBuilt(g)
    ensures IsTopological(g, seq(|g|, i => i))
    ensures Acyclic(g)
  {
    var order: seq<nat> := seq(|g|, i => i);
    forall i | 0 <= i < |order| ensures Follows(g, order, i) {
      assert WellBuiltAt(g, i);
      forall j | 0 <= j < |Preds(g, i)| ensures Preds(g, i)[j] in order[..i] {
        assert order[..i][Preds(g, i)[j]] == Preds(g, i)[j];
      }
    }
    TopologicalMeansAcyclic(g, order);
  }
}
