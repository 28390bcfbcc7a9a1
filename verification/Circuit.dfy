/** The circuit itself: nodes with access-checked fields, and the graph algorithms over them. */
module Circuit {
  import opened Prelude
  import opened CircuitSpec

  datatype Consistency = Bounded(epochs: u64, millis: u64) | Monotonic | ReadYourWrites
    | Snapshot | Serializable | LedgerConsistent
  datatype Materialize = Absent | Demand | Full | Spilled | Tiered | Auto
  datatype Retention = Evictable | PinnedState | Forever
  datatype Lineage = Off | Key | FullLineage
  datatype ServeContract = ServeContract(
    consistency: Consistency, materialize: Materialize, retain: Retention, lineage: Lineage)

  /** A semantic field the consumer must read; `Get` records that it was. */
  class Checked<T> {
    const value: T
    const name: string
    var accessed: bool

    constructor (name: string, value: T)
      ensures this.name == name && this.value == value && !accessed
    {
      this.name, this.value, accessed := name, value, false;
    }

    method Get() returns (v: T)
      modifies this
      ensures v == value && accessed
    {
      accessed := true;
      v := value;
    }

    /** Read without recording. */
    function Peek(): T {
      value
    }

    method Reset()
      modifies this
      ensures !accessed
    {
      accessed := false;
    }
  }

  datatype Node = Node(
    id: nat,
    op: Op,
    inputs: seq<nat>,
    anchor: Checked<Anchor>,
    contract: Checked<ServeContract>,
    transparent: Checked<bool>,
    lineage: Checked<Lineage>)

  datatype AccessReport = AccessReport(totalFields: nat, unread: seq<(nat, string)>)

  ghost function ShapeOf(n: Node): Shape {
    Shape(n.op, n.inputs, n.anchor.value, n.transparent.value)
  }

  ghost function GraphOf(nodes: seq<Node>): (g: Graph)
    ensures |g| == |nodes|
    ensures forall v :: 0 <= v < |g| ==> g[v] == ShapeOf(nodes[v])
  {
    seq(|nodes|, v requires 0 <= v < |nodes| => ShapeOf(nodes[v]))
  }

  /** How many of the inputs that order `v` are still to be placed. */
  ghost function Waiting(g: Graph, v: nat, placed: set<nat>, n: nat): nat
    requires v < |g| && n <= |Preds(g, v)|
  {
    if n == 0 then 0
    else Waiting(g, v, placed, n - 1) + if Preds(g, v)[n - 1] in placed then 0 else 1
  }

  ghost function InDegree(g: Graph, v: nat, placed: set<nat>): nat
    requires v < |g|
  {
    Waiting(g, v, placed, |Preds(g, v)|)
  }

  /** How often `id` occurs among the first `n` inputs of `v`. */
  function Occurrences(inputs: seq<nat>, id: nat, n: nat): nat
    requires n <= |inputs|
  {
    if n == 0 then 0 else Occurrences(inputs, id, n - 1) + if inputs[n - 1] == id then 1 else 0
  }

  /** Placing `id` releases each of its occurrences. */
  lemma {:induction false} PlacingReleases(g: Graph, v: nat, placed: set<nat>, id: nat, n: nat)
    requires v < |g| && n <= |Preds(g, v)| && id !in placed
    ensures Waiting(g, v, placed + {id}, n) + Occurrences(Preds(g, v), id, n) == Waiting(g, v, placed, n)
  {
    if n > 0 {
      PlacingReleases(g, v, placed, id, n - 1);
    }
  }

  lemma {:induction false} NoneWaiting(g: Graph, v: nat, placed: set<nat>, n: nat)
    requires v < |g| && n <= |Preds(g, v)|
    ensures Waiting(g, v, placed, n) == 0 <==> forall j :: 0 <= j < n ==> Preds(g, v)[j] in placed
  {
    if n > 0 {
      NoneWaiting(g, v, placed, n - 1);
    }
  }

  lemma {:induction false} NeverOccurs(inputs: seq<nat>, id: nat, n: nat)
    requires n <= |inputs| && Occurrences(inputs, id, n) == 0
    ensures forall j :: 0 <= j < n ==> inputs[j] != id
  {
    if n > 0 {
      NeverOccurs(inputs, id, n - 1);
    }
  }

  lemma {:induction false} AllWaiting(g: Graph, v: nat, n: nat)
    requires v < |g| && n <= |Preds(g, v)|
    ensures Waiting(g, v, {}, n) == n
  {
    if n > 0 {
      AllWaiting(g, v, n - 1);
    }
  }

  /** The in-degrees count what is still to be placed, and every node that waits for nothing has
      been placed or is ready. */
  ghost predicate Released(g: Graph, indegree: map<nat, nat>, ready: seq<nat>, placed: set<nat>) {
    && (forall v: nat :: v in indegree <==> v < |g|)
    && (forall v :: 0 <= v < |g| ==> indegree[v] == InDegree(g, v, placed))
    && (forall v :: 0 <= v < |g| && indegree[v] == 0 ==> v in placed || v in ready)
    && (forall v :: v in ready ==> v < |g| && indegree[v] == 0)
  }

  /** The same, while the first `k` nodes have been told that `id` is placed. */
  ghost predicate Bookkept(
    g: Graph, indegree: map<nat, nat>, ready: seq<nat>, placed: set<nat>, id: nat, k: nat)
  {
    && (forall v: nat :: v in indegree <==> v < |g|)
    && (forall v :: 0 <= v < |g| ==> indegree[v] == InDegree(g, v, if v < k then placed + {id} else placed))
    && (forall v :: 0 <= v < |g| && indegree[v] == 0 ==> v in placed + {id} || v in ready)
    && (forall v :: v in ready ==> v < |g| && indegree[v] == 0)
  }

  /** What placing `id` does to the in-degree of `k`; a delay waits for nothing before or after. */
  lemma Releasing(g: Graph, k: nat, placed: set<nat>, id: nat)
    requires k < |g| && id !in placed
    ensures var times := Occurrences(g[k].inputs, id, |g[k].inputs|);
            var before := InDegree(g, k, placed);
            InDegree(g, k, placed + {id}) == if before >= times then before - times else 0
  {
    PlacingReleases(g, k, placed, id, |Preds(g, k)|);
  }

  /** Telling node `k` that `id` is placed: its in-degree falls by the occurrences of `id`, and it
      is made ready if it then waits for nothing. */
  lemma BookkeepOne(
    g: Graph, indegree: map<nat, nat>, ready: seq<nat>, placed: set<nat>, id: nat, k: nat)
    requires k < |g| && id !in placed
    requires Bookkept(g, indegree, ready, placed, id, k)
    ensures k in indegree
    ensures var times := Occurrences(g[k].inputs, id, |g[k].inputs|);
            var left := if indegree[k] >= times then indegree[k] - times else 0;
            Bookkept(g, if times > 0 then indegree[k := left] else indegree,
                     if times > 0 && left == 0 then ready + [k] else ready, placed, id, k + 1)
  {
    hide InDegree, Occurrences;
    Releasing(g, k, placed, id);
  }

  lemma AllTold(g: Graph, indegree: map<nat, nat>, ready: seq<nat>, placed: set<nat>, id: nat)
    requires Bookkept(g, indegree, ready, placed, id, |g|)
    ensures Released(g, indegree, ready, placed + {id})
  {
    hide InDegree;
  }

  lemma WaitsForSome(g: Graph, v: nat, placed: set<nat>)
    requires v < |g|
    ensures InDegree(g, v, placed) == 0 <==> forall j :: 0 <= j < |Preds(g, v)| ==> Preds(g, v)[j] in placed
  {
    NoneWaiting(g, v, placed, |Preds(g, v)|);
  }

  /** What is out so far: distinct nodes, each after everything it follows. */
  ghost predicate Placed(g: Graph, out: seq<nat>, seen: set<nat>) {
    && seen == Elements(out) && Distinct(out)
    && (forall i :: 0 <= i < |out| ==> out[i] < |g|)
    && forall i :: 0 <= i < |out| ==> Follows(g, out, i)
  }

  /** A node that waits for nothing can go out next. */
  lemma PlaceOne(g: Graph, out: seq<nat>, seen: set<nat>, id: nat)
    requires Placed(g, out, seen) && id < |g| && id !in seen && InDegree(g, id, seen) == 0
    ensures Placed(g, out + [id], seen + {id}) && |out| < |g|
  {
    var after := out + [id];
    hide InDegree, Preds;
    WaitsForSome(g, id, seen);
    assert Elements(after) == seen + {id};
    forall i | 0 <= i < |after| ensures Follows(g, after, i) {
      assert after[..i] == out[..i];
      assert i < |out| ==> Follows(g, out, i);
    }
    DistinctCardinality(after);
    BelowCardinality(|g|);
    SubsetCardinality(Elements(after), Below(|g|));
  }

  /** Popping a node that is out, or is about to be, keeps the bookkeeping. */
  lemma PopReady(g: Graph, indegree: map<nat, nat>, ready: seq<nat>, seen: set<nat>, id: nat)
    requires Released(g, indegree, ready + [id], seen)
    ensures id < |g| && InDegree(g, id, seen) == 0
    ensures id in seen ==> Released(g, indegree, ready, seen)
    ensures id !in seen ==> Bookkept(g, indegree, ready, seen, id, 0)
  {
    assert id in ready + [id];
    assert forall v :: v in ready + [id] <==> v in ready || v == id;
  }

  /** When nothing is ready, everything is out, or what is left cannot be ordered. */
  lemma Finished(g: Graph, indegree: map<nat, nat>, out: seq<nat>, seen: set<nat>)
    requires Released(g, indegree, [], seen) && Placed(g, out, seen)
    ensures |out| == |g| ==> IsTopological(g, out)
    ensures |out| == |g| <==> Acyclic(g) && InputsInRange(g)
  {
    hide IsCycle, Follows, InDegree;
    if |out| == |g| {
      TopologicalMeansAcyclic(g, out);
    } else if InputsInRange(g) {
      DistinctCardinality(out);
      BelowCardinality(|g|);
      SubsetCardinality(seen, Below(|g|));
      var left := Below(|g|) - seen;
      forall v | v in left
        ensures v < |g| && WaitsOn(g, v, left)
      {
        WaitsForSome(g, v, seen);
        var j :| 0 <= j < |Preds(g, v)| && Preds(g, v)[j] !in seen;
        assert Preds(g, v)[j] in left;
      }
      var c := StuckHasCycle(g, left);
    }
  }

  class Circuit {
    var nodes: seq<Node>
    var outputs: map<string, nat>

    ghost function Graph(): Graph
      reads this
    {
      GraphOf(nodes)
    }

    /** Each node's id is its position, and no two nodes share a checked field. */
    ghost predicate Indexed()
      reads this
    {
      && (forall v :: 0 <= v < |nodes| ==> nodes[v].id == v)
      && (forall v, w :: 0 <= v < w < |nodes| ==> nodes[v].anchor != nodes[w].anchor)
    }

    /** What `Add` keeps: an indexed circuit whose nodes read only earlier ones. */
    ghost predicate Valid()
      reads this
    {
      Indexed() && WellBuilt(Graph())
    }

    constructor ()
      ensures Valid() && nodes == [] && outputs == map[]
    {
      nodes, outputs := [], map[];
    }

    /** Add a node; its key, arity and label are not modelled. */
    method Add(op: Op, inputs: seq<nat>, contract: ServeContract) returns (id: nat)
      requires Valid()
      requires forall i :: 0 <= i < |inputs| ==> inputs[i] < |nodes|
      modifies this
      ensures Valid()
      ensures id == old(|nodes|) && |nodes| == id + 1 && nodes[..id] == old(nodes)
      ensures nodes[id].id == id && nodes[id].op == op && nodes[id].inputs == inputs
      ensures nodes[id].contract.value == contract && nodes[id].lineage.value == contract.lineage
      ensures op.kind.Source? ==> nodes[id].anchor.value == Frontier
      ensures op.kind.Delay? || op.kind.Other? || op.kind == AsOf(None) ==> nodes[id].anchor.value == Inherited
      ensures forall e: u64 :: op.kind == AsOf(Some(e)) ==> nodes[id].anchor.value == Pinned(e)
      ensures nodes[id].anchor.name == "anchor" && nodes[id].contract.name == "contract"
      ensures nodes[id].transparent.name == "conservation_transparent" && nodes[id].lineage.name == "lineage"
      ensures !nodes[id].anchor.accessed && !nodes[id].contract.accessed
      ensures !nodes[id].transparent.accessed && !nodes[id].lineage.accessed
      ensures fresh(nodes[id].anchor) && fresh(nodes[id].contract)
      ensures fresh(nodes[id].transparent) && fresh(nodes[id].lineage)
      ensures outputs == old(outputs)
      ensures old(Graph()) <= Graph()
    {
      id := |nodes|;
      var transparent := op.conserving;
      for i := 0 to |inputs|
        invariant transparent <==>
          op.conserving && forall j :: 0 <= j < i ==> nodes[inputs[j]].transparent.value
      {
        transparent := transparent && nodes[inputs[i]].transparent.Peek();
      }
      var anchorField := new Checked<Anchor>("anchor", AnchorOf(op));
      var contractField := new Checked<ServeContract>("contract", contract);
      var transparentField := new Checked<bool>("conservation_transparent", transparent);
      var lineageField := new Checked<Lineage>("lineage", contract.lineage);
      ghost var before := Graph();
      nodes := nodes + [Node(id, op, inputs, anchorField, contractField, transparentField, lineageField)];
      assert before <= Graph();
      forall v | 0 <= v < |nodes| ensures WellBuiltAt(Graph(), v) {
        assert v < id ==> WellBuiltAt(before, v);
      }
    }

    method SetOutput(name: string, id: nat)
      modifies this
      ensures outputs == old(outputs)[name := id] && nodes == old(nodes)
    {
      outputs := outputs[name := id];
    }

    // ---------- Dependency order ----------

    /** Count the inputs that order each node; a delay has none. */
    method CountInputs() returns (indegree: map<nat, nat>)
      requires Indexed()
      ensures forall v: nat :: v in indegree <==> v < |nodes|
      ensures forall v :: 0 <= v < |nodes| ==> indegree[v] == InDegree(Graph(), v, {})
    {
      indegree := map[];
      for k := 0 to |nodes|
        invariant forall v: nat :: v in indegree <==> v < k
        invariant forall v :: 0 <= v < k ==> indegree[v] == InDegree(Graph(), v, {})
      {
        var n := nodes[k];
        indegree := indegree[n.id := 0];
        for i := 0 to |n.inputs|
          invariant forall v: nat :: v in indegree <==> v <= k
          invariant forall v :: 0 <= v < k ==> indegree[v] == InDegree(Graph(), v, {})
          invariant indegree[k] == if n.op.kind == Delay then 0 else i
        {
          if nodes[n.id].op.kind == Delay {
            continue;
          }
          indegree := indegree[n.id := indegree[n.id] + 1];
        }
        AllWaiting(Graph(), k, |Preds(Graph(), k)|);
      }
    }

    /** Release the nodes that wait only for `id`, once per occurrence of it. */
    method Release(indegree0: map<nat, nat>, ready0: seq<nat>, ghost placed: set<nat>, id: nat)
      returns (indegree: map<nat, nat>, ready: seq<nat>)
      requires Indexed() && id < |nodes| && id !in placed
      requires Bookkept(Graph(), indegree0, ready0, placed, id, 0)
      ensures Released(Graph(), indegree, ready, placed + {id})
    {
      indegree, ready := indegree0, ready0;
      ghost var g := Graph();
      hide Bookkept, Released, InDegree, Occurrences;
      for k := 0 to |nodes|
        invariant Bookkept(g, indegree, ready, placed, id, k)
      {
        var n := nodes[k];
        var times := Occurrences(n.inputs, id, |n.inputs|);
        BookkeepOne(g, indegree, ready, placed, id, k);
        if times > 0 {
          var left := if indegree[n.id] >= times then indegree[n.id] - times else 0;
          indegree := indegree[n.id := left];
          if left == 0 {
            ready := ready + [n.id];
          }
        }
      }
      AllTold(g, indegree, ready, placed, id);
    }

    /** The nodes that wait for nothing at the start, in ascending order. */
    method InitiallyReady(indegree: map<nat, nat>) returns (ready: seq<nat>)
      requires forall v: nat :: v in indegree <==> v < |nodes|
      ensures forall v: nat :: v in ready <==> v < |nodes| && indegree[v] == 0
    {
      ready := [];
      for v := 0 to |nodes|
        invariant forall w: nat :: w in ready <==> w < v && indegree[w] == 0
      {
        if indegree[v] == 0 {
          ready := ready + [v];
        }
      }
    }

    /** **A node order, exactly when there is one.** The answer lists every node once, each after
        all it reads; no answer means an input out of range or a cycle no delay breaks. */
    method TopologicalOrder() returns (r: Option<seq<nat>>)
      requires Indexed()
      ensures r.Some? ==> IsTopological(Graph(), r.value)
      ensures r.Some? <==> Acyclic(Graph()) && InputsInRange(Graph())
      ensures r.Some? <==> Orderable(Graph())
      ensures r.Some? ==> OrdersUndelayed(Graph(), r.value)
    {
      hide Orderable, OrdersUndelayed;
      OrderableExactly(Graph());
      ghost var g := Graph();
      var indegree: map<nat, nat> := CountInputs();
      var ready := InitiallyReady(indegree);
      var out: seq<nat> := [];
      var seen: set<nat> := {};
      while ready != []
        invariant Released(g, indegree, ready, seen) && Placed(g, out, seen)
        decreases |nodes| - |out|, |ready|
      {
        var id := ready[|ready| - 1];
        assert ready == ready[..|ready| - 1] + [id];
        ready := ready[..|ready| - 1];
        PopReady(g, indegree, ready, seen, id);
        if id in seen {
          continue;
        }
        PlaceOne(g, out, seen, id);
        out := out + [id];
        indegree, ready := Release(indegree, ready, seen, id);
        seen := seen + {id};
      }
      Finished(g, indegree, out, seen);
      OrderIsOverUndelayedEdges(g, out);
      r := if |out| == |nodes| then Some(out) else None;
    }

    // ---------- Anchors ----------

    /** **Resolve a node's anchor, and read exactly what decides it**: the anchor field of every
        node consulted is recorded as read, and of no other. */
    method ResolveAnchor(id: nat) returns (a: Anchor)
      requires Valid() && id < |nodes|
      modifies AnchorFields(nodes)
      ensures a == EffectiveAnchor(old(Graph()), id)
      ensures IsStalest(a, ConsultedAnchors(old(Graph()), id))
      ensures AnchorsRead(nodes) == old(AnchorsRead(nodes)) + ConsultedSet(old(Graph()), id)
    {
      EffectiveAnchorClosedForm(Graph(), id);
      a := ResolveAnchorIn(nodes, Graph(), id);
    }

    // ---------- Reachability ----------

    /** The ids of the named outputs, in some order. */
    method OutputIds() returns (ids: seq<nat>)
      ensures forall k :: k in ids <==> k in outputs.Values
    {
      ids := [];
      var names := outputs.Keys;
      while names != {}
        invariant names <= outputs.Keys
        invariant forall k :: k in ids ==> k in outputs.Values
        invariant forall name :: name in outputs && name !in names ==> outputs[name] in ids
      {
        var name :| name in names;
        ids := ids + [outputs[name]];
        names := names - {name};
      }
    }

    /** **The live nodes are exactly the ancestors of the outputs**, on any circuit, cyclic or not. */
    method LiveNodes() returns (live: set<nat>)
      ensures forall k: nat :: k in live <==> IsLive(Graph(), outputs.Values, k)
    {
      var stack := OutputIds();
      LiveIsClosed(Graph(), outputs.Values);
      live := Explore(nodes, Graph(), outputs.Values, LiveSet(Graph(), outputs.Values), stack);
      ExploredAll(Graph(), outputs.Values, live);
    }

    // ---------- The access audit ----------

    /** `name` is that of a field of node `v` that was never read. */
    ghost predicate IsUnread(v: nat, name: string)
      requires v < |nodes|
      reads this, nodes[v].anchor, nodes[v].contract, nodes[v].transparent, nodes[v].lineage
    {
      || (!nodes[v].anchor.accessed && name == nodes[v].anchor.name)
      || (!nodes[v].contract.accessed && name == nodes[v].contract.name)
      || (!nodes[v].transparent.accessed && name == nodes[v].transparent.name)
      || (!nodes[v].lineage.accessed && name == nodes[v].lineage.name)
    }

    ghost predicate AllRead(v: nat)
      requires v < |nodes|
      reads this, nodes[v].anchor, nodes[v].contract, nodes[v].transparent, nodes[v].lineage
    {
      nodes[v].anchor.accessed && nodes[v].contract.accessed
      && nodes[v].transparent.accessed && nodes[v].lineage.accessed
    }

    /** Every node's four fields are counted, and the report is clean exactly when all were read. */
    method AuditAccess() returns (r: AccessReport)
      ensures r.totalFields == 4 * |nodes|
      ensures r.unread == [] <==> forall v :: 0 <= v < |nodes| ==> AllRead(v)
      ensures forall x :: x in r.unread <==> exists v :: 0 <= v < |nodes| && x.0 == nodes[v].id && IsUnread(v, x.1)
    {
      hide IsUnread, AllRead;
      var unread: seq<(nat, string)> := [];
      var total := 0;
      for v := 0 to |nodes|
        invariant total == 4 * v
        invariant forall x :: x in unread <==> exists w :: 0 <= w < v && x.0 == nodes[w].id && IsUnread(w, x.1)
      {
        var mine := UnreadFields(v);
        total := total + 4;
        unread := unread + mine;
      }
      r := AccessReport(total, unread);
      forall v | 0 <= v < |nodes| && !AllRead(v) ensures unread != [] {
        var name := SomeUnread(v);
        assert (nodes[v].id, name) in unread;
      }
      if unread != [] {
        assert unread[0] in unread;
        ghost var v :| 0 <= v < |nodes| && unread[0].0 == nodes[v].id && IsUnread(v, unread[0].1);
        UnreadIsNotRead(v, unread[0].1);
      }
    }

    lemma SomeUnread(v: nat) returns (name: string)
      requires v < |nodes| && !AllRead(v)
      ensures IsUnread(v, name)
    {
      var n := nodes[v];
      name := if !n.anchor.accessed then n.anchor.name else if !n.contract.accessed then n.contract.name
        else if !n.transparent.accessed then n.transparent.name else n.lineage.name;
    }

    lemma UnreadIsNotRead(v: nat, name: string)
      requires v < |nodes| && IsUnread(v, name)
      ensures !AllRead(v)
    {
    }

    /** The unread ones among the four fields of a node. */
    method UnreadFields(v: nat) returns (mine: seq<(nat, string)>)
      requires v < |nodes|
      ensures forall x :: x in mine <==> x.0 == nodes[v].id && IsUnread(v, x.1)
    {
      var n := nodes[v];
      mine := [];
      if !n.anchor.accessed { mine := mine + [(n.id, n.anchor.name)]; }
      if !n.contract.accessed { mine := mine + [(n.id, n.contract.name)]; }
      if !n.transparent.accessed { mine := mine + [(n.id, n.transparent.name)]; }
      if !n.lineage.accessed { mine := mine + [(n.id, n.lineage.name)]; }
    }

    method ResetAccess()
      modifies set v | 0 <= v < |nodes| :: nodes[v].anchor
      modifies set v | 0 <= v < |nodes| :: nodes[v].contract
      modifies set v | 0 <= v < |nodes| :: nodes[v].transparent
      modifies set v | 0 <= v < |nodes| :: nodes[v].lineage
      ensures forall v :: 0 <= v < |nodes| ==>
        !nodes[v].anchor.accessed && !nodes[v].contract.accessed
        && !nodes[v].transparent.accessed && !nodes[v].lineage.accessed
    {
      for v := 0 to |nodes|
        invariant forall w :: 0 <= w < v ==>
          !nodes[w].anchor.accessed && !nodes[w].contract.accessed
          && !nodes[w].transparent.accessed && !nodes[w].lineage.accessed
      {
        nodes[v].anchor.Reset();
        nodes[v].contract.Reset();
        nodes[v].transparent.Reset();
        nodes[v].lineage.Reset();
      }
    }
  }

  /** The nodes consulted for `v`, as resolving it visits them. */
  ghost function ConsultedSet(g: Graph, v: nat): set<nat>
    requires WellBuilt(g) && v < |g|
    decreases v, 1
  {
    {v} + if g[v].anchor == Inherited then ConsultedVia(g, v, |g[v].inputs|) else {}
  }

  /** The nodes consulted through the first `n` inputs of `v`. */
  ghost function ConsultedVia(g: Graph, v: nat, n: nat): set<nat>
    requires WellBuilt(g) && v < |g| && n <= |g[v].inputs|
    decreases v, 0, n
  {
    if n == 0 then {}
    else
      assert WellBuiltAt(g, v);
      ConsultedVia(g, v, n - 1) + ConsultedSet(g, g[v].inputs[n - 1])
  }

  lemma ConsultedViaSome(g: Graph, v: nat, n: nat)
    requires WellBuilt(g) && v < |g| && n <= |g[v].inputs|
    ensures forall k :: k in ConsultedVia(g, v, n) <==>
      exists i :: 0 <= i < n && Consulted(g, g[v].inputs[i], k)
    decreases v, 0, n
  {
    if n > 0 {
      assert WellBuiltAt(g, v);
      ConsultedViaSome(g, v, n - 1);
      ConsultedSetIsConsulted(g, g[v].inputs[n - 1]);
    }
  }

  /** What resolving a node visits is what it reaches through inheriting nodes. */
  lemma ConsultedSetIsConsulted(g: Graph, v: nat)
    requires WellBuilt(g) && v < |g|
    ensures forall k :: k in ConsultedSet(g, v) <==> Consulted(g, v, k)
    decreases v, 1
  {
    var n := |g[v].inputs|;
    ReachesSelf(g, InheritingNode(), v);
    ConsultedViaSome(g, v, n);
    forall k: nat | Consulted(g, v, k) ensures k in ConsultedSet(g, v) {
      ReachesCases(g, InheritingNode(), v, k);
      if k != v {
        var u :| u in g[v].inputs && Reaches(g, InheritingNode(), u, k);
        var i :| 0 <= i < n && g[v].inputs[i] == u;
        assert Consulted(g, g[v].inputs[i], k);
      }
    }
    forall k: nat | k in ConsultedSet(g, v) && k != v ensures Consulted(g, v, k) {
      assert k in ConsultedVia(g, v, n);
      var i :| 0 <= i < n && Consulted(g, g[v].inputs[i], k);
      ReachesThroughInput(g, InheritingNode(), v, g[v].inputs[i], k);
    }
  }

  ghost function AnchorFields(nodes: seq<Node>): set<Checked<Anchor>> {
    set v | 0 <= v < |nodes| :: nodes[v].anchor
  }

  /** The nodes whose anchor has been read. */
  ghost function AnchorsRead(nodes: seq<Node>): set<nat>
    reads AnchorFields(nodes)
  {
    set v: nat | v < |nodes| && nodes[v].anchor.accessed
  }

  method ResolveAnchorIn(nodes: seq<Node>, ghost g: Graph, id: nat) returns (a: Anchor)
    requires g == GraphOf(nodes) && WellBuilt(g) && id < |nodes|
    requires forall v, w :: 0 <= v < w < |nodes| ==> nodes[v].anchor != nodes[w].anchor
    modifies AnchorFields(nodes)
    ensures a == EffectiveAnchor(g, id)
    ensures AnchorsRead(nodes) == old(AnchorsRead(nodes)) + ConsultedSet(g, id)
    decreases id, 1
  {
    var n := nodes[id];
    var own := n.anchor.Get();
    assert AnchorsRead(nodes) == old(AnchorsRead(nodes)) + {id};
    if own != Inherited {
      return own;
    }
    var seen := NoteInputs(nodes, g, id);
    a := Resolve(seen);
  }

  /** Fold the effective anchors of the inputs, recording what that reads. */
  method NoteInputs(nodes: seq<Node>, ghost g: Graph, id: nat) returns (seen: Seen)
    requires g == GraphOf(nodes) && WellBuilt(g) && id < |nodes|
    requires forall v, w :: 0 <= v < w < |nodes| ==> nodes[v].anchor != nodes[w].anchor
    modifies AnchorFields(nodes)
    ensures seen == SeenUpto(g, id, |g[id].inputs|)
    ensures AnchorsRead(nodes) == old(AnchorsRead(nodes)) + ConsultedVia(g, id, |g[id].inputs|)
    decreases id, 0
  {
    hide ConsultedSet, EffectiveAnchor, Note, AnchorsRead;
    var inputs := nodes[id].inputs;
    ghost var before := AnchorsRead(nodes);
    seen := Seen(None, false);
    for i := 0 to |inputs|
      invariant seen == SeenUpto(g, id, i)
      invariant AnchorsRead(nodes) == before + ConsultedVia(g, id, i)
    {
      assert inputs[i] < id by {
        assert WellBuiltAt(g, id);
      }
      ghost var via, more := ConsultedVia(g, id, i), ConsultedSet(g, inputs[i]);
      var e := ResolveAnchorIn(nodes, g, inputs[i]);
      seen := Note(seen, e);
      assert AnchorsRead(nodes) == before + via + more;
      assert ConsultedVia(g, id, i + 1) == via + more;
    }
  }

  /** `k` is one of the roots or feeds one, directly or not. */
  ghost predicate IsLive(g: Graph, roots: set<nat>, k: nat) {
    exists o :: o in roots && Ancestor(g, o, k)
  }

  ghost function AllInputs(g: Graph): set<nat> {
    if g == [] then {} else AllInputs(g[..|g| - 1]) + Elements(g[|g| - 1].inputs)
  }

  lemma {:induction false} AllInputsHas(g: Graph, v: nat)
    requires v < |g|
    ensures Elements(g[v].inputs) <= AllInputs(g)
  {
    if v < |g| - 1 {
      AllInputsHas(g[..|g| - 1], v);
    }
  }

  lemma {:induction false} ClosedUnderInputs(g: Graph, live: set<nat>, v: nat, k: nat, p: seq<nat>)
    requires v in live && IsPath(g, AnyNode(), v, k, p)
    requires forall w, i :: w in live && w < |g| && 0 <= i < |g[w].inputs| ==> g[w].inputs[i] in live
    ensures k in live
    decreases |p|
  {
    if |p| > 1 {
      assert IsPath(g, AnyNode(), p[1], k, p[1..]);
      ClosedUnderInputs(g, live, p[1], k, p[1..]);
    }
  }

  ghost predicate Closed(g: Graph, all: iset<nat>) {
    forall v, i :: v in all && v < |g| && 0 <= i < |g[v].inputs| ==> g[v].inputs[i] in all
  }

  ghost function LiveSet(g: Graph, roots: set<nat>): iset<nat> {
    iset k: nat | IsLive(g, roots, k)
  }

  lemma LiveIsClosed(g: Graph, roots: set<nat>)
    ensures Closed(g, LiveSet(g, roots)) && forall k :: k in roots ==> k in LiveSet(g, roots)
  {
    var all := LiveSet(g, roots);
    forall k: nat | k in roots ensures IsLive(g, roots, k) {
      ReachesSelf(g, AnyNode(), k);
    }
    forall v, i | v in all && v < |g| && 0 <= i < |g[v].inputs| ensures g[v].inputs[i] in all {
      var o :| o in roots && Ancestor(g, o, v);
      ReachesExtend(g, AnyNode(), o, v, g[v].inputs[i]);
    }
  }

  /** The worklist's invariant: all that was met is live, and every root and every input of a
      visited node has been met. */
  ghost predicate Exploring(g: Graph, roots: set<nat>, all: iset<nat>, live: set<nat>, met: set<nat>) {
    && live <= met && roots <= met
    && (forall k :: k in met ==> k in all)
    && forall k, i :: k in live && k < |g| && 0 <= i < |g[k].inputs| ==> g[k].inputs[i] in met
  }

  /** Visit everything on the worklist `stack` and everything that feeds it. */
  method Explore(
    nodes: seq<Node>, ghost g: Graph, ghost roots: set<nat>, ghost all: iset<nat>, stack0: seq<nat>)
    returns (live: set<nat>)
    requires g == GraphOf(nodes) && Closed(g, all)
    requires Elements(stack0) == roots && forall k :: k in roots ==> k in all
    ensures Exploring(g, roots, all, live, live)
  {
    var stack := stack0;
    live := {};
    ghost var met, bound := roots, roots + AllInputs(g);
    while stack != []
      invariant met == live + Elements(stack) && met <= bound && Exploring(g, roots, all, live, met)
      decreases bound - live, |stack|
    {
      var id: nat := stack[|stack| - 1];
      ElementsSplitLast(stack);
      stack := stack[..|stack| - 1];
      Popped(met, live, Elements(stack), id);
      if id in live {
        continue;
      }
      var inputs: seq<nat> := if id < |nodes| then nodes[id].inputs else [];
      ExploreOne(g, roots, all, live, met, id, inputs);
      ElementsAppend(stack, inputs);
      Pushed(met, live + {id}, Elements(stack), Elements(inputs));
      met := met + Elements(inputs);
      live := live + {id};
      stack := stack + inputs;
    }
  }

  lemma Popped(met: set<nat>, live: set<nat>, rest: set<nat>, id: nat)
    requires met == live + (rest + {id})
    ensures id in met && met == (live + {id}) + rest && (id in live ==> met == live + rest)
  {
  }

  lemma Pushed(met: set<nat>, live: set<nat>, rest: set<nat>, more: set<nat>)
    requires met == live + rest
    ensures met + more == live + (rest + more)
  {
  }

  lemma ExploreOne(
    g: Graph, roots: set<nat>, all: iset<nat>, live: set<nat>, met: set<nat>, id: nat, inputs: seq<nat>)
    requires Exploring(g, roots, all, live, met) && Closed(g, all) && id in met
    requires inputs == if id < |g| then g[id].inputs else []
    ensures Exploring(g, roots, all, live + {id}, met + Elements(inputs))
    ensures Elements(inputs) <= AllInputs(g)
  {
    if id < |g| {
      AllInputsHas(g, id);
    }
  }

  lemma ExploredAll(g: Graph, roots: set<nat>, live: set<nat>)
    requires Exploring(g, roots, LiveSet(g, roots), live, live)
    ensures forall k: nat :: k in live <==> IsLive(g, roots, k)
  {
    forall k: nat | IsLive(g, roots, k) ensures k in live {
      var o :| o in roots && Ancestor(g, o, k);
      var p :| IsPath(g, AnyNode(), o, k, p);
      ClosedUnderInputs(g, live, o, k, p);
    }
  }
}
