/** The constant-folding pass of the graph runtime: which nodes may be folded,
    the discovery of the foldable region in data-flow order, the extraction of
    that region into a graph of its own with the set of nodes whose values must
    be fetched back, the single-slot rendezvous the extracted graph sends its
    results through, the replacement of a node by a constant, and the driver's
    partial-success rule.

    Graphs are id-keyed maps of nodes plus a set of edges. Executing the
    extracted graph is abstract: the model is handed the sends it performs. */
module ConstantFolding {
  import opened Wrappers
  import Decimal

  type NodeId = nat

  /** The node classes the pass distinguishes (`IsSource`, `IsSink`,
      `IsConstant`, `IsControlFlow`, `IsSend`, `IsRecv`). */
  datatype NodeClass = Source | Sink | Const | ControlFlow | Send | Recv | Other

  /** A tensor value; its contents are opaque to the pass. */
  datatype Tensor = Tensor(dtype: string, shape: seq<nat>, content: seq<int>)

  /** A node: its name, op type, class, whether its op is stateful, how many
      data inputs its op declares, and the value attribute of a constant. */
  datatype Node = Node(name: string, op: string, cls: NodeClass, stateful: bool,
                       numInputs: nat, value: Option<Tensor>)

  /** The port number a control edge uses at both ends. */
  const ControlSlot: int := -1

  /** A directed edge from output `srcOutput` of `src` to input `dstInput` of `dst`. */
  datatype Edge = Edge(src: NodeId, srcOutput: int, dst: NodeId, dstInput: int)

  /** A graph: nodes by id, edges, the two sentinels, the next free id, and
      the counter `NewName` draws suffixes from. */
  datatype Graph = Graph(nodes: map<NodeId, Node>, edges: set<Edge>,
                         source: NodeId, sink: NodeId, nextId: nat, nameCounter: nat)

  /** Structural invariant: edges join existing nodes and are not self-loops,
      and every id is below the next free id. */
  predicate Valid(g: Graph) {
    && (forall e :: e in g.edges ==> e.src in g.nodes && e.dst in g.nodes && e.src != e.dst)
    && (forall id :: id in g.nodes ==> id < g.nextId)
  }

  /** A graph as the builder leaves it: valid, with its two sentinels present. */
  predicate WellFormed(g: Graph) {
    && Valid(g)
    && g.source in g.nodes && g.sink in g.nodes && g.source != g.sink
    && g.nodes[g.source].cls == Source && g.nodes[g.source].numInputs == 0
    && g.nodes[g.sink].cls == Sink && g.nodes[g.sink].numInputs == 0
  }

  /** `n->in_nodes()`: the sources of all edges, data or control, into `n`. */
  function InNodes(g: Graph, n: NodeId): set<NodeId> {
    set e | e in g.edges && e.dst == n :: e.src
  }

  /** `n->out_edges()`. */
  function OutEdges(g: Graph, n: NodeId): set<Edge> {
    set e | e in g.edges && e.src == n
  }

  function Elems(s: seq<NodeId>): set<NodeId> {
    set x | x in s
  }

  predicate Distinct(s: seq<NodeId>) {
    forall i, j :: 0 <= i < j < |s| ==> s[i] != s[j]
  }

  // ---------------------------------------------------------------------------
  // Classifier
  // ---------------------------------------------------------------------------

  /** The caller's optional filter on nodes (`ConstantFoldingOptions::consider`). */
  datatype Options = Options(consider: Option<Node -> bool>)

  /** `IsConstantFoldable`: stateful ops, nodes the filter rejects, control-flow
      nodes and Send/Recv nodes are not foldable; everything else is. */
  function IsConstantFoldable(n: Node, opts: Options): (r: bool)
    ensures r <==> && !n.stateful
                   && (opts.consider.None? || opts.consider.value(n))
                   && n.cls != ControlFlow && n.cls != Send && n.cls != Recv
  {
    if n.stateful then false
    else if opts.consider.Some? && !opts.consider.value(n) then false
    else if n.cls == ControlFlow || n.cls == Send || n.cls == Recv then false
    else true
  }

  // ---------------------------------------------------------------------------
  // Discovery
  // ---------------------------------------------------------------------------

  /** Whether the visit of `n` admits it, given the nodes admitted so far.
      As written, a constant is always admitted. With `guardConsts`, a
      constant is admitted only when each of its in-nodes is a sentinel or
      already admitted, which is what extraction's CHECKs demand. A non-constant is admitted when it is foldable, has at least
      one input, and every in-node is already admitted. */
  predicate Admits(g: Graph, opts: Options, admitted: set<NodeId>, n: NodeId, guardConsts: bool)
    requires n in g.nodes
  {
    var node := g.nodes[n];
    if node.cls == Const then !guardConsts || InNodes(g, n) <= admitted + {g.source, g.sink}
    else IsConstantFoldable(node, opts) && node.numInputs > 0 && InNodes(g, n) <= admitted
  }

  predicate InGraph(g: Graph, order: seq<NodeId>) {
    forall k :: 0 <= k < |order| ==> order[k] in g.nodes
  }

  /** The visit of `order` (the reverse depth-first search's leave order): the
      nodes admitted, in visit order, and whether any non-constant was admitted. */
  function Scan(g: Graph, opts: Options, order: seq<NodeId>, guardConsts: bool): (r: (seq<NodeId>, bool))
    requires InGraph(g, order)
    decreases |order|
  {
    if |order| == 0 then ([], false)
    else
      var prev := Scan(g, opts, order[..|order| - 1], guardConsts);
      var n := order[|order| - 1];
      if Admits(g, opts, Elems(prev.0), n, guardConsts)
      then (prev.0 + [n], prev.1 || g.nodes[n].cls != Const)
      else prev
  }

  /** The discovered list: the admitted nodes, cleared when no non-constant
      node was admitted. */
  function Discovered(g: Graph, opts: Options, order: seq<NodeId>, guardConsts: bool): seq<NodeId>
    requires InGraph(g, order)
  {
    var s := Scan(g, opts, order, guardConsts);
    if s.1 then s.0 else []
  }

  /** The closure property of a discovered list: each node was admissible
      given the nodes before it. */
  predicate Closed(g: Graph, opts: Options, ns: seq<NodeId>, guardConsts: bool) {
    forall k :: 0 <= k < |ns| ==> ns[k] in g.nodes && Admits(g, opts, Elems(ns[..k]), ns[k], guardConsts)
  }

  /** `FindConstantFoldableNodes`, visiting the nodes in `order`. */
  method FindConstantFoldableNodes(g: Graph, opts: Options, order: seq<NodeId>, guardConsts: bool)
    returns (nodes: seq<NodeId>)
    requires InGraph(g, order)
    ensures nodes == Discovered(g, opts, order, guardConsts)
    ensures forall k :: 0 <= k < |nodes| ==> nodes[k] in g.nodes
    ensures (forall k :: 0 <= k < |nodes| ==> g.nodes[nodes[k]].cls == Const) ==> nodes == []
  {
    var nodeSet: set<NodeId> := {};
    nodes := [];
    var internalNodeInserted := false;
    var i := 0;
    while i < |order|
      invariant 0 <= i <= |order|
      invariant (nodes, internalNodeInserted) == Scan(g, opts, order[..i], guardConsts)
      invariant nodeSet == Elems(nodes)
      invariant forall k :: 0 <= k < |nodes| ==> nodes[k] in g.nodes
    {
      var n := order[i];
      assert order[..i + 1][..i] == order[..i];
      if g.nodes[n].cls == Const {
        if !guardConsts || InNodes(g, n) <= nodeSet + {g.source, g.sink} {
          nodeSet := nodeSet + {n};
          nodes := nodes + [n];
        }
      } else if IsConstantFoldable(g.nodes[n], opts) {
        var allParentsConstant := g.nodes[n].numInputs > 0 && InNodes(g, n) <= nodeSet;
        if allParentsConstant {
          nodeSet := nodeSet + {n};
          nodes := nodes + [n];
          internalNodeInserted := true;
        }
      }
      i := i + 1;
    }
    assert order[..|order|] == order;
    ScanClosed(g, opts, order, guardConsts);
    if !internalNodeInserted {
      nodes := [];
    }
  }

  /** Every node of the scan's result comes from `order`, and each was
      admissible given exactly the nodes admitted before it. */
  lemma {:induction false} ScanClosed(g: Graph, opts: Options, order: seq<NodeId>, guardConsts: bool)
    requires InGraph(g, order)
    ensures Closed(g, opts, Scan(g, opts, order, guardConsts).0, guardConsts)
    ensures forall k :: 0 <= k < |Scan(g, opts, order, guardConsts).0| ==> Scan(g, opts, order, guardConsts).0[k] in order
    ensures Scan(g, opts, order, guardConsts).1 <==>
      exists k :: 0 <= k < |Scan(g, opts, order, guardConsts).0| && g.nodes[Scan(g, opts, order, guardConsts).0[k]].cls != Const
    decreases |order|
  {
    if |order| > 0 {
      var init := order[..|order| - 1];
      ScanClosed(g, opts, init, guardConsts);
      var prev := Scan(g, opts, init, guardConsts);
      var n := order[|order| - 1];
      if Admits(g, opts, Elems(prev.0), n, guardConsts) {
        var ns := prev.0 + [n];
        assert ns[..|prev.0|] == prev.0;
        forall k | 0 <= k < |prev.0| ensures ns[..k] == prev.0[..k] { }
      }
    }
  }

  /** An admitted node is visited exactly when it was admissible at its turn:
      the scan's result, read against `order`, is the set of nodes whose
      visit admitted them. */
  lemma {:induction false} ScanMembership(g: Graph, opts: Options, order: seq<NodeId>, guardConsts: bool, k: nat)
    requires InGraph(g, order) && Distinct(order) && k < |order|
    ensures order[k] in Scan(g, opts, order, guardConsts).0 <==>
            Admits(g, opts, Elems(Scan(g, opts, order[..k], guardConsts).0), order[k], guardConsts)
    decreases |order|
  {
    var init := order[..|order| - 1];
    var prev := Scan(g, opts, init, guardConsts);
    var n := order[|order| - 1];
    ScanClosed(g, opts, init, guardConsts);
    if k == |order| - 1 {
      assert order[..k] == init;
      forall j | 0 <= j < |prev.0| ensures prev.0[j] != n {
        assert prev.0[j] in init;
      }
    } else {
      assert init[..k] == order[..k];
      assert Distinct(init);
      ScanMembership(g, opts, init, guardConsts, k);
      assert order[k] != n;
    }
  }

  /** As written, discovery admits every constant node it visits. */
  lemma {:induction false} ConstantsAlwaysAdmitted(g: Graph, opts: Options, order: seq<NodeId>, k: nat)
    requires InGraph(g, order) && Distinct(order) && k < |order|
    requires g.nodes[order[k]].cls == Const
    ensures order[k] in Scan(g, opts, order, false).0
  {
    ScanMembership(g, opts, order, false, k);
  }

  /** A non-constant node is admitted only if it is foldable, has an input, and
      every in-node (data or control) was admitted before it; with the guard,
      a constant is admitted only if its in-nodes are sentinels or were
      admitted before it. */
  lemma DiscoveredIsClosed(g: Graph, opts: Options, order: seq<NodeId>, guardConsts: bool, k: nat)
    requires InGraph(g, order)
    requires k < |Discovered(g, opts, order, guardConsts)|
    ensures var ns := Discovered(g, opts, order, guardConsts);
            && ns[k] in g.nodes
            && (g.nodes[ns[k]].cls != Const ==>
                  IsConstantFoldable(g.nodes[ns[k]], opts) && g.nodes[ns[k]].numInputs > 0
                  && InNodes(g, ns[k]) <= Elems(ns[..k]))
            && (g.nodes[ns[k]].cls == Const && guardConsts ==> InNodes(g, ns[k]) <= Elems(ns[..k]) + {g.source, g.sink})
  {
    ScanClosed(g, opts, order, guardConsts);
  }

  /** Discovery never admits a sentinel: both declare no inputs and neither is a constant. */
  lemma {:induction false} SentinelsNotDiscovered(g: Graph, opts: Options, order: seq<NodeId>, guardConsts: bool)
    requires WellFormed(g) && InGraph(g, order)
    ensures g.source !in Scan(g, opts, order, guardConsts).0
    ensures g.sink !in Scan(g, opts, order, guardConsts).0
  {
    ScanClosed(g, opts, order, guardConsts);
    var ns := Scan(g, opts, order, guardConsts).0;
    forall k | 0 <= k < |ns| ensures ns[k] != g.source && ns[k] != g.sink {
      assert Admits(g, opts, Elems(ns[..k]), ns[k], guardConsts);
    }
  }

  /** The scan lists each node at most once when `order` does. */
  lemma {:induction false} ScanDistinct(g: Graph, opts: Options, order: seq<NodeId>, guardConsts: bool)
    requires InGraph(g, order) && Distinct(order)
    ensures Distinct(Scan(g, opts, order, guardConsts).0)
    decreases |order|
  {
    if |order| > 0 {
      var init := order[..|order| - 1];
      assert Distinct(init);
      ScanDistinct(g, opts, init, guardConsts);
      ScanClosed(g, opts, init, guardConsts);
      var prev := Scan(g, opts, init, guardConsts).0;
      var n := order[|order| - 1];
      forall j | 0 <= j < |prev| ensures prev[j] != n {
        assert prev[j] in init;
      }
    }
  }

  // ---------------------------------------------------------------------------
  // Extraction of the foldable region
  // ---------------------------------------------------------------------------

  /** What extraction requires of the discovered list: distinct nodes of a
      well-formed graph, neither of them a sentinel. */
  predicate Extractable(g: Graph, nodes: seq<NodeId>) {
    && WellFormed(g) && Distinct(nodes) && InGraph(g, nodes)
    && g.source !in nodes && g.sink !in nodes
  }

  /** The original node a copy id stands for: the copy graph numbers its
      source 0, its sink 1, and the copy of `nodes[k]` gets `k + 2`. */
  function OrigOf(g: Graph, nodes: seq<NodeId>, c: nat): NodeId
    requires c < |nodes| + 2
  {
    if c == 0 then g.source else if c == 1 then g.sink else nodes[c - 2]
  }

  /** The position of `x` in `s`. */
  function IndexOf(s: seq<NodeId>, x: NodeId): (i: nat)
    requires x in s
    ensures i < |s| && s[i] == x
    ensures Distinct(s) ==> forall j :: 0 <= j < |s| && s[j] == x ==> j == i
  {
    if s[0] == x then 0 else 1 + IndexOf(s[1..], x)
  }

  /** The copy id of an original node in `node_map`. */
  function CopyId(g: Graph, nodes: seq<NodeId>, o: NodeId): nat
    requires o == g.source || o == g.sink || o in nodes
  {
    if o == g.source then 0 else if o == g.sink then 1 else IndexOf(nodes, o) + 2
  }

  /** `node_map`: the sentinels and every copied node, to their copies. */
  function NodeMap(g: Graph, nodes: seq<NodeId>): (m: map<NodeId, NodeId>)
    requires Extractable(g, nodes)
    ensures m.Keys == {g.source, g.sink} + Elems(nodes)
    ensures forall o :: o in m ==> m[o] < |nodes| + 2 && OrigOf(g, nodes, m[o]) == o
    ensures forall c :: 0 <= c < |nodes| + 2 ==> OrigOf(g, nodes, c) in m && m[OrigOf(g, nodes, c)] == c
  {
    var m := map o | o in {g.source, g.sink} + Elems(nodes) :: CopyId(g, nodes, o);
    assert forall k :: 0 <= k < |nodes| ==> CopyId(g, nodes, nodes[k]) == k + 2;
    m
  }

  /** The two CHECKs of the copy loop: every in-node of a copied node is a
      sentinel or a node copied before it. */
  predicate ExtractionChecks(g: Graph, nodes: seq<NodeId>) {
    forall k :: 0 <= k < |nodes| ==> InNodes(g, nodes[k]) <= {g.source, g.sink} + Elems(nodes[..k])
  }

  /** Whether a node of `node_map` has an out-edge to a node outside it. */
  predicate NeedsFetch(g: Graph, m: map<NodeId, NodeId>, o: NodeId) {
    exists e :: e in g.edges && e.src == o && e.dst !in m
  }

  /** The copy of every in-edge of a copied node whose source has a copy. */
  function CopyEdges(g: Graph, nodes: seq<NodeId>, m: map<NodeId, NodeId>): (r: set<Edge>)
    requires Extractable(g, nodes) && m == NodeMap(g, nodes)
    // every edge of the copy is the image of an original edge, and joins two copies
    ensures forall ce :: ce in r ==>
      && 2 <= ce.dst < |nodes| + 2 && ce.src < |nodes| + 2 && ce.src != ce.dst
      && Edge(OrigOf(g, nodes, ce.src), ce.srcOutput, nodes[ce.dst - 2], ce.dstInput) in g.edges
    // every in-edge of a copied node from a node with a copy is copied, ports kept
    ensures forall k, e :: 0 <= k < |nodes| && e in g.edges && e.dst == nodes[k] && e.src in m ==>
      Edge(m[e.src], e.srcOutput, k + 2, e.dstInput) in r
  {
    var r := set k, e | 0 <= k < |nodes| && e in g.edges && e.dst == nodes[k] && e.src in m
                      :: Edge(m[e.src], e.srcOutput, k + 2, e.dstInput);
    assert forall ce :: ce in r ==> ce.src != ce.dst && OrigOf(g, nodes, ce.dst) == nodes[ce.dst - 2] by {
      forall ce | ce in r ensures ce.src != ce.dst && OrigOf(g, nodes, ce.dst) == nodes[ce.dst - 2] {
        var k, e :| 0 <= k < |nodes| && e in g.edges && e.dst == nodes[k] && e.src in m
                    && ce == Edge(m[e.src], e.srcOutput, k + 2, e.dstInput);
        assert OrigOf(g, nodes, k + 2) == nodes[k];
      }
    }
    r
  }

  /** `nodes_to_fetch`: copy id to original, for each node of `node_map`
      feeding a node outside it. */
  function FetchMap(g: Graph, nodes: seq<NodeId>, m: map<NodeId, NodeId>): (f: map<NodeId, NodeId>)
    requires Extractable(g, nodes) && m == NodeMap(g, nodes)
    ensures forall o :: o in m ==> (m[o] in f <==> NeedsFetch(g, m, o))
    ensures forall c :: c in f ==> c < |nodes| + 2 && f[c] in m && m[f[c]] == c
  {
    map c | 0 <= c < |nodes| + 2 && NeedsFetch(g, m, OrigOf(g, nodes, c)) :: OrigOf(g, nodes, c)
  }

  /** The in-edge CHECKs pass exactly when every in-node of a copied node has a copy. */
  lemma ChecksMeanInNodesMapped(g: Graph, nodes: seq<NodeId>)
    requires Extractable(g, nodes)
    ensures ExtractionChecks(g, nodes) <==>
      forall k, e :: 0 <= k < |nodes| && e in g.edges && e.dst == nodes[k] ==>
        e.src == g.source || e.src == g.sink || e.src in nodes[..k]
  {
    if ExtractionChecks(g, nodes) {
      forall k, e | 0 <= k < |nodes| && e in g.edges && e.dst == nodes[k]
        ensures e.src == g.source || e.src == g.sink || e.src in nodes[..k]
      {
        assert e.src in InNodes(g, nodes[k]);
      }
    }
  }

  /** The copy graph's nodes: the sentinels at 0 and 1, the copies after them. */
  function CopyNodes(g: Graph, nodes: seq<NodeId>): (r: map<NodeId, Node>)
    requires Extractable(g, nodes)
    ensures forall c: NodeId :: c in r <==> c < |nodes| + 2
    ensures forall k :: 0 <= k < |nodes| ==> r[k + 2] == g.nodes[nodes[k]]
  {
    map c | 0 <= c < |nodes| + 2 :: g.nodes[OrigOf(g, nodes, c)]
  }

  /** The result of `GetConstantGraph`: the copy graph, `node_map`, and
      `nodes_to_fetch` (copy id to original id). */
  datatype Extracted = Extracted(graph: Graph, nodeMap: map<NodeId, NodeId>, toFetch: map<NodeId, NodeId>)

  /** `GetConstantGraph`. `None` stands for the process abort a failed CHECK causes. */
  function GetConstantGraph(g: Graph, nodes: seq<NodeId>): (r: Option<Extracted>)
    requires Extractable(g, nodes)
    ensures r.None? <==> !ExtractionChecks(g, nodes)
    ensures r.Some? ==> var cg := r.value.graph;
      && r.value.nodeMap == NodeMap(g, nodes)
      && r.value.toFetch == FetchMap(g, nodes, r.value.nodeMap)
      && Valid(cg) && cg.source == 0 && cg.sink == 1 && cg.nextId == |nodes| + 2
      && (forall c: NodeId :: c in cg.nodes <==> c < |nodes| + 2)
      && (forall k :: 0 <= k < |nodes| ==> cg.nodes[k + 2] == g.nodes[nodes[k]])
    // with the CHECKs passed, every in-edge of a copied node is copied
    ensures r.Some? ==> var m := r.value.nodeMap;
      forall k, e :: 0 <= k < |nodes| && e in g.edges && e.dst == nodes[k] ==>
        e.src in m && Edge(m[e.src], e.srcOutput, k + 2, e.dstInput) in r.value.graph.edges
  {
    if !ExtractionChecks(g, nodes) then None
    else
      var m := NodeMap(g, nodes);
      CopyGraphValid(g, nodes);
      CopyGraphHasInEdges(g, nodes);
      Some(Extracted(CopyGraph(g, nodes), m, FetchMap(g, nodes, m)))
  }

  /** The copy graph: the copies, their copied in-edges, sentinels 0 and 1. */
  function CopyGraph(g: Graph, nodes: seq<NodeId>): Graph
    requires Extractable(g, nodes)
  {
    Graph(CopyNodes(g, nodes), CopyEdges(g, nodes, NodeMap(g, nodes)), 0, 1, |nodes| + 2, 0)
  }

  lemma CopyGraphValid(g: Graph, nodes: seq<NodeId>)
    requires Extractable(g, nodes)
    ensures Valid(CopyGraph(g, nodes))
  {
  }

  lemma CopyGraphHasInEdges(g: Graph, nodes: seq<NodeId>)
    requires Extractable(g, nodes) && ExtractionChecks(g, nodes)
    ensures var m := NodeMap(g, nodes);
      forall k, e :: 0 <= k < |nodes| && e in g.edges && e.dst == nodes[k] ==>
        e.src in m && Edge(m[e.src], e.srcOutput, k + 2, e.dstInput) in CopyGraph(g, nodes).edges
  {
    var m := NodeMap(g, nodes);
    ChecksMeanInNodesMapped(g, nodes);
    assert forall k, e :: 0 <= k < |nodes| && e in g.edges && e.dst == nodes[k] ==> e.src in m;
  }

  /** With the guarded discovery, the CHECKs of the copy loop always pass. */
  lemma GuardedExtractionSucceeds(g: Graph, opts: Options, order: seq<NodeId>)
    requires WellFormed(g) && InGraph(g, order)
    ensures ExtractionChecks(g, Scan(g, opts, order, true).0)
  {
    ScanClosed(g, opts, order, true);
  }

  /** The guarded scan admits no node the scan as written does not. */
  lemma {:induction false} GuardedScanWithin(g: Graph, opts: Options, order: seq<NodeId>)
    requires InGraph(g, order)
    ensures Elems(Scan(g, opts, order, true).0) <= Elems(Scan(g, opts, order, false).0)
    decreases |order|
  {
    if |order| > 0 {
      GuardedScanWithin(g, opts, order[..|order| - 1]);
    }
  }

  /** Where the scan as written passes extraction's CHECKs, the guard admits
      the same nodes. */
  lemma {:induction false} GuardedScanAgrees(g: Graph, opts: Options, order: seq<NodeId>)
    requires InGraph(g, order)
    requires ExtractionChecks(g, Scan(g, opts, order, false).0)
    ensures Scan(g, opts, order, true) == Scan(g, opts, order, false)
    decreases |order|
  {
    if |order| > 0 {
      var init := order[..|order| - 1];
      var prev := Scan(g, opts, init, false).0;
      var s := Scan(g, opts, order, false).0;
      assert s[..|prev|] == prev;
      forall k | 0 <= k < |prev| ensures InNodes(g, prev[k]) <= {g.source, g.sink} + Elems(prev[..k]) {
        assert s[k] == prev[k] && s[..k] == prev[..k];
      }
      GuardedScanAgrees(g, opts, init);
      var n := order[|order| - 1];
      if g.nodes[n].cls == Const {
        assert s[|prev|] == n;
      }
    }
  }

  /** Where the discovered list as written passes extraction's CHECKs, the
      guarded discovery is the same list: the guard changes only the graphs
      on which the source aborts. */
  lemma GuardedDiscoveryAgrees(g: Graph, opts: Options, order: seq<NodeId>)
    requires InGraph(g, order)
    requires ExtractionChecks(g, Discovered(g, opts, order, false))
    ensures Discovered(g, opts, order, true) == Discovered(g, opts, order, false)
  {
    var s := Scan(g, opts, order, false);
    var t := Scan(g, opts, order, true);
    ScanClosed(g, opts, order, true);
    ScanClosed(g, opts, order, false);
    GuardedScanWithin(g, opts, order);
    if t.1 {
      var k :| 0 <= k < |t.0| && g.nodes[t.0[k]].cls != Const;
      assert t.0[k] in Elems(s.0);
      var j :| 0 <= j < |s.0| && s.0[j] == t.0[k];
      assert g.nodes[s.0[j]].cls != Const;
    }
    if s.1 {
      GuardedScanAgrees(g, opts, order);
    }
  }

  /** The discovered list as written aborts extraction on this graph: a
      constant `c` with a control input from a stateful node `x` is admitted,
      the foldable `a` reading `c` makes the list survive, and the copy of `c`
      then finds `x` outside `node_map`. */
  lemma UnguardedExtractionAborts()
    ensures var g := CounterexampleGraph();
            var order := [2, 3, 4];
            && WellFormed(g) && InGraph(g, order) && Distinct(order)
            && Discovered(g, Options(None), order, false) == [3, 4]
            && !ExtractionChecks(g, Discovered(g, Options(None), order, false))
  {
    CounterexampleInNodes();
    CounterexampleDiscovered();
    var g := CounterexampleGraph();
    assert [3, 4][..0] == [];
  }

  /** The in-nodes of `x`, `c` and `a` in the counterexample graph. */
  lemma CounterexampleInNodes()
    ensures var g := CounterexampleGraph();
      InNodes(g, 2) == {0} && InNodes(g, 3) == {2} && InNodes(g, 4) == {3}
  {
    var g := CounterexampleGraph();
    assert InNodes(g, 2) == {0} by {
      forall x | x in InNodes(g, 2) ensures x == 0 { }
      assert Edge(0, ControlSlot, 2, ControlSlot) in g.edges;
    }
    assert InNodes(g, 3) == {2} by {
      forall x | x in InNodes(g, 3) ensures x == 2 { }
      assert Edge(2, ControlSlot, 3, ControlSlot) in g.edges;
    }
    assert InNodes(g, 4) == {3} by {
      forall x | x in InNodes(g, 4) ensures x == 3 { }
      assert Edge(3, 0, 4, 0) in g.edges;
    }
  }

  /** Without the guard, discovery in the order `x`, `c`, `a` keeps `c` and `a`. */
  lemma CounterexampleDiscovered()
    ensures InGraph(CounterexampleGraph(), [2, 3, 4])
    ensures Discovered(CounterexampleGraph(), Options(None), [2, 3, 4], false) == [3, 4]
  {
    CounterexampleInNodes();
    var g := CounterexampleGraph();
    var order := [2, 3, 4];
    assert order[..0] == [] && order[..1] == [2] && order[..2] == [2, 3] && order[..3] == order;
    assert [2][..0] == [] && [2, 3][..1] == [2];
    assert Scan(g, Options(None), [2], false) == ([], false);
    assert Admits(g, Options(None), Elems([]), 3, false);
    var s2 := Scan(g, Options(None), [2, 3], false);
    assert s2.0 == [3];
    assert !s2.1;
    assert [3, 4][..1] == [3];
  }

  /** Source 0, sink 1, a stateful `x` (2), a constant `c` (3) with a control
      edge from `x`, and a foldable `a` (4) reading `c`. */
  function CounterexampleGraph(): (g: Graph)
    ensures WellFormed(g)
  {
    var nodes := map[
      0 := Node("_SOURCE", "NoOp", Source, false, 0, None),
      1 := Node("_SINK", "NoOp", Sink, false, 0, None),
      2 := Node("x", "Variable", Other, true, 0, None),
      3 := Node("c", "Const", Const, false, 0, Some(Tensor("float", [], [1]))),
      4 := Node("a", "Neg", Other, false, 1, None)];
    Graph(nodes, {Edge(0, ControlSlot, 2, ControlSlot), Edge(2, ControlSlot, 3, ControlSlot), Edge(3, 0, 4, 0)},
          0, 1, 5, 0)
  }

  // ---------------------------------------------------------------------------
  // Replacement
  // ---------------------------------------------------------------------------

  /** `Graph::NewName`: the prefix, `/_`, and the graph's name counter. */
  function NewName(g: Graph, prefix: string): string {
    prefix + "/_" + Decimal.NatToString(g.nameCounter)
  }

  /** The node `ReplaceNodeWithConstant` builds. */
  function ConstNode(name: string, t: Tensor): Node {
    Node(name, "Const", Const, false, 0, Some(t))
  }

  /** `Graph::RemoveNode`: the node goes, and with it every edge touching it. */
  function RemoveNode(g: Graph, n: NodeId): (r: Graph)
    requires Valid(g)
    ensures Valid(r) && r.nextId == g.nextId && r.source == g.source && r.sink == g.sink
    ensures forall id :: id in r.nodes <==> id in g.nodes && id != n
    ensures forall id :: id in r.nodes ==> r.nodes[id] == g.nodes[id]
    ensures forall e :: e in r.edges <==> e in g.edges && e.src != n && e.dst != n
  {
    g.(nodes := g.nodes - {n}, edges := set e | e in g.edges && e.src != n && e.dst != n)
  }

  /** `ReplaceNodeWithConstant`: `n` is removed, a constant holding `t` takes
      the next id, and each out-edge of `n` is re-added from the constant with
      the same ports. */
  function ReplaceNodeWithConstant(g: Graph, n: NodeId, t: Tensor): (r: Graph)
    requires Valid(g) && n in g.nodes
    ensures Valid(r) && r.nextId == g.nextId + 1 && r.source == g.source && r.sink == g.sink
    ensures g.nextId in r.nodes && r.nodes[g.nextId] == ConstNode(NewName(g, g.nodes[n].name), t)
    ensures forall id :: id in r.nodes <==> (id in g.nodes && id != n) || id == g.nextId
    ensures forall id :: id in g.nodes && id != n ==> r.nodes[id] == g.nodes[id]
    // every consumer of `n` now reads the constant, on the same ports ...
    ensures forall e :: e in g.edges && e.src == n ==> Edge(g.nextId, e.srcOutput, e.dst, e.dstInput) in r.edges
    // ... edges not touching `n` are kept ...
    ensures forall e :: e in g.edges && e.src != n && e.dst != n ==> e in r.edges
    // ... and nothing else: the in-edges of `n` are gone and the constant has no inputs
    ensures forall e :: e in r.edges ==>
      || (e.src == g.nextId && Edge(n, e.srcOutput, e.dst, e.dstInput) in g.edges)
      || (e in g.edges && e.src != n && e.dst != n)
  {
    var name := NewName(g, g.nodes[n].name);
    var g1 := RemoveNode(g, n);
    var id := g1.nextId;
    var rewired := set e | e in OutEdges(g, n) :: Edge(id, e.srcOutput, e.dst, e.dstInput);
    Graph(g1.nodes[id := ConstNode(name, t)], g1.edges + rewired, g.source, g.sink, id + 1, g.nameCounter + 1)
  }

  /** The replacements of the fetch loop, in order: `ts[k]` is replaced by a
      constant holding `vs[k]`. Nodes not replaced are kept as they were. */
  function ReplaceAll(g: Graph, ts: seq<NodeId>, vs: seq<Tensor>): (r: Graph)
    requires Valid(g) && Distinct(ts) && InGraph(g, ts) && |ts| == |vs|
    ensures Valid(r) && r.nextId == g.nextId + |ts| && r.source == g.source && r.sink == g.sink
    ensures forall id :: id in g.nodes && id !in ts ==> id in r.nodes && r.nodes[id] == g.nodes[id]
    decreases |ts|
  {
    if |ts| == 0 then g
    else
      var n := |ts| - 1;
      LastNotInInit(ts);
      ReplaceNodeWithConstant(ReplaceAll(g, ts[..n], vs[..n]), ts[n], vs[n])
  }

  lemma LastNotInInit(ts: seq<NodeId>)
    requires Distinct(ts) && |ts| > 0
    ensures Distinct(ts[..|ts| - 1]) && ts[|ts| - 1] !in ts[..|ts| - 1]
    ensures forall id :: id in ts <==> id in ts[..|ts| - 1] || id == ts[|ts| - 1]
  {
    assert ts == ts[..|ts| - 1] + [ts[|ts| - 1]];
  }

  /** After the replacements, the k-th replaced node is gone and the k-th
      new constant holds `vs[k]`. */
  lemma {:induction false} ReplaceAllNodes(g: Graph, ts: seq<NodeId>, vs: seq<Tensor>)
    requires Valid(g) && Distinct(ts) && InGraph(g, ts) && |ts| == |vs|
    ensures forall k :: 0 <= k < |ts| ==>
      var r := ReplaceAll(g, ts, vs);
      ts[k] !in r.nodes && g.nextId + k in r.nodes &&
      r.nodes[g.nextId + k].cls == Const && r.nodes[g.nextId + k].value == Some(vs[k])
    decreases |ts|
  {
    if |ts| > 0 {
      var n := |ts| - 1;
      LastNotInInit(ts);
      ReplaceAllNodes(g, ts[..n], vs[..n]);
      var prev := ReplaceAll(g, ts[..n], vs[..n]);
      var r := ReplaceAll(g, ts, vs);
      assert r == ReplaceNodeWithConstant(prev, ts[n], vs[n]);
      forall k | 0 <= k < n
        ensures ts[k] !in r.nodes && g.nextId + k in r.nodes
        ensures r.nodes[g.nextId + k].cls == Const && r.nodes[g.nextId + k].value == Some(vs[k])
      {
        assert ts[..n][k] == ts[k] && vs[..n][k] == vs[k];
        assert ts[k] !in prev.nodes && g.nextId + k in prev.nodes;
        assert g.nextId + k != ts[n];
      }
    }
  }

  /** The replacements add no node besides the new constants. */
  lemma {:induction false} ReplaceAllAddsOnlyConstants(g: Graph, ts: seq<NodeId>, vs: seq<Tensor>)
    requires Valid(g) && Distinct(ts) && InGraph(g, ts) && |ts| == |vs|
    ensures forall id :: id in ReplaceAll(g, ts, vs).nodes ==>
      (id in g.nodes && id !in ts) || g.nextId <= id < g.nextId + |ts|
    decreases |ts|
  {
    if |ts| > 0 {
      var n := |ts| - 1;
      LastNotInInit(ts);
      ReplaceAllAddsOnlyConstants(g, ts[..n], vs[..n]);
    }
  }

  /** After the replacements, edges among untouched nodes are kept, and a
      consumer outside the replaced nodes reads the matching constant on the
      same ports. */
  lemma ReplaceAllEdges(g: Graph, ts: seq<NodeId>, vs: seq<Tensor>)
    requires Valid(g) && Distinct(ts) && InGraph(g, ts) && |ts| == |vs|
    ensures var r := ReplaceAll(g, ts, vs);
      && (forall e :: e in g.edges && e.src !in ts && e.dst !in ts ==> e in r.edges)
      && (forall k, e :: 0 <= k < |ts| && e in g.edges && e.src == ts[k] && e.dst !in ts ==>
            Edge(g.nextId + k, e.srcOutput, e.dst, e.dstInput) in r.edges)
  {
    ReplaceAllKeepsEdges(g, ts, vs);
    ReplaceAllRedirects(g, ts, vs);
  }

  lemma {:induction false} ReplaceAllKeepsEdges(g: Graph, ts: seq<NodeId>, vs: seq<Tensor>)
    requires Valid(g) && Distinct(ts) && InGraph(g, ts) && |ts| == |vs|
    ensures forall e :: e in g.edges && e.src !in ts && e.dst !in ts ==> e in ReplaceAll(g, ts, vs).edges
    decreases |ts|
  {
    if |ts| > 0 {
      var n := |ts| - 1;
      LastNotInInit(ts);
      ReplaceAllKeepsEdges(g, ts[..n], vs[..n]);
      assert ReplaceAll(g, ts, vs) == ReplaceNodeWithConstant(ReplaceAll(g, ts[..n], vs[..n]), ts[n], vs[n]);
    }
  }

  lemma {:induction false} ReplaceAllRedirects(g: Graph, ts: seq<NodeId>, vs: seq<Tensor>)
    requires Valid(g) && Distinct(ts) && InGraph(g, ts) && |ts| == |vs|
    ensures forall k, e :: 0 <= k < |ts| && e in g.edges && e.src == ts[k] && e.dst !in ts ==>
      Edge(g.nextId + k, e.srcOutput, e.dst, e.dstInput) in ReplaceAll(g, ts, vs).edges
    decreases |ts|
  {
    if |ts| > 0 {
      var n := |ts| - 1;
      LastNotInInit(ts);
      ReplaceAllKeepsEdges(g, ts[..n], vs[..n]);
      ReplaceAllRedirects(g, ts[..n], vs[..n]);
      var prev := ReplaceAll(g, ts[..n], vs[..n]);
      ReplaceAllNodes(g, ts[..n], vs[..n]);
      var r := ReplaceAll(g, ts, vs);
      assert r == ReplaceNodeWithConstant(prev, ts[n], vs[n]);
      forall k, e | 0 <= k < |ts| && e in g.edges && e.src == ts[k] && e.dst !in ts
        ensures Edge(g.nextId + k, e.srcOutput, e.dst, e.dstInput) in r.edges
      {
        if k < n {
          assert ts[..n][k] == ts[k];
          var e2 := Edge(g.nextId + k, e.srcOutput, e.dst, e.dstInput);
          assert e2 in prev.edges;
          assert e2.src != ts[n];
        } else {
          assert e in prev.edges;
        }
      }
    }
  }

  /** `RemoveNode` over each node of `ds`. */
  function RemoveNodes(g: Graph, ds: seq<NodeId>): (r: Graph)
    requires Valid(g)
    ensures Valid(r) && r.nextId == g.nextId && r.source == g.source && r.sink == g.sink
    ensures forall id :: id in r.nodes <==> id in g.nodes && id !in ds
    ensures forall id :: id in r.nodes ==> r.nodes[id] == g.nodes[id]
    ensures forall e :: e in r.edges <==> e in g.edges && e.src !in ds && e.dst !in ds
    decreases |ds|
  {
    if |ds| == 0 then g
    else
      var r := RemoveNode(RemoveNodes(g, ds[..|ds| - 1]), ds[|ds| - 1]);
      assert forall id :: id in ds <==> id in ds[..|ds| - 1] || id == ds[|ds| - 1] by {
        assert ds == ds[..|ds| - 1] + [ds[|ds| - 1]];
      }
      r
  }

  // ---------------------------------------------------------------------------
  // The rendezvous the extracted graph sends its results through
  // ---------------------------------------------------------------------------

  /** The rendezvous table, by edge name. */
  type Table = map<string, Tensor>

  /** A send the extracted graph's run performs: the full rendezvous key, the
      value, and whether it is dead. */
  datatype SendCall = SendCall(key: string, val: Tensor, isDead: bool)

  /** `SimpleRendezvous::Send`. `parseKey` is `Rendezvous::ParseKey`, reduced to
      the edge name it extracts; `None` is its parse error. */
  function RendezvousSend(t: Table, parseKey: string -> Option<string>, call: SendCall): (r: (Outcome<string>, Table))
    ensures r.0.Pass? <==> !call.isDead && parseKey(call.key).Some? && parseKey(call.key).value !in t
    ensures r.0.Fail? ==> r.1 == t
    ensures r.0.Pass? ==> r.1 == t[parseKey(call.key).value := call.val]
  {
    if call.isDead then (Fail("Send of a dead tensor"), t)
    else match parseKey(call.key)
      case None => (Fail("Invalid rendezvous key: " + call.key), t)
      case Some(edge) =>
        if edge in t then (Fail("Send of an already sent tensor"), t)
        else (Pass, t[edge := call.val])
  }

  /** `SimpleRendezvous::RecvAsync`: looks the key up as given, fails on a
      missing key, and hands back the stored value, never marked dead. */
  function RendezvousRecv(t: Table, key: string): (r: Result<(Tensor, bool), string>)
    ensures r.Err? <==> key !in t
    ensures r.Ok? ==> r.value == (t[key], false)
  {
    if key !in t then Err("Did not find key " + key) else Ok((t[key], false))
  }

  /** A live send under a fresh edge name is received back unchanged. */
  lemma SendThenRecv(t: Table, parseKey: string -> Option<string>, call: SendCall)
    requires !call.isDead && parseKey(call.key).Some? && parseKey(call.key).value !in t
    ensures RendezvousSend(t, parseKey, call).0.Pass?
    ensures RendezvousRecv(RendezvousSend(t, parseKey, call).1, parseKey(call.key).value) == Ok((call.val, false))
  {
  }

  /** Each send of the run, in order; statuses are not collected (see the driver). */
  function ApplySends(t: Table, parseKey: string -> Option<string>, calls: seq<SendCall>): Table
    decreases |calls|
  {
    if |calls| == 0 then t else ApplySends(RendezvousSend(t, parseKey, calls[0]).1, parseKey, calls[1..])
  }

  /** A stored entry is never overwritten by later sends. */
  lemma {:induction false} SentValuesPersist(t: Table, parseKey: string -> Option<string>, calls: seq<SendCall>, edge: string)
    requires edge in t
    ensures edge in ApplySends(t, parseKey, calls) && ApplySends(t, parseKey, calls)[edge] == t[edge]
    decreases |calls|
  {
    if |calls| > 0 {
      SentValuesPersist(RendezvousSend(t, parseKey, calls[0]).1, parseKey, calls[1..], edge);
    }
  }

  /** The first live send to an edge name decides what is received from it. */
  lemma {:induction false} FirstSendWins(t: Table, parseKey: string -> Option<string>, calls: seq<SendCall>, i: nat, edge: string)
    requires i < |calls| && edge !in t
    requires !calls[i].isDead && parseKey(calls[i].key) == Some(edge)
    requires forall j :: 0 <= j < i && !calls[j].isDead ==> parseKey(calls[j].key) != Some(edge)
    ensures RendezvousRecv(ApplySends(t, parseKey, calls), edge) == Ok((calls[i].val, false))
    decreases i
  {
    var t1 := RendezvousSend(t, parseKey, calls[0]).1;
    if i == 0 {
      SentValuesPersist(t1, parseKey, calls[1..], edge);
    } else {
      assert edge !in t1;
      FirstSendWins(t1, parseKey, calls[1..], i - 1, edge);
    }
  }

  // ---------------------------------------------------------------------------
  // The driver
  // ---------------------------------------------------------------------------

  /** What the driver learns from the code it calls: whether a CPU device
      exists, whether `FetchOutputs` and `NewLocalExecutor` succeed, whether
      the run had already failed when its status was read, the sends the run
      performs, the rendezvous key parser, and the `tensor_name` attribute of
      each fetch node (`None` when it cannot be read). */
  datatype Env = Env(deviceAvailable: bool, fetchOutputsOk: bool, executorOk: bool,
                     failedBeforeWait: bool, sends: seq<SendCall>,
                     parseKey: string -> Option<string>, tensorName: nat -> Option<string>)

  /** The keys of `keys` below `bound` in ascending order: the fetch order. */
  function FetchList(keys: set<NodeId>, bound: nat): (r: seq<NodeId>)
    ensures forall i :: 0 <= i < |r| ==> r[i] in keys && r[i] < bound
    ensures forall c :: c in keys && c < bound ==> c in r
    ensures forall i, j :: 0 <= i < j < |r| ==> r[i] < r[j]
  {
    if bound == 0 then []
    else FetchList(keys, bound - 1) + (if bound - 1 in keys then [bound - 1] else [])
  }

  /** The nodes the driver works with: the discovered list, `nodes_to_fetch`,
      the fetch order (copy ids), and `nodes_to_replace` (originals). */
  datatype FoldPlan = FoldPlan(nodes: seq<NodeId>, toFetch: map<NodeId, NodeId>,
                               fetch: seq<NodeId>, replace: seq<NodeId>)

  /** The originals `node_map` covers: the sentinels and the discovered nodes. */
  function Region(g: Graph, nodes: seq<NodeId>): set<NodeId> {
    {g.source, g.sink} + Elems(nodes)
  }

  /** Whether some node of the region feeds a node outside it. */
  predicate FeedsBack(g: Graph, nodes: seq<NodeId>) {
    exists e :: e in g.edges && e.src in Region(g, nodes) && e.dst !in Region(g, nodes)
  }

  /** `nodes_to_replace`: the original behind each fetched copy, in fetch order. */
  function ReplaceList(f: map<NodeId, NodeId>, fetch: seq<NodeId>): (r: seq<NodeId>)
    requires forall i :: 0 <= i < |fetch| ==> fetch[i] in f
    ensures |r| == |fetch| && forall i :: 0 <= i < |r| ==> r[i] == f[fetch[i]]
  {
    seq(|fetch|, i requires 0 <= i < |fetch| => f[fetch[i]])
  }

  /** The replaced nodes are distinct nodes of the graph, and they are exactly
      the nodes of the region feeding a node outside it. */
  lemma ReplaceListFacts(g: Graph, nodes: seq<NodeId>, m: map<NodeId, NodeId>, f: map<NodeId, NodeId>, fetch: seq<NodeId>)
    requires Extractable(g, nodes) && m == NodeMap(g, nodes) && f == FetchMap(g, nodes, m)
    requires fetch == FetchList(f.Keys, |nodes| + 2)
    ensures Distinct(ReplaceList(f, fetch)) && InGraph(g, ReplaceList(f, fetch))
    ensures forall i :: 0 <= i < |fetch| ==> ReplaceList(f, fetch)[i] in Region(g, nodes)
    ensures forall o :: o in Region(g, nodes) ==> (o in ReplaceList(f, fetch) <==> NeedsFetch(g, m, o))
  {
    var r := ReplaceList(f, fetch);
    forall i | 0 <= i < |r| ensures r[i] in m && m[r[i]] == fetch[i] {
      assert fetch[i] in f;
    }
    forall i, j | 0 <= i < j < |r| ensures r[i] != r[j] {
      assert m[r[i]] == fetch[i] < fetch[j] == m[r[j]];
    }
    forall o | o in Region(g, nodes) && NeedsFetch(g, m, o) ensures o in r {
      assert m[o] in f;
      var i :| 0 <= i < |fetch| && fetch[i] == m[o];
      assert OrigOf(g, nodes, m[r[i]]) == r[i];
    }
    forall o | o in r ensures NeedsFetch(g, m, o) {
      var i :| 0 <= i < |r| && r[i] == o;
      assert fetch[i] in f;
    }
  }

  /** The facts about discovery that extraction relies on; with the guard, its
      CHECKs pass as well. */
  lemma DiscoveryExtractable(g: Graph, opts: Options, order: seq<NodeId>, guardConsts: bool)
    requires WellFormed(g) && InGraph(g, order) && Distinct(order)
    ensures Extractable(g, Discovered(g, opts, order, guardConsts))
    ensures guardConsts ==> ExtractionChecks(g, Discovered(g, opts, order, guardConsts))
  {
    ScanDistinct(g, opts, order, guardConsts);
    SentinelsNotDiscovered(g, opts, order, guardConsts);
    ScanClosed(g, opts, order, guardConsts);
    if guardConsts {
      GuardedExtractionSucceeds(g, opts, order);
    }
  }

  /** How far discovery and extraction take the driver: nothing to fold
      (nothing discovered, or nothing feeding back into the graph), the
      abort of a failed CHECK in `GetConstantGraph`, or a plan. */
  datatype PlanOutcome = NoFold | CheckFails | Planned(plan: FoldPlan)

  /** Extraction of a discovered list and the driver's choice of what to
      fetch and replace. */
  function PlanFor(g: Graph, nodes: seq<NodeId>): (p: PlanOutcome)
    requires Extractable(g, nodes) && nodes != []
    ensures p.CheckFails? <==> !ExtractionChecks(g, nodes)
    ensures p.NoFold? <==> ExtractionChecks(g, nodes) && !FeedsBack(g, nodes)
    ensures p.Planned? ==> var q := p.plan;
      && q.nodes == nodes && |q.replace| == |q.fetch| > 0 && Distinct(q.replace) && InGraph(g, q.replace)
      && (forall i :: 0 <= i < |q.replace| ==> q.replace[i] in Region(g, q.nodes))
      && (forall o :: o in Region(g, q.nodes) ==> (o in q.replace <==> NeedsFetch(g, NodeMap(g, q.nodes), o)))
  {
    match GetConstantGraph(g, nodes)
    case None => CheckFails
    case Some(x) =>
      var m := x.nodeMap;
      var f := x.toFetch;
      if f == map[] then
        assert !FeedsBack(g, nodes) by {
          forall e | e in g.edges && e.src in Region(g, nodes) ensures e.dst in Region(g, nodes) {
            assert !NeedsFetch(g, m, e.src);
          }
        }
        NoFold
      else
        var c :| c in f;
        assert NeedsFetch(g, m, f[c]);
        var fetch := FetchList(f.Keys, |nodes| + 2);
        assert c in fetch;
        ReplaceListFacts(g, nodes, m, f, fetch);
        Planned(FoldPlan(nodes, f, fetch, ReplaceList(f, fetch)))
  }

  /** Discovery and extraction, with or without the constant guard. */
  function Plan(opts: Options, g: Graph, order: seq<NodeId>, guardConsts: bool): (p: PlanOutcome)
    requires WellFormed(g) && InGraph(g, order) && Distinct(order)
    ensures var nodes := Discovered(g, opts, order, guardConsts);
      && (p.CheckFails? <==> nodes != [] && !ExtractionChecks(g, nodes))
      && (p.NoFold? <==> nodes == [] || (ExtractionChecks(g, nodes) && !FeedsBack(g, nodes)))
    ensures guardConsts ==> !p.CheckFails?
    ensures p.Planned? ==> var q := p.plan;
      && q.nodes == Discovered(g, opts, order, guardConsts) && q.nodes != []
      && Extractable(g, q.nodes) && |q.replace| == |q.fetch| > 0 && Distinct(q.replace) && InGraph(g, q.replace)
      && (forall i :: 0 <= i < |q.replace| ==> q.replace[i] in Region(g, q.nodes))
      && (forall o :: o in Region(g, q.nodes) ==> (o in q.replace <==> NeedsFetch(g, NodeMap(g, q.nodes), o)))
  {
    var nodes := Discovered(g, opts, order, guardConsts);
    if nodes == [] then NoFold
    else
      DiscoveryExtractable(g, opts, order, guardConsts);
      PlanFor(g, nodes)
  }

  /** The fetch loop's leading successes: the tensor received for each fetch
      position until the first one whose name cannot be read, whose key is
      missing, or whose value is dead. */
  function Fetched(t: Table, tensorName: nat -> Option<string>, n: nat): (r: seq<Tensor>)
    ensures |r| <= n
    ensures forall k :: 0 <= k < |r| ==>
      tensorName(k).Some? && tensorName(k).value in t && r[k] == t[tensorName(k).value]
    ensures |r| < n ==> tensorName(|r|).None? || tensorName(|r|).value !in t
  {
    if n == 0 then []
    else
      var prev := Fetched(t, tensorName, n - 1);
      if |prev| < n - 1 then prev
      else match tensorName(n - 1)
        case None => prev
        case Some(name) =>
          match RendezvousRecv(t, name)
          case Err(_) => prev
          case Ok((v, isDead)) => if isDead then prev else prev + [v]
  }

  /** `to_delete`: the discovered nodes that are not replaced. */
  function ToDelete(nodes: seq<NodeId>, replace: seq<NodeId>): (r: seq<NodeId>)
    ensures forall x :: x in r <==> x in nodes && x !in replace
  {
    if |nodes| == 0 then []
    else ToDelete(nodes[..|nodes| - 1], replace) +
         (if nodes[|nodes| - 1] in replace then [] else [nodes[|nodes| - 1]])
  }

  /** How far the driver gets before the fetch loop: it stops (no device,
      nothing to fold, a failed `FetchOutputs` or executor creation, or a run
      already reported as failed), it aborts in extraction, or it reaches the
      fetch loop with a plan and the tensors received. */
  datatype Run = Stop | Abort | Fetch(plan: FoldPlan, fetched: seq<Tensor>)

  /** The driver up to the fetch loop. The run's status is read before
      waiting for the run, so a failure of the run (a duplicate or dead send,
      say) only stops the driver when it was already reported:
      `failedBeforeWait`. */
  function Execute(opts: Options, g: Graph, order: seq<NodeId>, env: Env, guardConsts: bool): (r: Run)
    requires WellFormed(g) && InGraph(g, order) && Distinct(order)
    ensures r.Abort? <==> env.deviceAvailable && Plan(opts, g, order, guardConsts).CheckFails?
    ensures r.Fetch? <==> && env.deviceAvailable && Plan(opts, g, order, guardConsts).Planned?
                          && env.fetchOutputsOk && env.executorOk && !env.failedBeforeWait
    // the fetch loop reads the tensors the run's sends left in the rendezvous
    ensures r.Fetch? ==>
      && Plan(opts, g, order, guardConsts) == Planned(r.plan)
      && r.fetched == Fetched(ApplySends(map[], env.parseKey, env.sends), env.tensorName, |r.plan.fetch|)
      && |r.fetched| <= |r.plan.fetch|
  {
    if !env.deviceAvailable then Stop
    else match Plan(opts, g, order, guardConsts)
      case NoFold => Stop
      case CheckFails => Abort
      case Planned(p) =>
        if !env.fetchOutputsOk || !env.executorOk || env.failedBeforeWait then Stop
        else
          var table := ApplySends(map[], env.parseKey, env.sends);
          Fetch(p, Fetched(table, env.tensorName, |p.fetch|))
  }

  /** The fetch loop and the deletion after it: the first `|ts|` nodes of
      `replace` are replaced; a loop that stopped early reports whether it
      replaced anything, a complete one deletes the rest of the region. */
  function Finish(g: Graph, nodes: seq<NodeId>, replace: seq<NodeId>, ts: seq<Tensor>): (r: (bool, Graph))
    requires Valid(g) && Distinct(replace) && InGraph(g, replace) && |ts| <= |replace|
    ensures Valid(r.1)
    ensures !r.0 ==> r.1 == g
  {
    var n := |ts|;
    assert Distinct(replace[..n]);
    var partial := ReplaceAll(g, replace[..n], ts);
    if n < |replace| then (n > 0, partial)
    else (true, RemoveNodes(partial, ToDelete(nodes, replace)))
  }

  /** In `Finish`, each node replaced is gone, its constant holds the received
      tensor, and each of its consumers outside the region reads the constant. */
  lemma FinishRewires(g: Graph, nodes: seq<NodeId>, replace: seq<NodeId>, ts: seq<Tensor>, k: nat)
    requires Valid(g) && Distinct(replace) && InGraph(g, replace) && InGraph(g, nodes) && |ts| <= |replace|
    requires k < |ts|
    ensures var r := Finish(g, nodes, replace, ts);
            && r.0
            && replace[k] !in r.1.nodes
            && g.nextId + k in r.1.nodes
            && r.1.nodes[g.nextId + k].cls == Const && r.1.nodes[g.nextId + k].value == Some(ts[k])
            && (forall e :: e in g.edges && e.src == replace[k] && e.dst !in replace && e.dst !in nodes ==>
                  Edge(g.nextId + k, e.srcOutput, e.dst, e.dstInput) in r.1.edges)
  {
    var n := |ts|;
    var ts0 := replace[..n];
    assert Distinct(ts0);
    ReplaceAllNodes(g, ts0, ts);
    ReplaceAllEdges(g, ts0, ts);
    assert ts0[k] == replace[k];
    assert forall x :: x in ts0 ==> x in replace;
    if n == |replace| {
      var del := ToDelete(nodes, replace);
      assert g.nextId + k !in del by {
        if g.nextId + k in nodes { }
      }
      assert replace[k] !in del;
    }
  }

  /** In `Finish`, a loop that stopped early deletes nothing but the nodes it
      replaced. */
  lemma FinishPartialKeeps(g: Graph, nodes: seq<NodeId>, replace: seq<NodeId>, ts: seq<Tensor>)
    requires Valid(g) && Distinct(replace) && InGraph(g, replace) && |ts| < |replace|
    ensures var r := Finish(g, nodes, replace, ts);
            && r.0 == (|ts| > 0)
            && forall x :: x in g.nodes && x !in replace[..|ts|] ==> x in r.1.nodes && r.1.nodes[x] == g.nodes[x]
  {
    assert Distinct(replace[..|ts|]);
  }

  /** In `Finish`, a complete loop deletes the whole region and keeps the rest. */
  lemma FinishCompleteRemoves(g: Graph, nodes: seq<NodeId>, replace: seq<NodeId>, ts: seq<Tensor>)
    requires Valid(g) && Distinct(replace) && InGraph(g, replace) && |ts| == |replace|
    ensures var r := Finish(g, nodes, replace, ts);
            && r.0
            && (forall x :: x in nodes ==> x !in r.1.nodes)
            && (forall x :: x in g.nodes && x !in nodes && x !in replace ==> x in r.1.nodes && r.1.nodes[x] == g.nodes[x])
            && (forall e :: e in g.edges && e.src !in nodes && e.dst !in nodes && e.src !in replace && e.dst !in replace ==>
                  e in r.1.edges)
  {
    assert replace[..|ts|] == replace;
    ReplaceAllNodes(g, replace, ts);
    ReplaceAllEdges(g, replace, ts);
  }

  /** `DoConstantFolding`: whether the graph changed, and the graph; `Err`
      stands for the process abort of a failed CHECK. `guardConsts` is false
      for the pass as written. */
  function DoConstantFolding(opts: Options, g: Graph, order: seq<NodeId>, env: Env, guardConsts: bool): (r: Result<(bool, Graph), string>)
    requires WellFormed(g) && InGraph(g, order) && Distinct(order)
    ensures r.Err? <==> Execute(opts, g, order, env, guardConsts).Abort?
    // stopping before the fetch loop reports no change and leaves the graph alone
    ensures Execute(opts, g, order, env, guardConsts).Stop? ==> r == Ok((false, g))
    ensures r.Ok? ==> Valid(r.value.1)
    // reporting no change means the graph is untouched
    ensures r.Ok? && !r.value.0 ==> r.value.1 == g
  {
    match Execute(opts, g, order, env, guardConsts)
    case Stop => Ok((false, g))
    case Abort => Err("Check failed: node_map.count(in) > 0")
    case Fetch(p, ts) => Ok(Finish(g, p.nodes, p.replace, ts))
  }

  /** With the guard, the pass never aborts. */
  lemma GuardedFoldingNeverAborts(opts: Options, g: Graph, order: seq<NodeId>, env: Env)
    requires WellFormed(g) && InGraph(g, order) && Distinct(order)
    ensures DoConstantFolding(opts, g, order, env, true).Ok?
  {
  }

  /** The guard changes nothing on a graph where the pass as written does
      not abort. */
  lemma GuardOnlyPreventsAborts(opts: Options, g: Graph, order: seq<NodeId>, env: Env)
    requires WellFormed(g) && InGraph(g, order) && Distinct(order)
    requires DoConstantFolding(opts, g, order, env, false).Ok?
    ensures DoConstantFolding(opts, g, order, env, true) == DoConstantFolding(opts, g, order, env, false)
  {
    if env.deviceAvailable {
      assert !Plan(opts, g, order, false).CheckFails?;
      assert ExtractionChecks(g, Discovered(g, opts, order, false));
      GuardedDiscoveryAgrees(g, opts, order);
      assert Plan(opts, g, order, true) == Plan(opts, g, order, false);
    }
  }

  /** As written, the pass aborts on the counterexample graph whenever a
      device is found. */
  lemma CounterexampleFoldingAborts(env: Env)
    requires env.deviceAvailable
    ensures Distinct([2, 3, 4]) && InGraph(CounterexampleGraph(), [2, 3, 4])
    ensures DoConstantFolding(Options(None), CounterexampleGraph(), [2, 3, 4], env, false).Err?
  {
    UnguardedExtractionAborts();
  }

  /** A run that reaches the fetch loop is the fetch loop and the deletion
      on its plan and the tensors received. */
  lemma FoldingFinishes(opts: Options, g: Graph, order: seq<NodeId>, env: Env, guardConsts: bool)
    requires WellFormed(g) && InGraph(g, order) && Distinct(order)
    requires Execute(opts, g, order, env, guardConsts).Fetch?
    ensures var run := Execute(opts, g, order, env, guardConsts);
      && Valid(g) && Distinct(run.plan.replace) && InGraph(g, run.plan.replace) && InGraph(g, run.plan.nodes)
      && |run.fetched| <= |run.plan.replace|
      && DoConstantFolding(opts, g, order, env, guardConsts) == Ok(Finish(g, run.plan.nodes, run.plan.replace, run.fetched))
  {
  }

  /** Each node replaced is gone and its constant holds the received tensor;
      each consumer outside the extracted region now reads that constant, on
      the same ports. This holds for a partial run as for a complete one. */
  lemma ReplacedNodesBecomeConstants(opts: Options, g: Graph, order: seq<NodeId>, env: Env, guardConsts: bool, k: nat)
    requires WellFormed(g) && InGraph(g, order) && Distinct(order)
    requires Execute(opts, g, order, env, guardConsts).Fetch? && k < |Execute(opts, g, order, env, guardConsts).fetched|
    ensures var run := Execute(opts, g, order, env, guardConsts);
            var (p, ts) := (run.plan, run.fetched);
            var r := DoConstantFolding(opts, g, order, env, guardConsts).value;
            && r.0
            && p.replace[k] !in r.1.nodes
            && g.nextId + k in r.1.nodes
            && r.1.nodes[g.nextId + k].cls == Const && r.1.nodes[g.nextId + k].value == Some(ts[k])
            && (forall e :: e in g.edges && e.src == p.replace[k] && e.dst !in Region(g, p.nodes) ==>
                  Edge(g.nextId + k, e.srcOutput, e.dst, e.dstInput) in r.1.edges)
  {
    var run := Execute(opts, g, order, env, guardConsts);
    FoldingFinishes(opts, g, order, env, guardConsts);
    FinishRewires(g, run.plan.nodes, run.plan.replace, run.fetched, k);
    assert forall x :: x in run.plan.replace ==> x in Region(g, run.plan.nodes);
  }

  /** A run that stops in the fetch loop deletes no discovered node it has
      not replaced. */
  lemma PartialRunKeepsRegion(opts: Options, g: Graph, order: seq<NodeId>, env: Env, guardConsts: bool)
    requires WellFormed(g) && InGraph(g, order) && Distinct(order)
    requires Execute(opts, g, order, env, guardConsts).Fetch?
    requires |Execute(opts, g, order, env, guardConsts).fetched| < |Execute(opts, g, order, env, guardConsts).plan.fetch|
    ensures var run := Execute(opts, g, order, env, guardConsts);
            var (p, ts) := (run.plan, run.fetched);
            var r := DoConstantFolding(opts, g, order, env, guardConsts).value;
            && r.0 == (|ts| > 0)
            && forall x :: x in p.nodes && x !in p.replace[..|ts|] ==> x in r.1.nodes && r.1.nodes[x] == g.nodes[x]
  {
    var run := Execute(opts, g, order, env, guardConsts);
    FoldingFinishes(opts, g, order, env, guardConsts);
    FinishPartialKeeps(g, run.plan.nodes, run.plan.replace, run.fetched);
  }

  /** A complete run leaves no discovered node behind, and leaves every node
      and edge outside the region and the replaced nodes as it was. */
  lemma CompleteRunRemovesRegion(opts: Options, g: Graph, order: seq<NodeId>, env: Env, guardConsts: bool)
    requires WellFormed(g) && InGraph(g, order) && Distinct(order)
    requires Execute(opts, g, order, env, guardConsts).Fetch?
    requires |Execute(opts, g, order, env, guardConsts).fetched| == |Execute(opts, g, order, env, guardConsts).plan.fetch|
    ensures var run := Execute(opts, g, order, env, guardConsts);
            var (p, ts) := (run.plan, run.fetched);
            var r := DoConstantFolding(opts, g, order, env, guardConsts).value;
            && r.0
            && (forall x :: x in p.nodes ==> x !in r.1.nodes)
            && (forall x :: x in g.nodes && x !in p.nodes && x !in p.replace ==> x in r.1.nodes && r.1.nodes[x] == g.nodes[x])
            && (forall e :: e in g.edges && e.src !in p.nodes && e.dst !in p.nodes && e.src !in p.replace && e.dst !in p.replace ==>
                  e in r.1.edges)
  {
    var run := Execute(opts, g, order, env, guardConsts);
    FoldingFinishes(opts, g, order, env, guardConsts);
    FinishCompleteRemoves(g, run.plan.nodes, run.plan.replace, run.fetched);
  }
}
