/**
 * The execution order of a run: a depth-first traversal from every node that
 * no edge enters, in node-list order, where each node is put in front of the
 * order after all of its successors (reverse postorder). A `visited` set of
 * ids makes every node count once and cuts cycles.
 *
 * The functions below are the specification; ComputeOrder and VisitNode are
 * the step-by-step procedure (dictionaries filled in loops, a recursive visit
 * that threads `visited` and `order`) proved to compute the same result.
 */
module Scheduler {
  import opened Wrappers
  import opened Graph

  /** The two ways the traversal itself throws, ending the run in its outer catch. */
  datatype Fault =
    | UnknownSource   // an edge leaves an id that is no node: `adj[e.from]` is undefined
    | DanglingTarget  // a visited node has an edge to an id that is no node: `visit(undefined)`

  /** The text of the JavaScript TypeError each fault raises (V8 wording). */
  function FaultMessage(f: Fault): string
  {
    match f
    case UnknownSource => "Cannot read properties of undefined (reading 'push')"
    case DanglingTarget => "Cannot read properties of undefined (reading 'id')"
  }

  /** The traversal state: the ids marked visited and the order built so far. */
  datatype Walk = Walk(visited: set<Id>, order: seq<Node>)

  lemma SubsetCard<T>(a: set<T>, b: set<T>)
    requires a <= b
    ensures |a| <= |b|
  {
    assert b == a + (b - a);
  }

  /** Marking a new node visited shrinks the set of unvisited node ids. */
  lemma FewerUnvisited(nodes: seq<Node>, v: set<Id>, x: Id)
    requires x in Ids(nodes) && x !in v
    ensures |Ids(nodes) - (v + {x})| < |Ids(nodes) - v|
  {
    var before, after := Ids(nodes) - v, Ids(nodes) - (v + {x});
    assert before == after + {x};
  }

  /** `visit(n)`: unless `n` is visited, mark it, visit its successors in edge
      order, then put `n` in front of the order. */
  function Visit(nodes: seq<Node>, edges: seq<Edge>, n: Node, w: Walk): (r: Result<Walk, Fault>)
    requires n in nodes && w.visited <= Ids(nodes)
    ensures r.Ok? ==> w.visited + {n.id} <= r.value.visited <= Ids(nodes)
    decreases |Ids(nodes) - w.visited|, 0, 0
  {
    if n.id in w.visited then Ok(w)
    else
      FewerUnvisited(nodes, w.visited, n.id);
      match VisitAll(nodes, edges, Successors(edges, n.id), Walk(w.visited + {n.id}, w.order))
      case Err(f) => Err(f)
      case Ok(done) => Ok(Walk(done.visited, [n] + done.order))
  }

  /** Visits the successors of a node in edge order, looking each one up by id;
      a successor that is no node is visited as `undefined` and throws. */
  function VisitAll(nodes: seq<Node>, edges: seq<Edge>, targets: seq<Id>, w: Walk): (r: Result<Walk, Fault>)
    requires w.visited <= Ids(nodes)
    ensures r.Ok? ==> w.visited <= r.value.visited <= Ids(nodes)
    ensures r.Ok? ==> forall t :: t in targets ==> t in r.value.visited
    decreases |Ids(nodes) - w.visited|, 1, |targets|
  {
    if targets == [] then Ok(w)
    else
      match Find(nodes, targets[0])
      case None => Err(DanglingTarget)
      case Some(m) =>
        match Visit(nodes, edges, m, w)
        case Err(f) => Err(f)
        case Ok(w1) =>
          SubsetCard(Ids(nodes) - w1.visited, Ids(nodes) - w.visited);
          var r := VisitAll(nodes, edges, targets[1..], w1);
          assert r.Ok? ==> forall t :: t in targets ==> t == targets[0] || t in targets[1..];
          r
  }

  /** Visits the roots one after another, in node-list order. */
  function VisitRoots(nodes: seq<Node>, edges: seq<Edge>, roots: seq<Node>, w: Walk): (r: Result<Walk, Fault>)
    requires forall n :: n in roots ==> n in nodes
    requires w.visited <= Ids(nodes)
    ensures r.Ok? ==> w.visited <= r.value.visited <= Ids(nodes)
    ensures r.Ok? ==> forall n :: n in roots ==> n.id in r.value.visited
    decreases |roots|
  {
    if roots == [] then Ok(w)
    else
      match Visit(nodes, edges, roots[0], w)
      case Err(f) => Err(f)
      case Ok(w1) =>
        var r := VisitRoots(nodes, edges, roots[1..], w1);
        assert r.Ok? ==> forall n :: n in roots ==> n == roots[0] || n in roots[1..];
        r
  }

  /** The execution order of a diagram, or the fault that aborts the traversal. */
  function Order(nodes: seq<Node>, edges: seq<Edge>): (r: Result<seq<Node>, Fault>)
    ensures r == Err(UnknownSource) <==> !SourcesExist(nodes, edges)
  {
    if !SourcesExist(nodes, edges) then Err(UnknownSource)
    else
      match VisitRoots(nodes, edges, Roots(nodes, edges), Walk({}, []))
      case Err(f) =>
        assert f == DanglingTarget by { VisitRootsFault(nodes, edges, Roots(nodes, edges), Walk({}, [])); }
        Err(f)
      case Ok(w) => Ok(w.order)
  }

  /** The traversal itself can only fail on a dangling target. */
  lemma {:induction false} VisitFault(nodes: seq<Node>, edges: seq<Edge>, n: Node, w: Walk)
    requires n in nodes && w.visited <= Ids(nodes)
    ensures Visit(nodes, edges, n, w) != Err(UnknownSource)
    decreases |Ids(nodes) - w.visited|, 0, 0
  {
    if n.id !in w.visited {
      FewerUnvisited(nodes, w.visited, n.id);
      VisitAllFault(nodes, edges, Successors(edges, n.id), Walk(w.visited + {n.id}, w.order));
    }
  }

  lemma {:induction false} VisitAllFault(nodes: seq<Node>, edges: seq<Edge>, targets: seq<Id>, w: Walk)
    requires w.visited <= Ids(nodes)
    ensures VisitAll(nodes, edges, targets, w) != Err(UnknownSource)
    decreases |Ids(nodes) - w.visited|, 1, |targets|
  {
    if targets != [] {
      var m := Find(nodes, targets[0]);
      if m.Some? {
        VisitFault(nodes, edges, m.value, w);
        var r1 := Visit(nodes, edges, m.value, w);
        if r1.Ok? {
          SubsetCard(Ids(nodes) - r1.value.visited, Ids(nodes) - w.visited);
          VisitAllFault(nodes, edges, targets[1..], r1.value);
        }
      }
    }
  }

  lemma {:induction false} VisitRootsFault(nodes: seq<Node>, edges: seq<Edge>, roots: seq<Node>, w: Walk)
    requires forall n :: n in roots ==> n in nodes
    requires w.visited <= Ids(nodes)
    ensures VisitRoots(nodes, edges, roots, w) != Err(UnknownSource)
    decreases |roots|
  {
    if roots != [] {
      VisitFault(nodes, edges, roots[0], w);
      var r1 := Visit(nodes, edges, roots[0], w);
      if r1.Ok? {
        VisitRootsFault(nodes, edges, roots[1..], r1.value);
      }
    }
  }

  // ---------------------------------------------------------------------------
  // The procedure as the editor runs it.

  /** The adjacency dictionary holds, for every node id, that node's successors. */
  ghost predicate IsAdjacency(nodes: seq<Node>, edges: seq<Edge>, adj: map<Id, seq<Id>>)
  {
    adj.Keys == Ids(nodes) && forall x :: x in adj ==> adj[x] == Successors(edges, x)
  }

  /** `indeg[x] || 0`: the count the dictionary holds for `x`, zero when it holds none. */
  function CountOf(indeg: map<Id, nat>, x: Id): nat
  {
    if x in indeg then indeg[x] else 0
  }

  /** The indegree dictionary holds, for every node id, the number of edges entering it. */
  ghost predicate IsIndegree(nodes: seq<Node>, edges: seq<Edge>, indeg: map<Id, nat>)
  {
    Ids(nodes) <= indeg.Keys && forall x :: CountOf(indeg, x) == InDegree(edges, x)
  }

  /** For every node id, an empty successor list and a count of zero. */
  method InitTables(nodes: seq<Node>) returns (adj: map<Id, seq<Id>>, indeg: map<Id, nat>)
    ensures adj.Keys == Ids(nodes) && indeg.Keys == Ids(nodes)
    ensures forall x :: x in adj ==> adj[x] == [] && indeg[x] == 0
  {
    adj, indeg := map[], map[];
    for i := 0 to |nodes|
      invariant adj.Keys == Ids(nodes[..i]) && indeg.Keys == Ids(nodes[..i])
      invariant forall x :: x in adj ==> adj[x] == [] && indeg[x] == 0
    {
      assert Ids(nodes[..i + 1]) == Ids(nodes[..i]) + {nodes[i].id} by {
        assert nodes[..i + 1] == nodes[..i] + [nodes[i]];
      }
      adj := adj[nodes[i].id := []];
      indeg := indeg[nodes[i].id := 0];
    }
    assert nodes[..|nodes|] == nodes;
  }

  /** One more edge adds its target to its source's successors and one to its target's indegree. */
  lemma TablesStep(edges: seq<Edge>, j: nat, x: Id)
    requires j < |edges|
    ensures Successors(edges[..j + 1], x) == Successors(edges[..j], x) + (if edges[j].from == x then [edges[j].to] else [])
    ensures InDegree(edges[..j + 1], x) == InDegree(edges[..j], x) + (if edges[j].to == x then 1 else 0)
  {
    assert edges[..j + 1][..j] == edges[..j];
  }

  /** `adj[e.from].push(e.to)` keeps the adjacency dictionary in step with one more edge. */
  lemma PushKeepsAdjacency(edges: seq<Edge>, j: nat, adj: map<Id, seq<Id>>)
    requires j < |edges| && edges[j].from in adj
    requires forall x :: x in adj ==> adj[x] == Successors(edges[..j], x)
    ensures var e := edges[j];
            var adj' := adj[e.from := adj[e.from] + [e.to]];
            forall x :: x in adj' ==> adj'[x] == Successors(edges[..j + 1], x)
  {
    var e := edges[j];
    var adj' := adj[e.from := adj[e.from] + [e.to]];
    forall x | x in adj' ensures adj'[x] == Successors(edges[..j + 1], x) {
      TablesStep(edges, j, x);
    }
  }

  /** `indeg[e.to] = (indeg[e.to] || 0) + 1` keeps the indegree dictionary in step with one more edge. */
  lemma CountKeepsIndegree(edges: seq<Edge>, j: nat, indeg: map<Id, nat>)
    requires j < |edges|
    requires forall x :: CountOf(indeg, x) == InDegree(edges[..j], x)
    ensures var e := edges[j];
            var indeg' := indeg[e.to := CountOf(indeg, e.to) + 1];
            forall x :: CountOf(indeg', x) == InDegree(edges[..j + 1], x)
  {
    var e := edges[j];
    var indeg' := indeg[e.to := CountOf(indeg, e.to) + 1];
    forall x ensures CountOf(indeg', x) == InDegree(edges[..j + 1], x) {
      TablesStep(edges, j, x);
    }
  }

  lemma SourcesExistStep(nodes: seq<Node>, edges: seq<Edge>, j: nat)
    requires j < |edges| && SourcesExist(nodes, edges[..j]) && edges[j].from in Ids(nodes)
    ensures SourcesExist(nodes, edges[..j + 1])
  {
    assert edges[..j + 1] == edges[..j] + [edges[j]];
  }

  /** Adds each edge's target to its source's successors and counts it against
      its target, starting from zero for an id with no count yet; the first edge
      whose source is no node throws. */
  method AddEdges(nodes: seq<Node>, edges: seq<Edge>, adj0: map<Id, seq<Id>>, indeg0: map<Id, nat>)
    returns (ok: bool, adj: map<Id, seq<Id>>, indeg: map<Id, nat>)
    requires adj0.Keys == Ids(nodes) && indeg0.Keys == Ids(nodes)
    requires forall x :: x in adj0 ==> adj0[x] == [] && indeg0[x] == 0
    ensures ok <==> SourcesExist(nodes, edges)
    ensures ok ==> IsAdjacency(nodes, edges, adj) && IsIndegree(nodes, edges, indeg)
  {
    adj, indeg := adj0, indeg0;
    for j := 0 to |edges|
      invariant adj.Keys == Ids(nodes) && Ids(nodes) <= indeg.Keys
      invariant forall x :: x in adj ==> adj[x] == Successors(edges[..j], x)
      invariant forall x :: CountOf(indeg, x) == InDegree(edges[..j], x)
      invariant SourcesExist(nodes, edges[..j])
    {
      var e := edges[j];
      if e.from !in adj {
        assert e in edges;
        return false, adj, indeg;
      }
      PushKeepsAdjacency(edges, j, adj);
      CountKeepsIndegree(edges, j, indeg);
      SourcesExistStep(nodes, edges, j);
      adj := adj[e.from := adj[e.from] + [e.to]];
      indeg := indeg[e.to := CountOf(indeg, e.to) + 1];
    }
    assert edges[..|edges|] == edges;
    return true, adj, indeg;
  }

  /** Builds the dictionaries, collects the roots (`indeg[n.id] === 0`) and
      runs the visit from each root in turn. */
  method ComputeOrder(nodes: seq<Node>, edges: seq<Edge>) returns (r: Result<seq<Node>, Fault>)
    ensures r == Order(nodes, edges)
  {
    var adj0, indeg0 := InitTables(nodes);
    var ok, adj, indeg := AddEdges(nodes, edges, adj0, indeg0);
    if !ok {
      return Err(UnknownSource);
    }
    var roots := Filter(nodes, (n: Node) => n.id in indeg && indeg[n.id] == 0);
    FilterAgrees(nodes, (n: Node) => n.id in indeg && indeg[n.id] == 0, (n: Node) => InDegree(edges, n.id) == 0);
    assert roots == Roots(nodes, edges);
    var w := Walk({}, []);
    for i := 0 to |roots|
      invariant w.visited <= Ids(nodes)
      invariant VisitRoots(nodes, edges, roots, Walk({}, [])) == VisitRoots(nodes, edges, roots[i..], w)
    {
      assert roots[i..][0] == roots[i] && roots[i..][1..] == roots[i + 1..];
      var res := VisitNode(nodes, edges, adj, roots[i], w);
      if res.Err? {
        return Err(res.error);
      }
      w := res.value;
    }
    return Ok(w.order);
  }

  /** The recursive `visit`, over the adjacency dictionary. */
  method VisitNode(nodes: seq<Node>, edges: seq<Edge>, adj: map<Id, seq<Id>>, n: Node, w: Walk)
    returns (r: Result<Walk, Fault>)
    requires IsAdjacency(nodes, edges, adj)
    requires n in nodes && w.visited <= Ids(nodes)
    ensures r == Visit(nodes, edges, n, w)
    decreases |Ids(nodes) - w.visited|, 0
  {
    if n.id in w.visited {
      return Ok(w);
    }
    FewerUnvisited(nodes, w.visited, n.id);
    var start := Walk(w.visited + {n.id}, w.order);
    var cur := start;
    var targets := adj[n.id];
    for k := 0 to |targets|
      invariant start.visited <= cur.visited <= Ids(nodes)
      invariant VisitAll(nodes, edges, targets, start) == VisitAll(nodes, edges, targets[k..], cur)
    {
      assert targets[k..][0] == targets[k] && targets[k..][1..] == targets[k + 1..];
      var m := Find(nodes, targets[k]);
      if m.None? {
        return Err(DanglingTarget);
      }
      SubsetCard(Ids(nodes) - cur.visited, Ids(nodes) - start.visited);
      var sub := VisitNode(nodes, edges, adj, m.value, cur);
      if sub.Err? {
        return Err(sub.error);
      }
      SubsetCard(Ids(nodes) - sub.value.visited, Ids(nodes) - cur.visited);
      cur := sub.value;
    }
    return Ok(Walk(cur.visited, [n] + cur.order));
  }
}
