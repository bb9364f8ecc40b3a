/**
 * What the execution order promises: every node at most once, exactly the
 * nodes reachable from a root, the node list reversed when there are no
 * edges, nothing when every node has an incoming edge, and every edge's source
 * before its target when the diagram is acyclic and its edges name nodes.
 */
module SchedulerProofs {
  import opened Wrappers
  import opened Graph
  import opened Scheduler

  /** No id occurs twice. */
  ghost predicate Distinct(o: seq<Node>)
  {
    forall i, j :: 0 <= i < j < |o| ==> o[i].id != o[j].id
  }

  /** Every edge ends at a node of the list. */
  predicate TargetsExist(nodes: seq<Node>, edges: seq<Edge>)
  {
    forall e :: e in edges ==> e.to in Ids(nodes)
  }

  /**
   * The invariant of the traversal. `stack` holds the ids whose visit has
   * started and not finished; every other visited id is in the order. A
   * finished node's successors are all visited, and everything visited is
   * reachable from a root.
   */
  ghost predicate Inv(nodes: seq<Node>, edges: seq<Edge>, w: Walk, stack: set<Id>)
  {
    && (forall n :: n in w.order ==> n in nodes)
    && Distinct(w.order)
    && w.visited == Ids(w.order) + stack
    && Ids(w.order) !! stack
    && (forall x, t :: x in Ids(w.order) && Edge(x, t) in edges ==> t in w.visited)
    && (forall x :: x in w.visited ==> Reachable(nodes, edges, x))
  }

  /** Marking `n` visited puts it on the stack. */
  lemma EnterKeepsInv(nodes: seq<Node>, edges: seq<Edge>, n: Node, w: Walk, stack: set<Id>)
    requires Inv(nodes, edges, w, stack)
    requires n.id !in w.visited && Reachable(nodes, edges, n.id)
    ensures Inv(nodes, edges, Walk(w.visited + {n.id}, w.order), stack + {n.id})
  {
  }

  lemma DistinctCons(n: Node, o: seq<Node>)
    requires Distinct(o) && n.id !in Ids(o)
    ensures Distinct([n] + o)
  {
    var o' := [n] + o;
    forall i, j | 0 <= i < j < |o'| ensures o'[i].id != o'[j].id {
      assert o'[j] == o[j - 1];
      if i == 0 {
        assert o'[j].id in Ids(o);
      } else {
        assert o'[i] == o[i - 1];
      }
    }
  }

  /** Putting `n` in front of the order once its successors are visited takes it off the stack. */
  lemma FinishKeepsInv(nodes: seq<Node>, edges: seq<Edge>, n: Node, done: Walk, stack: set<Id>)
    requires Inv(nodes, edges, done, stack + {n.id})
    requires n in nodes && n.id !in stack
    requires forall t :: t in Successors(edges, n.id) ==> t in done.visited
    ensures Inv(nodes, edges, Walk(done.visited, [n] + done.order), stack)
  {
    var o := [n] + done.order;
    IdsCons(n, done.order);
    DistinctCons(n, done.order);
    assert forall m :: m in o ==> m in nodes by {
      assert forall m :: m in o <==> m == n || m in done.order;
    }
    forall x, t | x in Ids(o) && Edge(x, t) in edges ensures t in done.visited {
      if x == n.id {
        SuccessorsMembers(edges, n.id, t);
      }
    }
  }

  /** A visit keeps the invariant, and cannot fail when every edge ends at a node. */
  lemma {:induction false} VisitSound(nodes: seq<Node>, edges: seq<Edge>, n: Node, w: Walk, stack: set<Id>)
    requires n in nodes && w.visited <= Ids(nodes)
    requires Inv(nodes, edges, w, stack) && Reachable(nodes, edges, n.id)
    ensures Visit(nodes, edges, n, w).Ok? ==> Inv(nodes, edges, Visit(nodes, edges, n, w).value, stack)
    ensures TargetsExist(nodes, edges) ==> Visit(nodes, edges, n, w).Ok?
    decreases |Ids(nodes) - w.visited|, 0, 0
  {
    if n.id !in w.visited {
      FewerUnvisited(nodes, w.visited, n.id);
      var w0 := Walk(w.visited + {n.id}, w.order);
      EnterKeepsInv(nodes, edges, n, w, stack);
      var targets := Successors(edges, n.id);
      forall t | t in targets ensures Reachable(nodes, edges, t) && (TargetsExist(nodes, edges) ==> t in Ids(nodes)) {
        SuccessorsMembers(edges, n.id, t);
        ReachableStep(nodes, edges, n.id, t);
      }
      VisitAllSound(nodes, edges, targets, w0, stack + {n.id});
      var r := VisitAll(nodes, edges, targets, w0);
      if r.Ok? {
        FinishKeepsInv(nodes, edges, n, r.value, stack);
      }
    }
  }

  lemma {:induction false} VisitAllSound(nodes: seq<Node>, edges: seq<Edge>, targets: seq<Id>, w: Walk, stack: set<Id>)
    requires w.visited <= Ids(nodes)
    requires Inv(nodes, edges, w, stack)
    requires forall t :: t in targets ==> Reachable(nodes, edges, t)
    ensures VisitAll(nodes, edges, targets, w).Ok? ==> Inv(nodes, edges, VisitAll(nodes, edges, targets, w).value, stack)
    ensures TargetsExist(nodes, edges) && (forall t :: t in targets ==> t in Ids(nodes)) ==>
              VisitAll(nodes, edges, targets, w).Ok?
    decreases |Ids(nodes) - w.visited|, 1, |targets|
  {
    if targets != [] {
      var m := Find(nodes, targets[0]);
      if m.Some? {
        VisitSound(nodes, edges, m.value, w, stack);
        var r1 := Visit(nodes, edges, m.value, w);
        if r1.Ok? {
          SubsetCard(Ids(nodes) - r1.value.visited, Ids(nodes) - w.visited);
          VisitAllSound(nodes, edges, targets[1..], r1.value, stack);
        }
      }
    }
  }

  lemma {:induction false} VisitRootsSound(nodes: seq<Node>, edges: seq<Edge>, roots: seq<Node>, w: Walk)
    requires forall n :: n in roots ==> n in nodes && InDegree(edges, n.id) == 0
    requires w.visited <= Ids(nodes) && Inv(nodes, edges, w, {})
    ensures VisitRoots(nodes, edges, roots, w).Ok? ==> Inv(nodes, edges, VisitRoots(nodes, edges, roots, w).value, {})
    ensures TargetsExist(nodes, edges) ==> VisitRoots(nodes, edges, roots, w).Ok?
    decreases |roots|
  {
    if roots != [] {
      RootReachable(nodes, edges, roots[0]);
      VisitSound(nodes, edges, roots[0], w, {});
      var r1 := Visit(nodes, edges, roots[0], w);
      if r1.Ok? {
        VisitRootsSound(nodes, edges, roots[1..], r1.value);
      }
    }
  }

  lemma EmptyWalkInv(nodes: seq<Node>, edges: seq<Edge>)
    ensures Inv(nodes, edges, Walk({}, []), {})
  {
    assert Ids([]) == {};
  }

  /**
   * A computed order holds nodes of the diagram, each id at most once, and
   * holds exactly the ids reachable from a node no edge enters.
   */
  lemma OrderIsReachableSet(nodes: seq<Node>, edges: seq<Edge>)
    requires Order(nodes, edges).Ok?
    ensures var o := Order(nodes, edges).value;
            && (forall n :: n in o ==> n in nodes)
            && (forall i, j :: 0 <= i < j < |o| ==> o[i].id != o[j].id)
            && (forall x :: x in Ids(o) <==> Reachable(nodes, edges, x))
  {
    var roots := Roots(nodes, edges);
    EmptyWalkInv(nodes, edges);
    VisitRootsSound(nodes, edges, roots, Walk({}, []));
    var w := VisitRoots(nodes, edges, roots, Walk({}, [])).value;
    assert w.visited == Ids(w.order);
    forall x | Reachable(nodes, edges, x) ensures x in Ids(w.order) {
      ClosedSetHoldsReachable(nodes, edges, Ids(w.order), x);
    }
  }

  /** The traversal fails only on an edge that names no node. */
  lemma OrderFailsOnlyOnMissingNodes(nodes: seq<Node>, edges: seq<Edge>)
    ensures Order(nodes, edges) == Err(UnknownSource) <==> !SourcesExist(nodes, edges)
    ensures Order(nodes, edges).Err? ==> !EdgesValid(nodes, edges)
  {
    if EdgesValid(nodes, edges) {
      EmptyWalkInv(nodes, edges);
      VisitRootsSound(nodes, edges, Roots(nodes, edges), Walk({}, []));
    }
  }

  // ---------------------------------------------------------------------------
  // No edges: every node is a root, and each is put in front in turn.

  function Reversed<T>(s: seq<T>): (r: seq<T>)
    ensures |r| == |s|
    ensures forall i :: 0 <= i < |s| ==> r[i] == s[|s| - 1 - i]
  {
    if s == [] then [] else Reversed(s[1..]) + [s[0]]
  }

  /** The tail of a list with distinct ids has distinct ids, none of them the head's. */
  lemma DistinctTail(rs: seq<Node>)
    requires rs != [] && Distinct(rs)
    ensures Distinct(rs[1..]) && rs[0].id !in Ids(rs[1..])
  {
    forall m | m in rs[1..] ensures m.id != rs[0].id {
      var k :| 0 <= k < |rs[1..]| && rs[1..][k] == m;
      assert rs[k + 1] == m;
    }
    forall i, j | 0 <= i < j < |rs[1..]| ensures rs[1..][i].id != rs[1..][j].id {
      assert rs[1..][i] == rs[i + 1] && rs[1..][j] == rs[j + 1];
    }
  }

  /** Without edges, visiting an unvisited node puts just that node in front of the order. */
  lemma NoEdgesVisit(nodes: seq<Node>, n: Node, v: set<Id>, o: seq<Node>)
    requires n in nodes && v <= Ids(nodes) && n.id !in v
    ensures Visit(nodes, [], n, Walk(v, o)) == Ok(Walk(v + {n.id}, [n] + o))
  {
    assert Successors([], n.id) == [];
  }

  lemma {:induction false} NoEdgesVisitRoots(nodes: seq<Node>, rs: seq<Node>, v: set<Id>, o: seq<Node>)
    requires forall n :: n in rs ==> n in nodes
    requires v <= Ids(nodes) && Ids(rs) !! v
    requires Distinct(rs)
    ensures VisitRoots(nodes, [], rs, Walk(v, o)) == Ok(Walk(v + Ids(rs), Reversed(rs) + o))
    decreases |rs|
  {
    if rs == [] {
      assert Ids(rs) == {} && Reversed(rs) + o == o;
      assert v + Ids(rs) == v;
    } else {
      var n, tail := rs[0], rs[1..];
      IdsCons(n, tail);
      assert rs == [n] + tail;
      DistinctTail(rs);
      NoEdgesVisit(nodes, n, v, o);
      NoEdgesVisitRoots(nodes, tail, v + {n.id}, [n] + o);
      assert Reversed(rs) + o == Reversed(tail) + ([n] + o);
      assert v + Ids(rs) == v + {n.id} + Ids(tail);
    }
  }

  lemma FilterAll<T(!new)>(s: seq<T>, p: T -> bool)
    requires forall x :: x in s ==> p(x)
    ensures Filter(s, p) == s
  {
    if s != [] {
      FilterAll(s[1..], p);
    }
  }

  /** Without edges, and with distinct ids, the order is the node list reversed. */
  lemma NoEdgesOrderIsReversed(nodes: seq<Node>)
    requires Distinct(nodes)
    ensures Order(nodes, []) == Ok(Reversed(nodes))
  {
    FilterAll(nodes, (n: Node) => InDegree([], n.id) == 0);
    assert Roots(nodes, []) == nodes;
    NoEdgesVisitRoots(nodes, nodes, {}, []);
    assert SourcesExist(nodes, []);
    assert Reversed(nodes) + [] == Reversed(nodes);
  }

  /** When every node has an incoming edge (a pure cycle, say) nothing is scheduled. */
  lemma NoRootsEmptyOrder(nodes: seq<Node>, edges: seq<Edge>)
    requires SourcesExist(nodes, edges)
    requires forall n :: n in nodes ==> exists e :: e in edges && e.to == n.id
    ensures Order(nodes, edges) == Ok([])
  {
    var roots := Roots(nodes, edges);
    if roots != [] {
      var n := roots[0];
      InDegreeZero(edges, n.id);
      assert false;
    }
  }

  // ---------------------------------------------------------------------------
  // Acyclic diagrams: every edge points forward in the order.

  /** Every edge out of a node of the order leads to a later node of the order. */
  ghost predicate Forward(edges: seq<Edge>, o: seq<Node>)
  {
    forall i, t :: 0 <= i < |o| && Edge(o[i].id, t) in edges ==> exists j :: i < j < |o| && o[j].id == t
  }

  lemma PrependForward(edges: seq<Edge>, n: Node, o: seq<Node>)
    requires Forward(edges, o)
    requires forall t :: Edge(n.id, t) in edges ==> t in Ids(o)
    ensures Forward(edges, [n] + o)
  {
    var o' := [n] + o;
    forall i, t | 0 <= i < |o'| && Edge(o'[i].id, t) in edges
      ensures exists j :: i < j < |o'| && o'[j].id == t
    {
      if i == 0 {
        assert t in Ids(o);
        var k :| 0 <= k < |o| && o[k].id == t;
        assert o'[k + 1] == o[k];
      } else {
        assert o'[i] == o[i - 1];
        var k :| i - 1 < k < |o| && o[k].id == t;
        assert o'[k + 1] == o[k];
      }
    }
  }

  lemma {:induction false} VisitForward(nodes: seq<Node>, edges: seq<Edge>, rank: Id -> nat,
                                       n: Node, w: Walk, stack: set<Id>)
    requires Ranked(edges, rank)
    requires n in nodes && w.visited <= Ids(nodes)
    requires Inv(nodes, edges, w, stack) && Reachable(nodes, edges, n.id)
    requires Forward(edges, w.order)
    requires forall s :: s in stack ==> rank(s) < rank(n.id)
    ensures var r := Visit(nodes, edges, n, w);
            r.Ok? ==> Forward(edges, r.value.order) && n.id in Ids(r.value.order)
    decreases |Ids(nodes) - w.visited|, 0, 0
  {
    if n.id !in w.visited {
      FewerUnvisited(nodes, w.visited, n.id);
      var w0 := Walk(w.visited + {n.id}, w.order);
      EnterKeepsInv(nodes, edges, n, w, stack);
      var targets := Successors(edges, n.id);
      forall t | t in targets
        ensures Reachable(nodes, edges, t) && Edge(n.id, t) in edges
        ensures forall s :: s in stack + {n.id} ==> rank(s) < rank(t)
      {
        SuccessorsMembers(edges, n.id, t);
        ReachableStep(nodes, edges, n.id, t);
      }
      VisitAllSound(nodes, edges, targets, w0, stack + {n.id});
      VisitAllForward(nodes, edges, rank, targets, w0, stack + {n.id});
      var r := VisitAll(nodes, edges, targets, w0);
      if r.Ok? {
        forall t | Edge(n.id, t) in edges ensures t in Ids(r.value.order) {
          SuccessorsMembers(edges, n.id, t);
        }
        PrependForward(edges, n, r.value.order);
        IdsCons(n, r.value.order);
      }
    }
  }

  lemma {:induction false} VisitAllForward(nodes: seq<Node>, edges: seq<Edge>, rank: Id -> nat,
                                          targets: seq<Id>, w: Walk, stack: set<Id>)
    requires Ranked(edges, rank)
    requires w.visited <= Ids(nodes)
    requires Inv(nodes, edges, w, stack) && Forward(edges, w.order)
    requires forall t :: t in targets ==> Reachable(nodes, edges, t)
    requires forall t, s :: t in targets && s in stack ==> rank(s) < rank(t)
    ensures var r := VisitAll(nodes, edges, targets, w);
            r.Ok? ==> Forward(edges, r.value.order) && forall t :: t in targets ==> t in Ids(r.value.order)
    decreases |Ids(nodes) - w.visited|, 1, |targets|
  {
    if targets != [] {
      var m := Find(nodes, targets[0]);
      if m.Some? {
        VisitSound(nodes, edges, m.value, w, stack);
        VisitForward(nodes, edges, rank, m.value, w, stack);
        var r1 := Visit(nodes, edges, m.value, w);
        if r1.Ok? {
          SubsetCard(Ids(nodes) - r1.value.visited, Ids(nodes) - w.visited);
          VisitSound(nodes, edges, m.value, w, stack);
          VisitAllSound(nodes, edges, targets[1..], r1.value, stack);
          VisitAllForward(nodes, edges, rank, targets[1..], r1.value, stack);
          var r := VisitAll(nodes, edges, targets, w);
          if r.Ok? {
            assert targets[0] in r.value.visited;
            assert targets[0] !in stack;
          }
        }
      }
    }
  }

  lemma {:induction false} VisitRootsForward(nodes: seq<Node>, edges: seq<Edge>, rank: Id -> nat,
                                            roots: seq<Node>, w: Walk)
    requires Ranked(edges, rank)
    requires forall n :: n in roots ==> n in nodes && InDegree(edges, n.id) == 0
    requires w.visited <= Ids(nodes) && Inv(nodes, edges, w, {}) && Forward(edges, w.order)
    ensures var r := VisitRoots(nodes, edges, roots, w);
            r.Ok? ==> Forward(edges, r.value.order)
    decreases |roots|
  {
    if roots != [] {
      RootReachable(nodes, edges, roots[0]);
      VisitSound(nodes, edges, roots[0], w, {});
      VisitForward(nodes, edges, rank, roots[0], w, {});
      var r1 := Visit(nodes, edges, roots[0], w);
      if r1.Ok? {
        VisitRootsForward(nodes, edges, rank, roots[1..], r1.value);
      }
    }
  }

  /** In a list with distinct ids that only points forward, every edge goes from an earlier to a later entry. */
  lemma ForwardOrdered(edges: seq<Edge>, o: seq<Node>)
    requires Forward(edges, o) && Distinct(o)
    ensures forall i, j :: 0 <= i < |o| && 0 <= j < |o| && Edge(o[i].id, o[j].id) in edges ==> i < j
  {
    forall i, j | 0 <= i < |o| && 0 <= j < |o| && Edge(o[i].id, o[j].id) in edges ensures i < j {
      var k :| i < k < |o| && o[k].id == o[j].id;
      if k != j {
        assert o[k].id == o[j].id;
      }
    }
  }

  /** The order of a well-formed acyclic diagram points forward. */
  lemma AcyclicOrderForward(nodes: seq<Node>, edges: seq<Edge>, rank: Id -> nat)
    requires Ranked(edges, rank) && Order(nodes, edges).Ok?
    ensures Forward(edges, Order(nodes, edges).value)
  {
    EmptyWalkInv(nodes, edges);
    VisitRootsForward(nodes, edges, rank, Roots(nodes, edges), Walk({}, []));
  }

  /**
   * In an acyclic diagram whose edges name existing nodes, the run schedules
   * every node, and every edge's source comes before its target.
   */
  lemma AcyclicOrderRespectsEdges(nodes: seq<Node>, edges: seq<Edge>, rank: Id -> nat)
    requires EdgesValid(nodes, edges) && Ranked(edges, rank)
    ensures Order(nodes, edges).Ok?
    ensures var o := Order(nodes, edges).value;
            && Ids(o) == Ids(nodes)
            && forall i, j :: 0 <= i < |o| && 0 <= j < |o| && Edge(o[i].id, o[j].id) in edges ==> i < j
  {
    OrderFailsOnlyOnMissingNodes(nodes, edges);
    OrderIsReachableSet(nodes, edges);
    var o := Order(nodes, edges).value;
    AcyclicOrderForward(nodes, edges, rank);
    ForwardOrdered(edges, o);
    forall x | x in Ids(nodes) ensures x in Ids(o) {
      RankedAllReachable(nodes, edges, rank, x);
    }
    assert Ids(o) <= Ids(nodes);
  }
}
