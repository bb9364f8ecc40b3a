/** Option and Result, used for lookups that can miss and for the faults of a run. */
module Wrappers {
  datatype Option<+T> = None | Some(value: T)

  datatype Result<+T, +E> = Ok(value: T) | Err(error: E)
}

/**
 * The flow diagram as the editor holds it: an ordered list of nodes and an
 * ordered list of directed edges that refer to nodes by id. Everything the
 * execution engine reads from the diagram is defined here as a pure query.
 */
module Graph {
  import opened Wrappers

  type Id = string

  /** A diagram node. `kind` is the node's `type` ("js", "input", "output", or
      anything else); an empty `labelText` (the `label`) or `code` stands for a missing one. */
  datatype Node = Node(id: Id, kind: string, labelText: string, code: string)

  datatype Edge = Edge(from: Id, to: Id)

  /** The ids that occur in a node list. */
  function Ids(nodes: seq<Node>): set<Id>
  {
    set n | n in nodes :: n.id
  }

  lemma IdsCons(n: Node, o: seq<Node>)
    ensures Ids([n] + o) == {n.id} + Ids(o)
  {
    assert forall m :: m in [n] + o <==> m == n || m in o;
  }

  /** Every edge starts at a node of the list. */
  predicate SourcesExist(nodes: seq<Node>, edges: seq<Edge>)
  {
    forall e :: e in edges ==> e.from in Ids(nodes)
  }

  /** Every edge names existing nodes at both ends. */
  predicate EdgesValid(nodes: seq<Node>, edges: seq<Edge>)
  {
    forall e :: e in edges ==> e.from in Ids(nodes) && e.to in Ids(nodes)
  }

  /** The first node with the given id, as `nodes.find(n => n.id === id)` returns it. */
  function Find(nodes: seq<Node>, id: Id): (r: Option<Node>)
    ensures r.None? <==> id !in Ids(nodes)
    ensures r.Some? ==> exists i :: 0 <= i < |nodes| && nodes[i] == r.value && r.value.id == id &&
                                    forall j :: 0 <= j < i ==> nodes[j].id != id
  {
    if nodes == [] then None
    else if nodes[0].id == id then Some(nodes[0])
    else
      var r := Find(nodes[1..], id);
      assert r.Some? ==> r.value in nodes[1..];
      assert id in Ids(nodes) && nodes[0].id != id ==> id in Ids(nodes[1..]);
      if r.Some? then
        var i :| 0 <= i < |nodes[1..]| && nodes[1..][i] == r.value && r.value.id == id &&
                 forall j :: 0 <= j < i ==> nodes[1..][j].id != id;
        assert nodes[i + 1] == r.value;
        assert forall j :: 0 <= j < i + 1 ==> nodes[j].id != id by {
          forall j | 0 <= j < i + 1 ensures nodes[j].id != id {
            if j > 0 { assert nodes[j] == nodes[1..][j - 1]; }
          }
        }
        r
      else r
  }

  /** The targets of the edges that leave `id`, in edge order: the list that
      the adjacency dictionary holds under `id` once every edge is pushed. */
  function Successors(edges: seq<Edge>, id: Id): (r: seq<Id>)
    ensures |r| <= |edges|
  {
    if edges == [] then []
    else
      var last := edges[|edges| - 1];
      Successors(edges[..|edges| - 1], id) + (if last.from == id then [last.to] else [])
  }

  /** `t` is a successor of `id` exactly when an edge leads from `id` to `t`. */
  lemma {:induction false} SuccessorsMembers(edges: seq<Edge>, id: Id, t: Id)
    ensures t in Successors(edges, id) <==> Edge(id, t) in edges
  {
    if edges != [] {
      var last := edges[|edges| - 1];
      assert edges == edges[..|edges| - 1] + [last];
      SuccessorsMembers(edges[..|edges| - 1], id, t);
    }
  }

  /** The number of edges that enter `id`. */
  function InDegree(edges: seq<Edge>, id: Id): (r: nat)
    ensures r <= |edges|
  {
    if edges == [] then 0
    else
      var last := edges[|edges| - 1];
      InDegree(edges[..|edges| - 1], id) + (if last.to == id then 1 else 0)
  }

  /** The indegree is zero exactly when no edge enters `id`. */
  lemma {:induction false} InDegreeZero(edges: seq<Edge>, id: Id)
    ensures InDegree(edges, id) == 0 <==> forall e :: e in edges ==> e.to != id
  {
    if edges != [] {
      var last := edges[|edges| - 1];
      assert edges == edges[..|edges| - 1] + [last];
      InDegreeZero(edges[..|edges| - 1], id);
    }
  }

  /** `s` can be obtained from `t` by deleting elements, so it keeps their order. */
  ghost predicate IsSubsequence<T>(s: seq<T>, t: seq<T>)
    decreases |t|
  {
    if s == [] then true
    else if t == [] then false
    else (s[0] == t[0] && IsSubsequence(s[1..], t[1..])) || IsSubsequence(s, t[1..])
  }

  /** The elements of `s` that satisfy `p`, in order: JavaScript's `filter`. */
  function Filter<T(!new)>(s: seq<T>, p: T -> bool): (r: seq<T>)
    ensures forall x :: x in r <==> x in s && p(x)
    ensures IsSubsequence(r, s)
    ensures |r| <= |s|
  {
    if s == [] then []
    else
      var rest := Filter(s[1..], p);
      assert forall x :: x in s <==> x == s[0] || x in s[1..];
      if p(s[0]) then
        assert ([s[0]] + rest)[1..] == rest;
        [s[0]] + rest
      else
        assert rest != [] ==> IsSubsequence(rest, s[1..]);
        rest
  }

  /** `filter` keeps every copy of an element that passes, and no copy of one that fails. */
  lemma {:induction false} FilterMultiset<T(!new)>(s: seq<T>, p: T -> bool)
    ensures forall x :: multiset(Filter(s, p))[x] == if p(x) then multiset(s)[x] else 0
  {
    if s != [] {
      FilterMultiset(s[1..], p);
      assert s == [s[0]] + s[1..];
      assert multiset(s) == multiset([s[0]]) + multiset(s[1..]);
      if p(s[0]) {
        assert multiset(Filter(s, p)) == multiset([s[0]]) + multiset(Filter(s[1..], p));
      }
    }
  }

  /** The roots of the traversal: the nodes no edge enters, in node-list order. */
  function Roots(nodes: seq<Node>, edges: seq<Edge>): (r: seq<Node>)
    ensures forall n :: n in r <==> n in nodes && InDegree(edges, n.id) == 0
    ensures IsSubsequence(r, nodes)
  {
    Filter(nodes, (n: Node) => InDegree(edges, n.id) == 0)
  }

  lemma FilterAgrees<T(!new)>(s: seq<T>, p: T -> bool, q: T -> bool)
    requires forall x :: x in s ==> p(x) == q(x)
    ensures Filter(s, p) == Filter(s, q)
  {
    if s != [] {
      FilterAgrees(s[1..], p, q);
    }
  }

  /** `p` is a walk along edges: consecutive ids are joined by an edge. */
  ghost predicate IsPath(edges: seq<Edge>, p: seq<Id>)
  {
    |p| > 0 && forall i :: 0 <= i < |p| - 1 ==> Edge(p[i], p[i + 1]) in edges
  }

  /** `x` can be reached by following edges from the id of a root node. */
  ghost predicate Reachable(nodes: seq<Node>, edges: seq<Edge>, x: Id)
  {
    exists p :: IsPath(edges, p) && p[0] in Ids(Roots(nodes, edges)) && p[|p| - 1] == x
  }

  /** A set that holds every root id and is closed under edges holds every reachable id. */
  lemma {:induction false} ClosedSetHoldsReachable(nodes: seq<Node>, edges: seq<Edge>, c: set<Id>, x: Id)
    requires Ids(Roots(nodes, edges)) <= c
    requires forall a, b :: a in c && Edge(a, b) in edges ==> b in c
    requires Reachable(nodes, edges, x)
    ensures x in c
  {
    var p :| IsPath(edges, p) && p[0] in Ids(Roots(nodes, edges)) && p[|p| - 1] == x;
    var i := 0;
    while i < |p| - 1
      invariant 0 <= i < |p|
      invariant p[i] in c
    {
      assert Edge(p[i], p[i + 1]) in edges;
      i := i + 1;
    }
  }

  /** Following one more edge from a reachable id stays reachable. */
  lemma {:induction false} ReachableStep(nodes: seq<Node>, edges: seq<Edge>, x: Id, t: Id)
    requires Reachable(nodes, edges, x)
    requires Edge(x, t) in edges
    ensures Reachable(nodes, edges, t)
  {
    var p :| IsPath(edges, p) && p[0] in Ids(Roots(nodes, edges)) && p[|p| - 1] == x;
    var q := p + [t];
    assert forall i :: 0 <= i < |q| - 1 ==> Edge(q[i], q[i + 1]) in edges by {
      forall i | 0 <= i < |q| - 1 ensures Edge(q[i], q[i + 1]) in edges {
        if i < |p| - 1 { assert q[i] == p[i] && q[i + 1] == p[i + 1]; }
      }
    }
    assert IsPath(edges, q) && q[0] == p[0] && q[|q| - 1] == t;
  }

  /** The id of a root is reachable (by the one-element path). */
  lemma RootReachable(nodes: seq<Node>, edges: seq<Edge>, r: Node)
    requires r in Roots(nodes, edges)
    ensures Reachable(nodes, edges, r.id)
  {
    var p := [r.id];
    assert IsPath(edges, p) && p[0] in Ids(Roots(nodes, edges));
  }

  /** Acyclicity, stated as a ranking that every edge strictly increases. */
  ghost predicate Ranked(edges: seq<Edge>, rank: Id -> nat)
  {
    forall e :: e in edges ==> rank(e.from) < rank(e.to)
  }

  /** In an acyclic diagram whose edges name existing nodes, every node is reachable from a root. */
  lemma {:induction false} RankedAllReachable(nodes: seq<Node>, edges: seq<Edge>, rank: Id -> nat, x: Id)
    requires EdgesValid(nodes, edges) && Ranked(edges, rank)
    requires x in Ids(nodes)
    ensures Reachable(nodes, edges, x)
    decreases rank(x)
  {
    var n :| n in nodes && n.id == x;
    InDegreeZero(edges, x);
    if InDegree(edges, x) == 0 {
      RootReachable(nodes, edges, n);
    } else {
      var e :| e in edges && e.to == x;
      RankedAllReachable(nodes, edges, rank, e.from);
      ReachableStep(nodes, edges, e.from, x);
    }
  }
}
