/**
 * The editor's list edits that change the diagram the engine later runs:
 * creating an edge, deleting a node, and replacing a node after its settings
 * are edited.
 */
module GraphEdits {
  import opened Wrappers
  import opened Graph

  /** No edge occurs twice. */
  ghost predicate NoDuplicateEdges(edges: seq<Edge>)
  {
    forall i, j :: 0 <= i < j < |edges| ==> edges[i] != edges[j]
  }

  /**
   * `handleCreateEdge`: an edge that already exists (same `from` and `to`) is
   * not added again; otherwise the new edge goes at the end.
   */
  function CreateEdge(edges: seq<Edge>, from: Id, to: Id): (r: seq<Edge>)
    ensures Edge(from, to) in r
    ensures forall e :: e in r <==> e in edges || e == Edge(from, to)
    ensures |r| == if Edge(from, to) in edges then |edges| else |edges| + 1
    ensures r[..|edges|] == edges
  {
    if Edge(from, to) in edges then edges else edges + [Edge(from, to)]
  }

  /** Creating the same edge twice is the same as creating it once. */
  lemma CreateEdgeIdempotent(edges: seq<Edge>, from: Id, to: Id)
    ensures CreateEdge(CreateEdge(edges, from, to), from, to) == CreateEdge(edges, from, to)
  {
  }

  /** Edge creation never introduces a duplicate. */
  lemma CreateEdgeKeepsNoDuplicates(edges: seq<Edge>, from: Id, to: Id)
    requires NoDuplicateEdges(edges)
    ensures NoDuplicateEdges(CreateEdge(edges, from, to))
  {
    var r := CreateEdge(edges, from, to);
    if Edge(from, to) !in edges {
      forall i, j | 0 <= i < j < |r| ensures r[i] != r[j] {
        if j == |edges| {
          assert r[i] == edges[i];
        }
      }
    }
  }

  /** An edge between existing nodes keeps every edge's ends valid. */
  lemma CreateEdgeKeepsEdgesValid(nodes: seq<Node>, edges: seq<Edge>, from: Id, to: Id)
    requires EdgesValid(nodes, edges)
    requires from in Ids(nodes) && to in Ids(nodes)
    ensures EdgesValid(nodes, CreateEdge(edges, from, to))
  {
  }

  /** The nodes kept by a deletion. */
  function KeptNodes(nodes: seq<Node>, id: Id): (r: seq<Node>)
    ensures forall n :: n in r <==> n in nodes && n.id != id
    ensures forall n :: multiset(r)[n] == if n.id != id then multiset(nodes)[n] else 0
    ensures IsSubsequence(r, nodes)
  {
    FilterMultiset(nodes, (n: Node) => n.id != id);
    Filter(nodes, (n: Node) => n.id != id)
  }

  /** The edges kept by a deletion. */
  function KeptEdges(edges: seq<Edge>, id: Id): (r: seq<Edge>)
    ensures forall e :: e in r <==> e in edges && e.from != id && e.to != id
    ensures forall e :: multiset(r)[e] == if e.from != id && e.to != id then multiset(edges)[e] else 0
    ensures IsSubsequence(r, edges)
  {
    FilterMultiset(edges, (e: Edge) => e.from != id && e.to != id);
    Filter(edges, (e: Edge) => e.from != id && e.to != id)
  }

  /**
   * `handleNodeDelete`: every node with the id goes, and so does every edge
   * that starts or ends there; everything else stays, every copy of it, in
   * its order.
   */
  function DeleteNode(nodes: seq<Node>, edges: seq<Edge>, id: Id): (r: (seq<Node>, seq<Edge>))
    ensures id !in Ids(r.0)
    ensures forall e :: e in r.1 ==> e.from != id && e.to != id
    ensures forall n :: n in nodes && n.id != id ==> n in r.0
    ensures forall e :: e in edges && e.from != id && e.to != id ==> e in r.1
    ensures forall n :: multiset(r.0)[n] == if n.id != id then multiset(nodes)[n] else 0
    ensures forall e :: multiset(r.1)[e] == if e.from != id && e.to != id then multiset(edges)[e] else 0
    ensures IsSubsequence(r.0, nodes) && IsSubsequence(r.1, edges)
  {
    (KeptNodes(nodes, id), KeptEdges(edges, id))
  }

  /** Deleting a node from a well-formed diagram leaves no edge dangling. */
  lemma DeleteNodeKeepsEdgesValid(nodes: seq<Node>, edges: seq<Edge>, id: Id)
    requires EdgesValid(nodes, edges)
    ensures EdgesValid(DeleteNode(nodes, edges, id).0, DeleteNode(nodes, edges, id).1)
  {
    var (ns, es) := DeleteNode(nodes, edges, id);
    forall e | e in es ensures e.from in Ids(ns) && e.to in Ids(ns) {
      var a :| a in nodes && a.id == e.from;
      var b :| b in nodes && b.id == e.to;
      assert a in ns && b in ns;
    }
  }

  /**
   * `handleNodeChange`: every node whose id is the updated node's id is
   * replaced by it; the others are kept, in place.
   */
  function ChangeNode(nodes: seq<Node>, updated: Node): (r: seq<Node>)
    ensures |r| == |nodes|
    ensures Ids(r) == Ids(nodes)
    ensures updated.id in Ids(nodes) ==> Find(r, updated.id) == Some(updated)
    ensures forall i :: 0 <= i < |nodes| && nodes[i].id == updated.id ==> r[i] == updated
    ensures forall i :: 0 <= i < |nodes| && nodes[i].id != updated.id ==> r[i] == nodes[i]
  {
    if nodes == [] then []
    else
      var rest := ChangeNode(nodes[1..], updated);
      var head := if nodes[0].id == updated.id then updated else nodes[0];
      IdsCons(head, rest);
      IdsCons(nodes[0], nodes[1..]);
      assert nodes == [nodes[0]] + nodes[1..];
      [head] + rest
  }

  /** Editing a node's settings keeps the node list's ids, so every edge stays valid. */
  lemma ChangeNodeKeepsEdgesValid(nodes: seq<Node>, edges: seq<Edge>, updated: Node)
    requires EdgesValid(nodes, edges)
    ensures EdgesValid(ChangeNode(nodes, updated), edges)
  {
  }

  /** Replacing a node that is not in the list changes nothing. */
  lemma ChangeAbsentNode(nodes: seq<Node>, updated: Node)
    requires updated.id !in Ids(nodes)
    ensures ChangeNode(nodes, updated) == nodes
  {
    var r := ChangeNode(nodes, updated);
    forall i | 0 <= i < |nodes| ensures r[i] == nodes[i] {
      assert nodes[i].id in Ids(nodes);
    }
  }
}
