/**
 * An abstract in-memory stand-in for the graph database, reduced to what the
 * persistence service relies on: node creation with a fresh identity, a node
 * map from identity to the property text last written to it, and
 * relationships keyed by (start node, end node, relationship type) with merge
 * semantics. Relationship identities come from their own counter.
 *
 * `Graph` is the store's state as a value and `AddNode`, `MergeEdge`,
 * `SetNode` and `ClearGraph` are the statements on it; the class `GraphStore`
 * performs them in place and its methods are proved to agree with them.
 */
module Store {

  /** A relationship of the store; its `Name` property always equals its type `relType`. */
  datatype Edge = Edge(start: int, end: int, relType: string)

  datatype Graph = Graph(nextNodeId: int, nodes: map<int, string>, nextRelId: int, rels: map<Edge, int>)

  /** Identities are fresh and every relationship joins two stored nodes. */
  ghost predicate Consistent(g: Graph)
  {
    && (forall id :: id in g.nodes ==> id < g.nextNodeId)
    && (forall e :: e in g.rels ==> e.start in g.nodes && e.end in g.nodes)
    && (forall e :: e in g.rels ==> g.rels[e] < g.nextRelId)
  }

  /** CREATE: a new node with the next identity, holding `props`. */
  function AddNode(g: Graph, props: string): Graph
  {
    g.(nextNodeId := g.nextNodeId + 1, nodes := g.nodes[g.nextNodeId := props])
  }

  /** MATCH both ends by identity, then MERGE the relationship `e`: the graph
      after it and the identity returned. No match gives the default 0 and no
      change; an existing relationship is returned, not duplicated. */
  function MergeEdge(g: Graph, e: Edge): (Graph, int)
  {
    if e.start !in g.nodes || e.end !in g.nodes then (g, 0)
    else if e in g.rels then (g, g.rels[e])
    else (g.(nextRelId := g.nextRelId + 1, rels := g.rels[e := g.nextRelId]), g.nextRelId)
  }

  /** MATCH a node by identity and SET its properties; no match, no change. */
  function SetNode(g: Graph, id: int, assignments: string): Graph
  {
    if id in g.nodes then g.(nodes := g.nodes[id := assignments]) else g
  }

  /** MATCH every node and DELETE it with its relationships. Identities
      already handed out are not reused. */
  function ClearGraph(g: Graph): Graph
  {
    g.(nodes := map[], rels := map[])
  }

  /** Clearing leaves an empty, consistent store whose next identities are
      still fresh, and a node created afterwards is the only one. */
  lemma ClearEmpties(g: Graph, props: string)
    ensures var h := ClearGraph(g);
            && Consistent(h) && h.nodes == map[] && h.rels == map[]
            && h.nextNodeId == g.nextNodeId && h.nextRelId == g.nextRelId
            && AddNode(h, props).nodes == map[g.nextNodeId := props]
  {
  }

  lemma AddNodeKeepsConsistent(g: Graph, props: string)
    requires Consistent(g)
    ensures Consistent(AddNode(g, props))
    ensures g.nextNodeId !in g.nodes
  {
  }

  /** Merging keeps the store consistent, leaves the nodes alone, adds the
      relationship when both ends exist and nothing else, so a relationship is
      never duplicated, and the result identifies it. */
  lemma MergeAddsAtMostItsEdge(g: Graph, e: Edge)
    ensures var (h, id) := MergeEdge(g, e);
            && (Consistent(g) ==> Consistent(h))
            && h.nodes == g.nodes && h.nextNodeId == g.nextNodeId
            && h.rels.Keys == g.rels.Keys + (if e.start in g.nodes && e.end in g.nodes then {e} else {})
            && (e.start in g.nodes && e.end in g.nodes ==> h.rels[e] == id)
            && (forall f :: f in g.rels ==> h.rels[f] == g.rels[f])
  {
  }

  /** Merging the same relationship twice is merging it once: the second
      MERGE finds the relationship and returns its identity. */
  lemma MergeEdgeIdempotent(g: Graph, e: Edge)
    ensures var (h, id) := MergeEdge(g, e);
            MergeEdge(h, e) == (h, id)
  {
  }

  lemma SetNodeKeepsConsistent(g: Graph, id: int, assignments: string)
    requires Consistent(g)
    ensures Consistent(SetNode(g, id, assignments))
    ensures SetNode(g, id, assignments).nodes.Keys == g.nodes.Keys
  {
  }

  class GraphStore {
    var nextNodeId: int
    var nodes: map<int, string>
    var nextRelId: int
    var rels: map<Edge, int>

    function State(): Graph
      reads this
    {
      Graph(nextNodeId, nodes, nextRelId, rels)
    }

    ghost predicate Valid()
      reads this
    {
      Consistent(State())
    }

    /** An empty store, as left by clearing the database. */
    constructor (firstNodeId: int, firstRelId: int)
      ensures Valid()
      ensures State() == Graph(firstNodeId, map[], firstRelId, map[])
    {
      nextNodeId := firstNodeId;
      nodes := map[];
      nextRelId := firstRelId;
      rels := map[];
    }

    /** Deletes every node and relationship. */
    method Clear()
      modifies this
      ensures Valid()
      ensures State() == ClearGraph(old(State()))
    {
      nodes := map[];
      rels := map[];
    }

    method CreateNode(props: string) returns (id: int)
      requires Valid()
      modifies this
      ensures Valid()
      ensures id == old(nextNodeId) && id !in old(nodes)
      ensures State() == AddNode(old(State()), props)
    {
      AddNodeKeepsConsistent(State(), props);
      id := nextNodeId;
      nodes := nodes[id := props];
      nextNodeId := nextNodeId + 1;
    }

    method MergeRelationship(a: int, b: int, relType: string) returns (id: int)
      requires Valid()
      modifies this
      ensures Valid()
      ensures (State(), id) == MergeEdge(old(State()), Edge(a, b, relType))
    {
      MergeAddsAtMostItsEdge(State(), Edge(a, b, relType));
      var e := Edge(a, b, relType);
      if a !in nodes || b !in nodes {
        id := 0;
      } else if e in rels {
        id := rels[e];
      } else {
        id := nextRelId;
        rels := rels[e := id];
        nextRelId := nextRelId + 1;
      }
    }

    method SetProperties(id: int, assignments: string)
      requires Valid()
      modifies this
      ensures Valid()
      ensures State() == SetNode(old(State()), id, assignments)
    {
      SetNodeKeepsConsistent(State(), id, assignments);
      if id in nodes {
        nodes := nodes[id := assignments];
      }
    }
  }
}
