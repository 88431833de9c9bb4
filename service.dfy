/**
 * The persistence service: it writes an in-memory tree into the graph store
 * node by node, in pre-order, writing each new database identity back into
 * the node's data and linking every node to its parent.
 *
 * The store is the abstract `GraphStore`; every Cypher query the source
 * builds is replaced by the store operation it amounts to. The recursive walk
 * is proved to do what `Persistence.PersistTree` describes.
 */
module Service {
  import Fragments
  import opened Tree
  import Store
  import opened Persistence

  class Neo4jService {
    const client: Store.GraphStore

    /** A service over `client`, which it clears first: afterwards the store
        holds no node and no relationship. */
    constructor (client: Store.GraphStore)
      modifies client
      ensures this.client == client
      ensures client.Valid() && client.nodes == map[] && client.rels == map[]
      ensures client.State() == Store.ClearGraph(old(client.State()))
    {
      this.client := client;
      new;
      ClearDatabase();
    }

    /** Deletes every node together with its relationships. */
    method ClearDatabase()
      modifies client
      ensures client.Valid()
      ensures client.State() == Store.ClearGraph(old(client.State()))
    {
      client.Clear();
    }

    /** Creates the node for `n` and writes its identity back into `n.data`.
        A missing node creates nothing and gives 0. A node without data still
        creates a node (with the properties `null`), after which writing the
        identity back fails: `ok` is false. */
    method CreateNode(n: TreeNode?) returns (id: int, ok: bool)
      requires client.Valid()
      modifies client, if n != null && n.data != null then {n.data} else {}
      ensures client.Valid()
      ensures n == null ==> id == 0 && ok && unchanged(client)
      ensures n != null ==>
                && ok == (n.data != null)
                && id == old(client.nextNodeId) && id !in old(client.nodes)
                && client.State() == Store.AddNode(old(client.State()), NodeProps(n))
      ensures n != null && n.data != null ==> n.data.id == id
    {
      if n == null {
        return 0, true;
      }
      var json := if n.data == null then "null" else n.data.Json();
      var properties := Fragments.CypherSerializeToCreatePropertiesObject(json);
      id := client.CreateNode(properties);
      if n.data == null {
        return id, false;
      }
      n.data.id := id;
      ok := true;
    }

    /** MERGEs the relationship from `a` to `b`, labelled with both identities.
        Missing nodes or data give 0 and change nothing. */
    method CreateRelationship(a: TreeNode?, b: TreeNode?) returns (id: int)
      requires client.Valid()
      modifies client
      ensures client.Valid()
      ensures !(a != null && a.data != null && b != null && b.data != null) ==>
                id == 0 && unchanged(client)
      ensures a != null && a.data != null && b != null && b.data != null ==>
                (client.State(), id) == Store.MergeEdge(old(client.State()), EdgeBetween(a.data.id, b.data.id))
    {
      if a != null && a.data != null && b != null && b.data != null {
        var relType := a.GetRelationshipId(b);
        id := client.MergeRelationship(a.data.id, b.data.id, relType);
        return;
      }
      return 0;
    }

    /** Links `n` to its parent; no parent, no change. */
    method CreateRelationshipWithParent(n: TreeNode?)
      requires client.Valid()
      modifies client
      ensures client.Valid()
      ensures n == null || n.parent == null || n.parent.data == null || n.data == null ==> unchanged(client)
      ensures n != null && n.parent != null && n.parent.data != null && n.data != null ==>
                client.State() == Store.MergeEdge(old(client.State()), EdgeBetween(n.parent.data.id, n.data.id)).0
    {
      if n != null && n.parent != null {
        var id := CreateRelationship(n.parent, n);
      }
    }

    /** SETs the properties of the node with identity `nodeId` from `n.data`;
        a missing node or data changes nothing, and so does an unknown identity. */
    method UpdateNode(n: TreeNode?, nodeId: int)
      requires client.Valid()
      modifies client
      ensures client.Valid()
      ensures n == null || n.data == null ==> unchanged(client)
      ensures n != null && n.data != null ==>
                client.State() == Store.SetNode(old(client.State()), nodeId, Fragments.SetFragment("node", n.data.Json()))
    {
      if n == null || n.data == null {
        return;
      }
      var setQuery := Fragments.CypherSerializeToSetPropertiesQuery("node", n.data.Json());
      client.SetProperties(nodeId, setQuery);
    }
    /** Persists the tree below `n` in pre-order: the node, its link to its
        parent, then each child in list order. A node without data stops the
        walk with `ok` false, leaving the nodes created so far. The store and
        the identities of the persons involved end up as `PersistTree` says. */
    method CreateTreeNode(n: TreeNode?) returns (ok: bool)
      requires client.Valid()
      requires n != null ==> n.Valid()
      modifies client, if n == null then {} else n.people
      ensures client.Valid()
      ensures var par := old(ParentsOf(n));
              var who := Involved(n, par);
              Run(client.State(), IdsOf(who), ok) == PersistTree(n, par, Run(old(client.State()), old(IdsOf(who)), true))
      decreases if n == null then {} else n.repr, 1
    {
      if n == null {
        return true;
      }
      ghost var par := ParentsOf(n);
      ghost var who := Involved(n, par);
      ghost var start := Run(client.State(), IdsOf(who), true);
      assert n in n.repr;
      var id;
      id, ok := CreateNode(n);
      if !ok {
        assert IdsOf(who) == start.ids;
        return;
      }
      assert IdsOf(who) == start.ids[n.data := id];
      CreateRelationshipWithParent(n);
      assert client.State() == PersistNode(n, par, start).g && IdsOf(who) == PersistNode(n, par, start).ids by {
        assert n.parent == par[n];
      }
      assert ParentsOf(n) == par;
      ok := CreateChildren(n);
    }

    /** Persists the whole tree: the walk from its root, as `PersistTree`
        says. A missing tree fails before anything is written. The `k`-th
        node of the pre-order walk gets the `k`-th fresh identity and its own
        properties, up to and including the first node without data, where
        the walk stops with `ok` false; existing nodes and relationships are
        kept. When no data object is shared, every created node's data holds
        its new identity; when the tree is also tidy (parent pointers match
        the children lists and every node has data), the only relationships
        added are the root's link to its parent and, for every other node,
        the link from its parent to it. */
    method CreateTree(tree: Tree?) returns (ok: bool)
      requires client.Valid()
      requires tree != null && tree.root != null ==> tree.root.Valid()
      modifies client, if tree == null || tree.root == null then {} else tree.root.people
      ensures client.Valid()
      ensures tree == null ==> !ok && unchanged(client)
      ensures tree != null ==>
                var root, par := tree.root, old(ParentsOf(tree.root));
                var who := Involved(root, par);
                Run(client.State(), IdsOf(who), ok) == PersistTree(root, par, Run(old(client.State()), old(IdsOf(who)), true))
      ensures tree != null ==> WalkOutcome(Walk(tree.root), old(client.State()), client.State(), ok)
      ensures tree != null ==>
                var w, base := Walk(tree.root), old(client.nextNodeId);
                DistinctData(w) ==>
                  forall k :: 0 <= k < CreatedCount(w) && w[k].data != null ==> w[k].data.id == base + k
      ensures tree != null ==>
                var root, par := tree.root, old(ParentsOf(tree.root));
                root != null && Linked(root, par) && DistinctData(Walk(root)) && AllHaveData(Walk(root)) ==>
                  var start := Run(old(client.State()), old(IdsOf(Involved(root, par))), true);
                  client.rels.Keys == old(client.rels.Keys) + RootEdge(root, par, start) + Links(WalkFrom(root, 0), par, IdsOf(Involved(root, par)))
    {
      if tree == null {
        return false;
      }
      ok := CreateTreeFrom(tree.root);
    }

    /** `CreateTree` on a present tree: the walk from `root`. */
    method CreateTreeFrom(root: TreeNode?) returns (ok: bool)
      requires client.Valid()
      requires root != null ==> root.Valid()
      modifies client, if root == null then {} else root.people
      ensures client.Valid()
      ensures var par := old(ParentsOf(root));
              var who := Involved(root, par);
              Run(client.State(), IdsOf(who), ok) == PersistTree(root, par, Run(old(client.State()), old(IdsOf(who)), true))
      ensures WalkOutcome(Walk(root), old(client.State()), client.State(), ok)
      ensures var w, base := Walk(root), old(client.nextNodeId);
              DistinctData(w) ==>
                forall k :: 0 <= k < CreatedCount(w) && w[k].data != null ==> w[k].data.id == base + k
      ensures var par := old(ParentsOf(root));
              root != null && Linked(root, par) && DistinctData(Walk(root)) && AllHaveData(Walk(root)) ==>
                var start := Run(old(client.State()), old(IdsOf(Involved(root, par))), true);
                client.rels.Keys == old(client.rels.Keys) + RootEdge(root, par, start) + Links(WalkFrom(root, 0), par, IdsOf(Involved(root, par)))
    {
      ghost var par := ParentsOf(root);
      ghost var who := Involved(root, par);
      ghost var start := Run(client.State(), IdsOf(who), true);
      ok := CreateTreeNode(root);
      ghost var w, q := Walk(root), PersistTree(root, par, start);
      assert client.State() == q.g && IdsOf(who) == q.ids && ok == q.ok;
      PersistTreeOutcome(root, par, start);
      if DistinctData(w) {
        IdsWritten(root, par, start);
        if root != null && Linked(root, par) && AllHaveData(w) {
          PersistTreeLinks(root, par, start);
        }
      }
    }

    /** Persists the tree below `n` under the stored node `parentNodeId`: a
        new parentless node holding `found` (what reading that node gave:
        a person carrying that identity, or null when it is missing) becomes
        the parent of `n`, then `n` and its subtree are persisted. A missing
        `n` fails before anything is written. The root of the subtree is
        linked to `parentNodeId` when the node was found and `n` has data. */
    method CreateTreeNodeUnder(n: TreeNode?, parentNodeId: int, found: Person?) returns (ok: bool)
      requires client.Valid()
      requires n != null ==> n.Valid()
      requires found != null ==> found.id == parentNodeId
      modifies n, client, if n == null then {} else n.people
      ensures client.Valid()
      ensures n == null ==> !ok && unchanged(client)
      ensures n != null ==>
                && fresh(n.parent) && n.parent.data == found && n.parent.children == [] && n.ParentChain()
                && var par := old(ParentsOf(n))[n := n.parent];
                   var who := Involved(n, par);
                   Run(client.State(), IdsOf(who), ok) == PersistTree(n, par, Run(old(client.State()), old(IdsOf(who)), true))
      ensures n != null && n.data != null && found != null && found !in n.people && parentNodeId in old(client.nodes) ==>
                EdgeBetween(parentNodeId, old(client.nextNodeId)) in client.rels
    {
      if n == null {
        return false;
      }
      ghost var par0 := ParentsOf(n);
      var holder := new TreeNode(found, []);
      ghost var par := par0[n := holder];
      ghost var who := Involved(n, par);
      ghost var ids0 := IdsOf(who);
      assert ids0 == old(IdsOf(who));
      n.parent := holder;
      n.ancestors := [holder];
      assert ParentsOf(n) == par by {
        assert n in n.repr;
      }
      assert IdsOf(who) == ids0;
      ghost var start := Run(client.State(), ids0, true);
      ok := CreateTreeNode(n);
      if n.data != null && found != null && found !in n.people && parentNodeId in start.g.nodes {
        assert n in n.repr;
        assert n.data in n.people;
        assert found in who && start.ids[found] == parentNodeId;
        PersistTreeLinksRoot(n, par, start);
        RootEdgeToStored(n, par, start);
      }
    }

    /** `CreateTreeNode` on a child, stated with the parent map `par` of the
        whole walk and the persons `who` it involves. */
    method CreateChild(c: TreeNode?, ghost who: set<Person>, ghost par: map<TreeNode, TreeNode?>) returns (ok: bool)
      requires client.Valid()
      requires c != null ==> c.Valid() && c.repr <= par.Keys
      requires c != null ==> forall m :: m in c.repr ==> m.parent == par[m]
      requires Involved(c, par) <= who
      modifies client, if c == null then {} else c.people
      ensures client.Valid()
      ensures var q := PersistTree(c, par, Run(old(client.State()), old(IdsOf(Involved(c, par))), true));
              client.State() == q.g && ok == q.ok && IdsOf(who) == old(IdsOf(who)) + q.ids
      decreases if c == null then {} else c.repr, 2
    {
      ghost var sub := Run(client.State(), IdsOf(Involved(c, par)), true);
      if c != null {
        ParentsLocal(c, ParentsOf(c), par, sub);
      }
      ghost var before := IdsOf(who);
      ok := CreateTreeNode(c);
      IdsAfterWalk(who, Involved(c, par), if c == null then {} else c.people, before, PersistTree(c, par, sub).ids);
    }

    /** The loop of `CreateTreeNode` over the children of `n`, in list order:
        each child's tree is persisted in turn, and a failure stops the loop. */
    method CreateChildren(n: TreeNode) returns (ok: bool)
      requires client.Valid()
      requires n.Valid()
      modifies client, n.people
      ensures client.Valid()
      ensures var par := old(ParentsOf(n));
              var who := Involved(n, par);
              Run(client.State(), IdsOf(who), ok) == PersistChildren(n, par, 0, Run(old(client.State()), old(IdsOf(who)), true))
      decreases n.repr, 0
    {
      ghost var par := ParentsOf(n);
      ghost var who := Involved(n, par);
      ghost var cur := Run(client.State(), IdsOf(who), true);
      ghost var final := PersistChildren(n, par, 0, cur);
      ok := true;
      var i := 0;
      while ok && i < |n.children|
        invariant 0 <= i <= |n.children|
        invariant client.Valid()
        invariant client.State() == cur.g && ok == cur.ok
        invariant IdsOf(who) == cur.ids
        invariant ok ==> PersistChildren(n, par, i, cur) == final
        invariant !ok ==> cur == final
      {
        var c := n.children[i];
        ghost var sub := Run(client.State(), IdsOf(Involved(c, par)), true);
        assert Agree(sub, cur) by {
          if c != null {
            InvolvedChild(n, par, c);
          }
        }
        IdsLocal(c, par, sub, cur);
        assert c != null ==> c.repr <= n.repr;
        ok := CreateChild(c, who, par);
        cur := PersistTree(c, par, cur);
        i := i + 1;
      }
    }
  }

  /** The identities of `who` after a walk that started from the identities
      `before`, wrote only those of `written`, and left those of `part` as
      `q` says. */
  lemma IdsAfterWalk(who: set<Person>, part: set<Person>, written: set<Person>, before: map<Person, int>, q: map<Person, int>)
    requires written <= part <= who && before.Keys == who
    requires IdsOf(part) == q
    requires forall p :: p in who && p !in written ==> p.id == before[p]
    ensures IdsOf(who) == before + q
  {
  }

  /** After a walk from `root` with no shared data, the identity fields of
      the persons involved hold what the walk assigned: the `k`-th created
      node's data holds base + k. */
  lemma IdsWritten(root: TreeNode?, par: map<TreeNode, TreeNode?>, start: Run)
    requires root != null ==> root.Valid() && root.repr <= par.Keys
    requires start.ok && DistinctData(Walk(root))
    requires IdsOf(Involved(root, par)) == PersistTree(root, par, start).ids
    ensures var w := Walk(root);
            forall k :: 0 <= k < CreatedCount(w) && w[k].data != null ==> w[k].data.id == start.g.nextNodeId + k
  {
    var w, who := Walk(root), Involved(root, par);
    PersistTreeAssignsIds(root, par, start);
    WalkPeople(root);
    forall k | 0 <= k < CreatedCount(w) && w[k].data != null
      ensures w[k].data.id == start.g.nextNodeId + k
    {
      assert w[k].data in DataSet(w);
      assert w[k].data in who;
    }
  }

  /** A company of two as a client builds it: a chief with one report,
      persisted into a cleared store. Both are created, in pre-order, with
      their property texts, and the one relationship links chief to report. */
  method PersistCompanyOfTwo(chief: string, chiefRole: string, dev: string, devRole: string) returns (ok: bool, st: Store.Graph)
    ensures ok
    ensures st.nodes.Keys == {0, 1}
    ensures st.nodes[0] == Fragments.CreateFragment(Fragments.PersonJson(chief, chiefRole))
    ensures st.nodes[1] == Fragments.CreateFragment(Fragments.PersonJson(dev, devRole))
    ensures Fragments.Plain(dev) && Fragments.Plain(devRole) ==>
              st.nodes[1] == "{Name:\"" + dev + "\",Role:\"" + devRole + "\"}"
    ensures st.rels.Keys == {EdgeBetween(0, 1)}
  {
    var store := new Store.GraphStore(0, 0);
    var svc := new Neo4jService(store);
    var company, top, report := NewCompanyOfTwo(chief, chiefRole, dev, devRole);
    ghost var g0 := store.State();
    ghost var par := ParentsOf(top);
    ghost var start := Run(g0, IdsOf(Involved(top, par)), true);
    ok := svc.CreateTree(company);
    st := store.State();
    CompanyOfTwoPersisted(top, report, par, g0, st, ok, start);
    if Fragments.Plain(dev) && Fragments.Plain(devRole) {
      NodePropsOfPerson(report);
    }
  }

  /** Builds the tree of a chief with one report, parent link set. */
  method NewCompanyOfTwo(chief: string, chiefRole: string, dev: string, devRole: string)
      returns (company: Tree, top: TreeNode, report: TreeNode)
    ensures fresh(company) && fresh(top) && fresh(report) && fresh(top.data) && fresh(report.data)
    ensures company.root == top && top.Valid() && top.children == [report] && report.children == []
    ensures top.parent == null && report.parent == top
    ensures top.data != null && top.data.name == chief && top.data.role == chiefRole
    ensures report.data != null && report.data.name == dev && report.data.role == devRole
    ensures top.data != report.data && top.repr == {top, report} && top.people == {top.data, report.data}
    ensures ParentsOf(top) == map[top := null, report := top]
    ensures Walk(top) == [top, report]
    ensures Linked(top, ParentsOf(top)) && DistinctData(Walk(top)) && AllHaveData(Walk(top))
  {
    var ceo := new Person(chief, chiefRole);
    var member := new Person(dev, devRole);
    report := new TreeNode(member, []);
    top := new TreeNode(ceo, [report]);
    report.parent := top;
    company := new Tree(top);
    assert SubtreePeople([report]) == SubtreePeople([]) + report.people;
    assert SubtreeNodes([report]) == SubtreeNodes([]) + report.repr;
    assert top.children[0] == report;
    CompanyOfTwoWalk(top, report, ParentsOf(top));
  }

  /** What the outcome of persisting a chief with one report into an empty
      store whose next identity is 0 amounts to. */
  lemma CompanyOfTwoPersisted(top: TreeNode, report: TreeNode, par: map<TreeNode, TreeNode?>,
                              g0: Store.Graph, st: Store.Graph, ok: bool, start: Run)
    requires top.Valid() && top.children == [report] && report.children == [] && top.repr == {top, report}
    requires par == map[top := null, report := top]
    requires top.data != null && report.data != null && top.data != report.data
    requires g0.nodes == map[] && g0.rels == map[] && g0.nextNodeId == 0
    requires WalkOutcome(Walk(top), g0, st, ok)
    requires var w, base := Walk(top), g0.nextNodeId;
             DistinctData(w) ==>
               forall k :: 0 <= k < CreatedCount(w) && w[k].data != null ==> w[k].data.id == base + k
    requires Linked(top, par) && DistinctData(Walk(top)) && AllHaveData(Walk(top)) ==>
               st.rels.Keys == g0.rels.Keys + RootEdge(top, par, start) + Links(WalkFrom(top, 0), par, IdsOf(Involved(top, par)))
    ensures ok && st.nodes.Keys == {0, 1}
    ensures st.nodes[0] == NodeProps(top) && st.nodes[1] == NodeProps(report)
    ensures st.rels.Keys == {EdgeBetween(0, 1)}
  {
    assert top.children[0] == report;
    CompanyOfTwoWalk(top, report, par);
    var ids := IdsOf(Involved(top, par));
    assert top.data.id == 0 && report.data.id == 1 by {
      assert Walk(top)[0].data == top.data && Walk(top)[1].data == report.data;
    }
    assert top.data in Involved(top, par) && report.data in Involved(top, par) by {
      assert report.data in report.people;
    }
    CompanyOfTwoOutcome([top, report], g0, st, ok);
    OneLink(st.rels.Keys, RootEdge(top, par, start), Links(WalkFrom(top, 0), par, ids), EdgeBetween(0, 1));
  }

  /** What `WalkOutcome` says of a two-node walk with data into an empty
      store whose next identity is 0. */
  lemma CompanyOfTwoOutcome(w: seq<TreeNode>, g0: Store.Graph, g: Store.Graph, ok: bool)
    requires |w| == 2 && AllHaveData(w) && WalkOutcome(w, g0, g, ok)
    requires g0.nodes == map[] && g0.nextNodeId == 0
    ensures ok && g.nextNodeId == 2 && g.nodes.Keys == {0, 1}
    ensures g.nodes[0] == NodeProps(w[0]) && g.nodes[1] == NodeProps(w[1])
  {
    forall id
      ensures id in g.nodes.Keys <==> id in {0, 1}
    {
    }
  }

  lemma OneLink(keys: set<Store.Edge>, root: set<Store.Edge>, links: set<Store.Edge>, e: Store.Edge)
    requires keys == root + links && root == {} && links == {e}
    ensures keys == {e}
  {
  }

  /** The walk from a root with one data-holding child. */
  lemma CompanyOfTwoWalk(top: TreeNode, report: TreeNode, par: map<TreeNode, TreeNode?>)
    requires top.Valid() && top.children == [report] && report.children == []
    requires top.repr <= par.Keys && top in par && report in par && par[report] == top && par[top] == null
    requires top.data != null && report.data != null && top.data != report.data
    ensures Walk(top) == [top, report]
    ensures AllHaveData(Walk(top)) && DistinctData(Walk(top)) && Linked(top, par)
    ensures forall ids :: Links(WalkFrom(top, 0), par, ids) == {EdgeBetween(Lookup(ids, top.data), Lookup(ids, report.data))}
  {
    assert top.children[0] == report;
    assert WalkFrom(report, 0) == [];
    assert Walk(report) == [report];
    assert WalkFrom(top, 1) == [];
    assert WalkFrom(top, 0) == [report];
  }
}
