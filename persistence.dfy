/**
 * What persisting a tree does, as functions on values. A walk threads a `Run`:
 * the store's state, the identities of the persons involved, and whether the
 * walk is still going. The parent pointers the walk reads are taken as a map,
 * so that none of these functions reads the heap; `Persisted` summarises
 * what persisting a sequence of nodes does, and the lemmas show that the
 * tree walk persists exactly its pre-order walk and links every child to
 * its parent.
 */
module Persistence {
  import Fragments
  import Labels
  import opened Tree
  import Store

  /** The relationship the service creates from node `a` to node `b`: its type
      (and `Name` property) is the label built from both identities. */
  function EdgeBetween(a: int, b: int): (e: Store.Edge)
    ensures e.start == a && e.end == b
    ensures e.relType == Labels.RelationshipLabel(a, b)
  {
    Store.Edge(a, b, Labels.RelationshipLabel(a, b))
  }

  /** The property text of the node created for `t`: the create-fragment of
      its data's JSON, where the JSON of a missing data object is `null`. */
  ghost function NodeProps(t: TreeNode): string
  {
    Fragments.CreateFragment(if t.data == null then "null" else t.data.Json())
  }

  /** A node holding a person with plain name and role is created as
      `(j:Data{Name:"<name>",Role:"<role>"})`. */
  lemma NodePropsOfPerson(t: TreeNode)
    requires t.data != null && Fragments.Plain(t.data.name) && Fragments.Plain(t.data.role)
    ensures NodeProps(t) == "{Name:\"" + t.data.name + "\",Role:\"" + t.data.role + "\"}"
  {
    Fragments.PersonCreateFragment(t.data.name, t.data.role);
  }

  /** A node without data is created as `(j:Datanull)`. */
  lemma NodePropsOfNull(t: TreeNode)
    requires t.data == null
    ensures NodeProps(t) == "null"
  {
    Fragments.CreateFragmentWithoutQuotes("null");
  }

  datatype Run = Run(g: Store.Graph, ids: map<Person, int>, ok: bool)

  /** The parent pointers of the nodes below `n`. */
  ghost function ParentsOf(n: TreeNode?): map<TreeNode, TreeNode?>
    reads if n == null then {} else n.repr
  {
    if n == null then map[] else map m | m in n.repr :: m.parent
  }

  /** The persons whose identities a walk from `n` writes or reads: the data
      of the nodes below `n` and of their parents. */
  ghost function Involved(n: TreeNode?, par: map<TreeNode, TreeNode?>): set<Person>
  {
    if n == null then {}
    else n.people + set m | m in n.repr && m in par && par[m] != null && par[m].data != null :: par[m].data
  }

  /** The current identities of the persons `s`. */
  ghost function IdsOf(s: set<Person>): map<Person, int>
    reads s
  {
    map p | p in s :: p.id
  }

  function Lookup(ids: map<Person, int>, p: Person): int
  {
    if p in ids then ids[p] else 0
  }

  /** Linking `n` to its parent: MERGE the relationship from the parent's
      identity to `n`'s when both have data, otherwise no change. */
  ghost function LinkToParent(n: TreeNode, par: map<TreeNode, TreeNode?>, g: Store.Graph, ids: map<Person, int>): Store.Graph
    requires n in par
  {
    var p := par[n];
    if p != null && p.data != null && n.data != null
    then Store.MergeEdge(g, EdgeBetween(Lookup(ids, p.data), Lookup(ids, n.data))).0
    else g
  }

  /** Persisting one node: create it with its properties, write its identity
      back, link it to its parent. A node without data is created, then the
      walk fails. */
  ghost function PersistNode(n: TreeNode, par: map<TreeNode, TreeNode?>, r: Run): Run
    requires n in par
  {
    CreateAndLink(n, NodeProps(n), par, r)
  }

  /** Persisting `n` as a node holding `text`. */
  ghost function CreateAndLink(n: TreeNode, text: string, par: map<TreeNode, TreeNode?>, r: Run): Run
    requires n in par
  {
    var id := r.g.nextNodeId;
    var g := Store.AddNode(r.g, text);
    if n.data == null then Run(g, r.ids, false)
    else
      var ids := r.ids[n.data := id];
      Run(LinkToParent(n, par, g, ids), ids, true)
  }

  /** Persisting the tree below `n` in pre-order, stopping at a failure. */
  ghost function PersistTree(n: TreeNode?, par: map<TreeNode, TreeNode?>, r: Run): Run
    requires n != null ==> n.Valid() && n.repr <= par.Keys
    decreases if n == null then {} else n.repr, 1
  {
    if n == null then r
    else
      var r1 := PersistNode(n, par, r);
      if !r1.ok then r1 else PersistChildren(n, par, 0, r1)
  }

  /** Persisting the children of `n` from position `i` on, in list order. */
  ghost function PersistChildren(n: TreeNode, par: map<TreeNode, TreeNode?>, i: nat, r: Run): Run
    requires n.Valid() && i <= |n.children| && n.repr <= par.Keys
    decreases n.repr, 0, |n.children| - i
  {
    if i == |n.children| then r
    else
      var r1 := PersistTree(n.children[i], par, r);
      if !r1.ok then r1 else PersistChildren(n, par, i + 1, r1)
  }

  // ---------------------------------------------------------------------------
  // What persisting a sequence of nodes does.
  // ---------------------------------------------------------------------------

  /** The walk fails exactly when a node lacks data, and it creates the nodes
      up to and including that one. */
  ghost predicate Counted(w: seq<TreeNode>, r0: Run, r: Run)
  {
    r.ok == AllHaveData(w) && r.g.nextNodeId == r0.g.nextNodeId + CreatedCount(w)
  }

  /** The property texts of the nodes of `w`, in order. */
  ghost function Texts(w: seq<TreeNode>): (t: seq<string>)
    ensures |t| == |w|
    decreases |w|
  {
    if w == [] then [] else [NodeProps(w[0])] + Texts(w[1..])
  }

  lemma {:induction false} TextsConcat(a: seq<TreeNode>, b: seq<TreeNode>)
    ensures Texts(a + b) == Texts(a) + Texts(b)
    decreases |a|
  {
    if a == [] {
      assert a + b == b;
    } else {
      assert (a + b)[1..] == a[1..] + b;
      TextsConcat(a[1..], b);
    }
  }

  lemma {:induction false} TextsAt(w: seq<TreeNode>, k: nat)
    requires k < |w|
    ensures Texts(w)[k] == NodeProps(w[k])
    decreases k
  {
    if k > 0 {
      TextsAt(w[1..], k - 1);
    }
  }

  /** The `k`-th of `count` fresh identities is given to a node holding
      `t[k]`; no other node changes. */
  ghost predicate NodesAdded(t: seq<string>, count: nat, r0: Run, r: Run)
  {
    var base := r0.g.nextNodeId;
    && count <= |t|
    && (forall id :: id in r.g.nodes <==> id in r0.g.nodes || base <= id < base + count)
    && (forall k :: 0 <= k < count ==> r.g.nodes[base + k] == t[k])
    && (forall id :: id in r0.g.nodes && !(base <= id < base + count) ==> r.g.nodes[id] == r0.g.nodes[id])
  }

  /** Only the data of `w` get new identities; when no two nodes of `w` share
      a data object, each gets the identity of its own node. */
  ghost predicate IdsAssigned(w: seq<TreeNode>, r0: Run, r: Run)
  {
    && r0.ids.Keys <= r.ids.Keys <= r0.ids.Keys + DataSet(w)
    && (forall p :: p in r0.ids && p !in DataSet(w) ==> r.ids[p] == r0.ids[p])
    && (DistinctData(w) ==>
          forall k :: 0 <= k < CreatedCount(w) && w[k].data != null ==>
            w[k].data in r.ids && r.ids[w[k].data] == r0.g.nextNodeId + k)
  }

  /** Relationships are only ever added, and the store stays consistent. */
  ghost predicate Extends(r0: Run, r: Run)
  {
    && (forall e :: e in r0.g.rels ==> e in r.g.rels && r.g.rels[e] == r0.g.rels[e])
    && (Store.Consistent(r0.g) ==> Store.Consistent(r.g))
  }

  ghost predicate Persisted(w: seq<TreeNode>, r0: Run, r: Run)
  {
    Counted(w, r0, r) && NodesAdded(Texts(w), CreatedCount(w), r0, r) && IdsAssigned(w, r0, r) && Extends(r0, r)
  }

  lemma PersistedNothing(r: Run)
    requires r.ok
    ensures Persisted([], r, r)
  {
  }

  lemma CreateAndLinkEffect(n: TreeNode, text: string, par: map<TreeNode, TreeNode?>, r: Run)
    requires n in par
    ensures var r1 := CreateAndLink(n, text, par, r);
            && r1.ok == (n.data != null) && r1.g.nextNodeId == r.g.nextNodeId + 1
            && NodesAdded([text], 1, r, r1) && Extends(r, r1)
            && r1.ids == if n.data == null then r.ids else r.ids[n.data := r.g.nextNodeId]
  {
    var id := r.g.nextNodeId;
    var g := Store.AddNode(r.g, text);
    if Store.Consistent(r.g) {
      Store.AddNodeKeepsConsistent(r.g, text);
    }
    if n.data != null && par[n] != null && par[n].data != null {
      var ids := r.ids[n.data := id];
      Store.MergeAddsAtMostItsEdge(g, EdgeBetween(Lookup(ids, par[n].data), Lookup(ids, n.data)));
    }
  }

  lemma PersistNodePersisted(n: TreeNode, par: map<TreeNode, TreeNode?>, r: Run)
    requires n in par
    ensures Persisted([n], r, PersistNode(n, par, r))
  {
    CreateAndLinkEffect(n, NodeProps(n), par, r);
    assert CreatedCount([n]) == 1;
    assert Texts([n]) == [NodeProps(n)];
    assert DataSet([n]) == if n.data == null then {} else {n.data};
  }

  lemma CountedThen(a: seq<TreeNode>, b: seq<TreeNode>, r0: Run, r1: Run, r2: Run)
    requires Counted(a, r0, r1) && r1.ok && Counted(b, r1, r2)
    ensures Counted(a + b, r0, r2)
    ensures CreatedCount(a) == |a| && CreatedCount(a + b) == |a| + CreatedCount(b)
  {
    CreatedCountAppend(a, b);
    AllHaveDataConcat(a, b);
  }

  lemma NodesThen(ta: seq<string>, tb: seq<string>, cb: nat, r0: Run, r1: Run, r2: Run)
    requires r1.g.nextNodeId == r0.g.nextNodeId + |ta|
    requires NodesAdded(ta, |ta|, r0, r1) && NodesAdded(tb, cb, r1, r2)
    ensures NodesAdded(ta + tb, |ta| + cb, r0, r2)
  {
    var base, mid := r0.g.nextNodeId, r1.g.nextNodeId;
    forall id
      ensures id in r2.g.nodes <==> id in r0.g.nodes || base <= id < base + |ta| + cb
    {
      assert id in r2.g.nodes <==> id in r1.g.nodes || mid <= id < mid + cb;
      assert id in r1.g.nodes <==> id in r0.g.nodes || base <= id < mid;
    }
    forall k | 0 <= k < |ta| + cb
      ensures r2.g.nodes[base + k] == (ta + tb)[k]
    {
      if k < |ta| {
        assert base + k in r1.g.nodes && r1.g.nodes[base + k] == ta[k];
      } else {
        assert r2.g.nodes[mid + (k - |ta|)] == tb[k - |ta|];
      }
    }
    forall id | id in r0.g.nodes && !(base <= id < base + |ta| + cb)
      ensures r2.g.nodes[id] == r0.g.nodes[id]
    {
      assert id in r1.g.nodes && r1.g.nodes[id] == r0.g.nodes[id];
    }
  }

  lemma IdsThen(a: seq<TreeNode>, b: seq<TreeNode>, r0: Run, r1: Run, r2: Run)
    requires Counted(a, r0, r1) && r1.ok && Counted(b, r1, r2)
    requires IdsAssigned(a, r0, r1) && IdsAssigned(b, r1, r2)
    ensures IdsAssigned(a + b, r0, r2)
  {
    CountedThen(a, b, r0, r1, r2);
    DataSetConcat(a, b);
    if DistinctData(a + b) {
      DistinctDataConcat(a, b);
      var base := r0.g.nextNodeId;
      forall k | 0 <= k < CreatedCount(a + b) && (a + b)[k].data != null
        ensures (a + b)[k].data in r2.ids && r2.ids[(a + b)[k].data] == base + k
      {
        if k < |a| {
          assert (a + b)[k] == a[k];
          assert a[k].data in DataSet(a);
        } else {
          assert (a + b)[k] == b[k - |a|];
        }
      }
    }
  }

  lemma PersistedThen(a: seq<TreeNode>, b: seq<TreeNode>, r0: Run, r1: Run, r2: Run)
    requires Persisted(a, r0, r1) && r1.ok && Persisted(b, r1, r2)
    ensures Persisted(a + b, r0, r2)
  {
    CountedThen(a, b, r0, r1, r2);
    TextsConcat(a, b);
    NodesThen(Texts(a), Texts(b), CreatedCount(b), r0, r1, r2);
    IdsThen(a, b, r0, r1, r2);
  }

  /** A walk that failed within `a` goes no further. */
  lemma PersistedStops(a: seq<TreeNode>, b: seq<TreeNode>, r0: Run, r1: Run)
    requires Persisted(a, r0, r1) && !r1.ok
    ensures Persisted(a + b, r0, r1)
  {
    CreatedCountAppend(a, b);
    AllHaveDataConcat(a, b);
    var ca := CreatedCount(a);
    assert CreatedCount(a + b) == ca && ca <= |a|;
    assert Counted(a + b, r0, r1);
    TextsConcat(a, b);
    NodesStop(Texts(a), Texts(b), ca, r0, r1);
    IdsStop(a, b, r0, r1, ca);
  }

  lemma NodesStop(ta: seq<string>, tb: seq<string>, ca: nat, r0: Run, r1: Run)
    requires NodesAdded(ta, ca, r0, r1)
    ensures NodesAdded(ta + tb, ca, r0, r1)
  {
    forall k | 0 <= k < ca
      ensures r1.g.nodes[r0.g.nextNodeId + k] == (ta + tb)[k]
    {
      assert r1.g.nodes[r0.g.nextNodeId + k] == ta[k];
    }
  }

  lemma IdsStop(a: seq<TreeNode>, b: seq<TreeNode>, r0: Run, r1: Run, ca: nat)
    requires IdsAssigned(a, r0, r1) && ca == CreatedCount(a) == CreatedCount(a + b) && ca <= |a|
    ensures IdsAssigned(a + b, r0, r1)
  {
    DataSetConcat(a, b);
    if DistinctData(a + b) {
      DistinctDataConcat(a, b);
      forall k | 0 <= k < ca && (a + b)[k].data != null
        ensures (a + b)[k].data in r1.ids && r1.ids[(a + b)[k].data] == r0.g.nextNodeId + k
      {
        assert (a + b)[k] == a[k];
      }
    }
  }

  lemma {:induction false} PersistTreePersisted(n: TreeNode?, par: map<TreeNode, TreeNode?>, r: Run)
    requires n != null ==> n.Valid() && n.repr <= par.Keys
    requires r.ok
    ensures Persisted(Walk(n), r, PersistTree(n, par, r))
    decreases if n == null then {} else n.repr, 1
  {
    if n == null {
      PersistedNothing(r);
    } else {
      var r1 := PersistNode(n, par, r);
      PersistNodePersisted(n, par, r);
      if !r1.ok {
        PersistedStops([n], WalkFrom(n, 0), r, r1);
      } else {
        PersistChildrenPersisted(n, par, 0, r1);
        PersistedThen([n], WalkFrom(n, 0), r, r1, PersistChildren(n, par, 0, r1));
      }
    }
  }

  lemma {:induction false} PersistChildrenPersisted(n: TreeNode, par: map<TreeNode, TreeNode?>, i: nat, r: Run)
    requires n.Valid() && i <= |n.children| && n.repr <= par.Keys
    requires r.ok
    ensures Persisted(WalkFrom(n, i), r, PersistChildren(n, par, i, r))
    decreases n.repr, 0, |n.children| - i
  {
    if i == |n.children| {
      PersistedNothing(r);
    } else {
      var c := n.children[i];
      var r1 := PersistTree(c, par, r);
      PersistTreePersisted(c, par, r);
      if !r1.ok {
        PersistedStops(Walk(c), WalkFrom(n, i + 1), r, r1);
      } else {
        PersistChildrenPersisted(n, par, i + 1, r1);
        PersistedThen(Walk(c), WalkFrom(n, i + 1), r, r1, PersistChildren(n, par, i + 1, r1));
      }
    }
  }

  // ---------------------------------------------------------------------------
  // A walk depends only on the parent pointers below its root and on the
  // identities of the persons it involves.
  // ---------------------------------------------------------------------------

  lemma InvolvedChild(n: TreeNode, par: map<TreeNode, TreeNode?>, c: TreeNode)
    requires n.Valid() && c in n.children
    ensures Involved(c, par) <= Involved(n, par)
  {
  }

  /** Two parent maps that agree below `n` give the same walk. */
  lemma {:induction false} ParentsLocal(n: TreeNode?, p1: map<TreeNode, TreeNode?>, p2: map<TreeNode, TreeNode?>, r: Run)
    requires n != null ==> n.Valid() && n.repr <= p1.Keys && n.repr <= p2.Keys
    requires n != null ==> forall m :: m in n.repr ==> p1[m] == p2[m]
    ensures PersistTree(n, p1, r) == PersistTree(n, p2, r)
    ensures Involved(n, p1) == Involved(n, p2)
    decreases if n == null then {} else n.repr, 1
  {
    if n != null {
      var r1 := PersistNode(n, p1, r);
      assert r1 == PersistNode(n, p2, r);
      if r1.ok {
        ParentsLocalChildren(n, p1, p2, 0, r1);
      }
    }
  }

  lemma {:induction false} ParentsLocalChildren(n: TreeNode, p1: map<TreeNode, TreeNode?>, p2: map<TreeNode, TreeNode?>, i: nat, r: Run)
    requires n.Valid() && i <= |n.children| && n.repr <= p1.Keys && n.repr <= p2.Keys
    requires forall m :: m in n.repr ==> p1[m] == p2[m]
    ensures PersistChildren(n, p1, i, r) == PersistChildren(n, p2, i, r)
    decreases n.repr, 0, |n.children| - i
  {
    if i < |n.children| {
      var c := n.children[i];
      ParentsLocal(c, p1, p2, r);
      var r1 := PersistTree(c, p1, r);
      if r1.ok {
        ParentsLocalChildren(n, p1, p2, i + 1, r1);
      }
    }
  }

  /** `rs` and `rf` describe the same store, `rs` knowing the identities of
      fewer persons. */
  ghost predicate Agree(rs: Run, rf: Run)
  {
    rs.g == rf.g && rs.ok == rf.ok && (forall p :: p in rs.ids ==> p in rf.ids && rf.ids[p] == rs.ids[p])
  }

  /** Knowing the identities of the persons a walk involves suffices: the
      walk does the same to the store and to those identities, and leaves
      every other identity alone. */
  lemma {:induction false} IdsLocal(n: TreeNode?, par: map<TreeNode, TreeNode?>, rs: Run, rf: Run)
    requires n != null ==> n.Valid() && n.repr <= par.Keys
    requires Agree(rs, rf) && Involved(n, par) <= rs.ids.Keys
    ensures var qs, qf := PersistTree(n, par, rs), PersistTree(n, par, rf);
            Agree(qs, qf) && qs.ids.Keys == rs.ids.Keys && qf.ids == rf.ids + qs.ids
    decreases if n == null then {} else n.repr, 1
  {
    if n == null {
      assert rf.ids + rs.ids == rf.ids;
    } else {
      var s1, f1 := PersistNode(n, par, rs), PersistNode(n, par, rf);
      assert n.data != null ==> n.data in n.people;
      assert n in n.repr;
      assert s1.g == f1.g && s1.ok == f1.ok;
      assert Agree(s1, f1) && s1.ids.Keys == rs.ids.Keys;
      assert f1.ids == rf.ids + s1.ids;
      if s1.ok {
        IdsLocalChildren(n, par, 0, rs, rf, s1, f1);
      }
    }
  }

  lemma {:induction false} IdsLocalChildren(n: TreeNode, par: map<TreeNode, TreeNode?>, i: nat,
                                            rs0: Run, rf0: Run, rs: Run, rf: Run)
    requires n.Valid() && i <= |n.children| && n.repr <= par.Keys
    requires Agree(rs, rf) && Involved(n, par) <= rs.ids.Keys
    requires rs.ids.Keys == rs0.ids.Keys && rf.ids == rf0.ids + rs.ids
    ensures var qs, qf := PersistChildren(n, par, i, rs), PersistChildren(n, par, i, rf);
            Agree(qs, qf) && qs.ids.Keys == rs0.ids.Keys && qf.ids == rf0.ids + qs.ids
    decreases n.repr, 0, |n.children| - i
  {
    if i < |n.children| {
      var c := n.children[i];
      if c != null {
        InvolvedChild(n, par, c);
      }
      IdsLocal(c, par, rs, rf);
      var s1, f1 := PersistTree(c, par, rs), PersistTree(c, par, rf);
      assert f1.ids == rf0.ids + s1.ids;
      if s1.ok {
        IdsLocalChildren(n, par, i + 1, rs0, rf0, s1, f1);
      }
    }
  }

  // ---------------------------------------------------------------------------
  // What persisting a tree promises.
  // ---------------------------------------------------------------------------

  /** Persisting the tree below `n` fails exactly when some node of its
      pre-order walk lacks data, and creates the nodes of the walk up to and
      including the first such node, each with the next fresh identity. */
  lemma PersistTreeCreates(n: TreeNode?, par: map<TreeNode, TreeNode?>, r: Run)
    requires n != null ==> n.Valid() && n.repr <= par.Keys
    requires r.ok && Store.Consistent(r.g)
    ensures var q, w, base := PersistTree(n, par, r), Walk(n), r.g.nextNodeId;
            && q.ok == AllHaveData(w)
            && q.g.nextNodeId == base + CreatedCount(w)
            && (forall id :: id in q.g.nodes <==> id in r.g.nodes || base <= id < base + CreatedCount(w))
            && (forall id :: id in r.g.nodes ==> q.g.nodes[id] == r.g.nodes[id])
  {
    PersistTreePersisted(n, par, r);
    var q, w, base := PersistTree(n, par, r), Walk(n), r.g.nextNodeId;
  }

  /** The `k`-th node the walk creates holds the serialised properties of
      the `k`-th node of the pre-order walk. */
  lemma PersistTreeStoresProperties(n: TreeNode?, par: map<TreeNode, TreeNode?>, r: Run, k: nat)
    requires n != null ==> n.Valid() && n.repr <= par.Keys
    requires r.ok
    requires k < CreatedCount(Walk(n))
    ensures var q := PersistTree(n, par, r);
            r.g.nextNodeId + k in q.g.nodes && q.g.nodes[r.g.nextNodeId + k] == NodeProps(Walk(n)[k])
  {
    PersistTreePersisted(n, par, r);
    PersistedStores(Walk(n), r, PersistTree(n, par, r), k);
  }

  lemma PersistedStores(w: seq<TreeNode>, r0: Run, r: Run, k: nat)
    requires Persisted(w, r0, r) && k < CreatedCount(w)
    ensures r0.g.nextNodeId + k in r.g.nodes && r.g.nodes[r0.g.nextNodeId + k] == NodeProps(w[k])
  {
    var t := Texts(w);
    assert NodesAdded(t, CreatedCount(w), r0, r);
    assert r0.g.nextNodeId + k in r.g.nodes && r.g.nodes[r0.g.nextNodeId + k] == t[k];
    TextsAt(w, k);
  }

  /** What a walk over `w` that starts from the store `g0` promises of the
      store `g` it leaves and of its outcome `ok`: it fails exactly when some
      node lacks data; the `k`-th node of `w` gets the `k`-th fresh identity
      and its own properties, up to and including the first node without
      data; existing nodes and relationships are kept. */
  ghost predicate WalkOutcome(w: seq<TreeNode>, g0: Store.Graph, g: Store.Graph, ok: bool)
  {
    var base, count := g0.nextNodeId, CreatedCount(w);
    && ok == AllHaveData(w)
    && g.nextNodeId == base + count
    && (forall id :: id in g.nodes <==> id in g0.nodes || base <= id < base + count)
    && (forall k :: 0 <= k < count ==> g.nodes[base + k] == NodeProps(w[k]))
    && (forall id :: id in g0.nodes ==> g.nodes[id] == g0.nodes[id])
    && (forall e :: e in g0.rels ==> e in g.rels && g.rels[e] == g0.rels[e])
  }

  lemma PersistTreeOutcome(n: TreeNode?, par: map<TreeNode, TreeNode?>, r: Run)
    requires n != null ==> n.Valid() && n.repr <= par.Keys
    requires r.ok && Store.Consistent(r.g)
    ensures var q := PersistTree(n, par, r); WalkOutcome(Walk(n), r.g, q.g, q.ok)
  {
    var q, w := PersistTree(n, par, r), Walk(n);
    PersistTreeCreates(n, par, r);
    PersistTreeExtends(n, par, r);
    forall k | 0 <= k < CreatedCount(w)
      ensures q.g.nodes[r.g.nextNodeId + k] == NodeProps(w[k])
    {
      PersistTreeStoresProperties(n, par, r, k);
    }
  }

  /** When no data object is shared, each data object reached by the walk
      receives the identity of the node created for it, and the identities
      of all other persons are kept. */
  lemma PersistTreeAssignsIds(n: TreeNode?, par: map<TreeNode, TreeNode?>, r: Run)
    requires n != null ==> n.Valid() && n.repr <= par.Keys
    requires r.ok
    ensures var q, w := PersistTree(n, par, r), Walk(n);
            && (DistinctData(w) ==>
                  forall k :: 0 <= k < CreatedCount(w) && w[k].data != null ==>
                    w[k].data in q.ids && q.ids[w[k].data] == r.g.nextNodeId + k)
            && (forall p :: p in r.ids && p !in DataSet(w) ==> p in q.ids && q.ids[p] == r.ids[p])
  {
    PersistTreePersisted(n, par, r);
  }

  /** The walk keeps every existing relationship and its identity, and keeps
      the store consistent. */
  lemma PersistTreeExtends(n: TreeNode?, par: map<TreeNode, TreeNode?>, r: Run)
    requires n != null ==> n.Valid() && n.repr <= par.Keys
    requires r.ok
    ensures var q := PersistTree(n, par, r);
            && (forall e :: e in r.g.rels ==> e in q.g.rels && q.g.rels[e] == r.g.rels[e])
            && (Store.Consistent(r.g) ==> Store.Consistent(q.g))
  {
    PersistTreePersisted(n, par, r);
  }

  /** Every child's parent pointer is the node whose list holds it. */
  ghost predicate Linked(n: TreeNode, par: map<TreeNode, TreeNode?>)
    requires n.Valid() && n.repr <= par.Keys
    decreases n.repr
  {
    forall i :: 0 <= i < |n.children| && n.children[i] != null ==>
      par[n.children[i]] == n && Linked(n.children[i], par)
  }

  /** The relationship linking `n`, about to be created as the next node of
      the store, to its parent, if the parent has data already stored. */
  ghost function RootEdge(n: TreeNode, par: map<TreeNode, TreeNode?>, r: Run): set<Store.Edge>
    requires n in par
  {
    var p := par[n];
    if p != null && p.data != null && n.data != null then
      var id := r.g.nextNodeId;
      var a := if p.data == n.data then id else Lookup(r.ids, p.data);
      if a in r.g.nodes || a == id then {EdgeBetween(a, id)} else {}
    else {}
  }

  /** The edges a pre-order walk from `n`, started with identity `id`, creates
      below `n`: each child is linked from its parent's identity to its own. */
  ghost function TreeEdges(n: TreeNode?, id: int): set<Store.Edge>
    requires n != null ==> n.Valid()
    decreases if n == null then {} else n.repr, 1
  {
    if n == null then {} else ChildEdges(n, 0, id, id + 1)
  }

  /** The edges created for the children of `n` from position `i` on, where
      `n` has identity `pid` and the next fresh identity is `next`. */
  ghost function ChildEdges(n: TreeNode, i: nat, pid: int, next: int): set<Store.Edge>
    requires n.Valid() && i <= |n.children|
    decreases n.repr, 0, |n.children| - i
  {
    if i == |n.children| then {}
    else
      var c := n.children[i];
      (if c == null then {} else {EdgeBetween(pid, next)} + TreeEdges(c, next))
      + ChildEdges(n, i + 1, pid, next + |Walk(c)|)
  }

  lemma PersistNodeEdge(n: TreeNode, par: map<TreeNode, TreeNode?>, r: Run)
    requires n in par
    ensures PersistNode(n, par, r).g.rels.Keys == r.g.rels.Keys + RootEdge(n, par, r)
  {
    var id := r.g.nextNodeId;
    var g := Store.AddNode(r.g, NodeProps(n));
    var p := par[n];
    if p != null && p.data != null && n.data != null {
      var ids := r.ids[n.data := id];
      var a := Lookup(ids, p.data);
      assert a == if p.data == n.data then id else Lookup(r.ids, p.data);
      Store.MergeAddsAtMostItsEdge(g, EdgeBetween(a, id));
    }
  }

  /** A walk over a tidy tree (parent pointers match the children lists,
      every node has data, none is shared) adds the root's link to its parent
      and the links of `TreeEdges`, and no other relationship. */
  lemma {:induction false} PersistTreeEdges(n: TreeNode, par: map<TreeNode, TreeNode?>, r: Run)
    requires n.Valid() && n.repr <= par.Keys && r.ok
    requires Linked(n, par) && DistinctData(Walk(n)) && AllHaveData(Walk(n))
    ensures PersistTree(n, par, r).g.rels.Keys == r.g.rels.Keys + RootEdge(n, par, r) + TreeEdges(n, r.g.nextNodeId)
    decreases n.repr, 1
  {
    RootStep(n, par, r);
    PersistChildrenEdges(n, par, 0, PersistNode(n, par, r), r.g.nextNodeId);
  }

  /** Persisting the root of a tidy tree links it to its parent and leaves the
      walk of its children tidy, with the root's identity recorded. */
  lemma RootStep(n: TreeNode, par: map<TreeNode, TreeNode?>, r: Run)
    requires n.Valid() && n.repr <= par.Keys && r.ok
    requires DistinctData(Walk(n)) && AllHaveData(Walk(n))
    ensures var r1, rest := PersistNode(n, par, r), WalkFrom(n, 0);
            && r1.g.rels.Keys == r.g.rels.Keys + RootEdge(n, par, r)
            && PersistTree(n, par, r) == PersistChildren(n, par, 0, r1)
            && DistinctData(rest) && AllHaveData(rest)
            && n.data != null && n.data !in DataSet(rest)
            && r1.ok && n.data in r1.ids && r1.ids[n.data] == r.g.nextNodeId && r.g.nextNodeId in r1.g.nodes
            && r1.g.nextNodeId == r.g.nextNodeId + 1
  {
    assert n in n.repr;
    PersistNodeEdge(n, par, r);
    CreateAndLinkEffect(n, NodeProps(n), par, r);
    var rest := WalkFrom(n, 0);
    assert Walk(n) == [n] + rest;
    assert [n][0] == n;
    AllHaveDataConcat([n], rest);
    DistinctDataConcat([n], rest);
  }

  lemma {:induction false} PersistChildrenEdges(n: TreeNode, par: map<TreeNode, TreeNode?>, i: nat, r: Run, pid: int)
    requires n.Valid() && i <= |n.children| && n.repr <= par.Keys && r.ok
    requires Linked(n, par) && DistinctData(WalkFrom(n, i)) && AllHaveData(WalkFrom(n, i))
    requires n.data != null && n.data !in DataSet(WalkFrom(n, i))
    requires n.data in r.ids && r.ids[n.data] == pid && pid in r.g.nodes
    ensures PersistChildren(n, par, i, r).g.rels.Keys == r.g.rels.Keys + ChildEdges(n, i, pid, r.g.nextNodeId)
    decreases n.repr, 0, |n.children| - i
  {
    if i < |n.children| {
      var c, next := n.children[i], r.g.nextNodeId;
      if c == null {
        SplitChildren(n, i);
        assert PersistChildren(n, par, i, r) == PersistChildren(n, par, i + 1, r);
        assert ChildEdges(n, i, pid, next) == ChildEdges(n, i + 1, pid, next);
        PersistChildrenEdges(n, par, i + 1, r, pid);
      } else {
        ChildEdgesStep(n, par, i, r, pid);
      }
    }
  }

  /** The step of `PersistChildrenEdges` for a child that is present. */
  lemma {:induction false} ChildEdgesStep(n: TreeNode, par: map<TreeNode, TreeNode?>, i: nat, r: Run, pid: int)
    requires n.Valid() && i < |n.children| && n.children[i] != null && n.repr <= par.Keys && r.ok
    requires Linked(n, par) && DistinctData(WalkFrom(n, i)) && AllHaveData(WalkFrom(n, i))
    requires n.data != null && n.data !in DataSet(WalkFrom(n, i))
    requires n.data in r.ids && r.ids[n.data] == pid && pid in r.g.nodes
    ensures PersistChildren(n, par, i, r).g.rels.Keys == r.g.rels.Keys + ChildEdges(n, i, pid, r.g.nextNodeId)
    decreases n.repr, 0, |n.children| - i, 0
  {
    var c, next := n.children[i], r.g.nextNodeId;
    SplitChildren(n, i);
    var r1 := PersistTree(c, par, r);
    PersistTreeEdges(c, par, r);
    ChildStep(n, par, i, r, pid);
    assert PersistChildren(n, par, i, r) == PersistChildren(n, par, i + 1, r1);
    assert ChildEdges(n, i, pid, next)
        == {EdgeBetween(pid, next)} + TreeEdges(c, next) + ChildEdges(n, i + 1, pid, r1.g.nextNodeId);
    PersistChildrenEdges(n, par, i + 1, r1, pid);
  }

  /** The walk from child `i` on is the walk of child `i` followed by the walk
      from child `i + 1` on, and each part inherits the tidiness of the whole. */
  lemma SplitChildren(n: TreeNode, i: nat)
    requires n.Valid() && i < |n.children|
    ensures var wc, rest, w := Walk(n.children[i]), WalkFrom(n, i + 1), WalkFrom(n, i);
            && (AllHaveData(w) ==> AllHaveData(wc) && AllHaveData(rest))
            && (DistinctData(w) ==> DistinctData(wc) && DistinctData(rest))
            && DataSet(wc) <= DataSet(w) && DataSet(rest) <= DataSet(w)
            && (n.children[i] == null ==> rest == w)
  {
    var wc, rest := Walk(n.children[i]), WalkFrom(n, i + 1);
    assert WalkFrom(n, i) == wc + rest;
    AllHaveDataConcat(wc, rest);
    if DistinctData(wc + rest) {
      DistinctDataConcat(wc, rest);
    }
    DataSetConcat(wc, rest);
  }

  /** Persisting a child of a tidy node links it to the node and carries the
      node's identity over to the rest of its children. */
  lemma ChildStep(n: TreeNode, par: map<TreeNode, TreeNode?>, i: nat, r: Run, pid: int)
    requires n.Valid() && i < |n.children| && n.children[i] != null && n.repr <= par.Keys && r.ok
    requires Linked(n, par) && AllHaveData(Walk(n.children[i]))
    requires n.data != null && n.data !in DataSet(Walk(n.children[i]))
    requires n.data in r.ids && r.ids[n.data] == pid && pid in r.g.nodes
    ensures RootEdge(n.children[i], par, r) == {EdgeBetween(pid, r.g.nextNodeId)}
    ensures var r1 := PersistTree(n.children[i], par, r);
            && r1.ok && r1.g.nextNodeId == r.g.nextNodeId + |Walk(n.children[i])|
            && n.data in r1.ids && r1.ids[n.data] == pid && pid in r1.g.nodes
  {
    var c := n.children[i];
    var wc := Walk(c);
    assert wc[0] == c;
    assert c.data in DataSet(wc);
    PersistTreePersisted(c, par, r);
  }

  // ---------------------------------------------------------------------------
  // The relationships, as links from each node to its parent.
  // ---------------------------------------------------------------------------

  /** The walk `w` is numbered from `base` by `ids`: its `k`-th node has data
      with identity `base + k`. */
  ghost predicate Numbered(w: seq<TreeNode>, ids: map<Person, int>, base: int)
  {
    forall k :: 0 <= k < |w| ==> w[k].data != null && w[k].data in ids && ids[w[k].data] == base + k
  }

  /** The links, under the identities `ids`, from the parent (in `par`) of
      each node of `w` to that node, for the nodes whose parent has data. */
  ghost function Links(w: seq<TreeNode>, par: map<TreeNode, TreeNode?>, ids: map<Person, int>): set<Store.Edge>
  {
    set k | 0 <= k < |w| && w[k] in par && par[w[k]] != null && par[w[k]].data != null && w[k].data != null
      :: EdgeBetween(Lookup(ids, par[w[k]].data), Lookup(ids, w[k].data))
  }

  lemma NumberedConcat(a: seq<TreeNode>, b: seq<TreeNode>, ids: map<Person, int>, base: int)
    requires Numbered(a + b, ids, base)
    ensures Numbered(a, ids, base) && Numbered(b, ids, base + |a|)
  {
    forall k | 0 <= k < |a|
      ensures a[k].data != null && a[k].data in ids && ids[a[k].data] == base + k
    {
      assert (a + b)[k] == a[k];
    }
    forall k | 0 <= k < |b|
      ensures b[k].data != null && b[k].data in ids && ids[b[k].data] == base + |a| + k
    {
      assert (a + b)[|a| + k] == b[k];
    }
  }

  lemma LinksConcat(a: seq<TreeNode>, b: seq<TreeNode>, par: map<TreeNode, TreeNode?>, ids: map<Person, int>)
    ensures Links(a + b, par, ids) == Links(a, par, ids) + Links(b, par, ids)
  {
    var w := a + b;
    forall k | 0 <= k < |w|
      ensures w[k] == if k < |a| then a[k] else b[k - |a|]
    {
    }
    forall k | 0 <= k < |b|
      ensures b[k] == w[|a| + k]
    {
    }
  }

  /** Under a numbering of the walk, `TreeEdges` are exactly the links from
      every node below `n` to its parent. */
  lemma {:induction false} TreeEdgesAreLinks(n: TreeNode, par: map<TreeNode, TreeNode?>, ids: map<Person, int>, base: int)
    requires n.Valid() && n.repr <= par.Keys && Linked(n, par)
    requires Numbered(Walk(n), ids, base)
    ensures TreeEdges(n, base) == Links(WalkFrom(n, 0), par, ids)
    decreases n.repr, 1
  {
    assert Walk(n) == [n] + WalkFrom(n, 0);
    NumberedConcat([n], WalkFrom(n, 0), ids, base);
    assert [n][0] == n;
    ChildEdgesAreLinks(n, par, 0, ids, base, base + 1);
  }

  lemma {:induction false} ChildEdgesAreLinks(n: TreeNode, par: map<TreeNode, TreeNode?>, i: nat, ids: map<Person, int>, pid: int, next: int)
    requires n.Valid() && i <= |n.children| && n.repr <= par.Keys && Linked(n, par)
    requires n.data != null && n.data in ids && ids[n.data] == pid
    requires Numbered(WalkFrom(n, i), ids, next)
    ensures ChildEdges(n, i, pid, next) == Links(WalkFrom(n, i), par, ids)
    decreases n.repr, 0, |n.children| - i
  {
    if i < |n.children| {
      var c := n.children[i];
      var wc, rest := Walk(c), WalkFrom(n, i + 1);
      assert WalkFrom(n, i) == wc + rest;
      NumberedConcat(wc, rest, ids, next);
      LinksConcat(wc, rest, par, ids);
      ChildEdgesAreLinks(n, par, i + 1, ids, pid, next + |wc|);
      if c != null {
        ChildLinks(n, par, i, ids, pid, next);
      }
    }
  }

  /** The links of the walk of a present child: its own link to `n`, then
      those below it. */
  lemma {:induction false} ChildLinks(n: TreeNode, par: map<TreeNode, TreeNode?>, i: nat, ids: map<Person, int>, pid: int, next: int)
    requires n.Valid() && i < |n.children| && n.children[i] != null && n.repr <= par.Keys && Linked(n, par)
    requires n.data != null && n.data in ids && ids[n.data] == pid
    requires Numbered(Walk(n.children[i]), ids, next)
    ensures {EdgeBetween(pid, next)} + TreeEdges(n.children[i], next) == Links(Walk(n.children[i]), par, ids)
    decreases n.repr, 0, |n.children| - i, 0
  {
    var c := n.children[i];
    var wc := Walk(c);
    TreeEdgesAreLinks(c, par, ids, next);
    assert wc == [c] + WalkFrom(c, 0);
    LinksConcat([c], WalkFrom(c, 0), par, ids);
    assert wc[0] == c;
    assert Links([c], par, ids) == {EdgeBetween(pid, next)} by {
      assert [c][0] == c;
    }
  }

  /** A walk over a tidy tree adds the root's link to its parent and, for
      every other node it reaches, the link from its parent to it, under the
      identities the walk assigned; it adds no other relationship. */
  lemma PersistTreeLinks(n: TreeNode, par: map<TreeNode, TreeNode?>, r: Run)
    requires n.Valid() && n.repr <= par.Keys && r.ok
    requires Linked(n, par) && DistinctData(Walk(n)) && AllHaveData(Walk(n))
    ensures var q := PersistTree(n, par, r);
            q.g.rels.Keys == r.g.rels.Keys + RootEdge(n, par, r) + Links(WalkFrom(n, 0), par, q.ids)
  {
    var q := PersistTree(n, par, r);
    PersistTreeEdges(n, par, r);
    PersistTreeAssignsIds(n, par, r);
    TreeEdgesAreLinks(n, par, q.ids, r.g.nextNodeId);
  }

  /** The root's link when its parent's data is some other, stored person. */
  lemma RootEdgeToStored(n: TreeNode, par: map<TreeNode, TreeNode?>, r: Run)
    requires n in par && par[n] != null && par[n].data != null && n.data != null && par[n].data != n.data
    requires par[n].data in r.ids && r.ids[par[n].data] in r.g.nodes
    ensures RootEdge(n, par, r) == {EdgeBetween(r.ids[par[n].data], r.g.nextNodeId)}
  {
  }

  /** Whatever the tree, the walk links its root to the root's parent when
      both have data and the parent is stored. */
  lemma PersistTreeLinksRoot(n: TreeNode, par: map<TreeNode, TreeNode?>, r: Run)
    requires n.Valid() && n.repr <= par.Keys && r.ok
    ensures RootEdge(n, par, r) <= PersistTree(n, par, r).g.rels.Keys
  {
    assert n in n.repr;
    var r1 := PersistNode(n, par, r);
    PersistNodeEdge(n, par, r);
    if r1.ok {
      PersistChildrenPersisted(n, par, 0, r1);
    }
  }
}
