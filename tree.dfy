/**
 * The in-memory tree: node data (a person with a database identity that is
 * excluded from its JSON form), tree nodes with a parent back-reference and an
 * ordered list of children, and the tree wrapper.
 *
 * Three ghost fields carry what the source leaves to its callers:
 *  - `ancestors` is the chain reached through `parent`; `ParentChain()` says it
 *    is exact, which also makes the chain finite (the source does not check
 *    for parent cycles);
 *  - `repr` is the set of nodes reachable through `children`; `Valid()` says
 *    the children structure is acyclic, which makes the recursive walk finite;
 *  - `people` is the set of data objects of those nodes, the objects whose
 *    identities persisting the subtree may write.
 */
module Tree {
  import Fragments
  import Labels

  /** Node data. `id` is assigned by the database; `name` and `role` are the
      serialised properties, in this order. */
  class Person {
    var id: int
    const name: string
    const role: string

    constructor (name: string, role: string)
      ensures this.name == name && this.role == role && id == 0
    {
      this.name := name;
      this.role := role;
      id := 0;
    }

    /** The JSON text of this person: the identity is ignored, string values are
        quoted (escaping of special characters is not modelled). */
    function Json(): string
    {
      Fragments.PersonJson(name, role)
    }
  }

  class TreeNode {
    const data: Person?
    var parent: TreeNode?
    const children: seq<TreeNode?>
    ghost var ancestors: seq<TreeNode>
    ghost const repr: set<TreeNode>
    ghost const people: set<Person>

    /** A parentless node over the given children, each a well-formed tree.
        Data and children are fixed at construction: the service only reads them. */
    constructor (data: Person?, children: seq<TreeNode?>)
      requires forall i :: 0 <= i < |children| && children[i] != null ==> children[i].Valid()
      ensures this.data == data && this.children == children && parent == null
      ensures ancestors == []
      ensures repr == {this} + SubtreeNodes(children)
      ensures people == (if data == null then {} else {data}) + SubtreePeople(children)
      ensures Valid() && ParentChain()
    {
      this.data := data;
      this.children := children;
      parent := null;
      ancestors := [];
      repr := {this} + SubtreeNodes(children);
      people := (if data == null then {} else {data}) + SubtreePeople(children);
      new;
      SubtreeNodesContains(children);
      SubtreePeopleContains(children);
    }

    /** `ancestors` lists exactly the nodes reached by following `parent`,
        nearest first, and the last of them has no parent. */
    ghost predicate ParentChain()
      reads this, ancestors
    {
      (parent == null <==> ancestors == [])
      && (ancestors != [] ==> ancestors[0] == parent)
      && (forall i {:trigger ancestors[i].parent} :: 0 <= i < |ancestors| - 1 ==> ancestors[i].parent == ancestors[i + 1])
      && (ancestors != [] ==> ancestors[|ancestors| - 1].parent == null)
    }

    /** The children structure below this node is finite and acyclic, `repr`
        holds every node reachable through `children` and `people` their data. */
    ghost predicate Valid()
      decreases repr
    {
      this in repr
      && (data != null ==> data in people)
      && forall i :: 0 <= i < |children| && children[i] != null ==>
           && children[i] in repr
           && children[i].repr <= repr
           && children[i].people <= people
           && this !in children[i].repr
           && children[i].Valid()
    }

    /** Counts this node and every ancestor walked through `parent`. */
    method GetHeight() returns (height: int)
      requires ParentChain()
      ensures height == |ancestors| + 1
    {
      height := 1;
      var current := this;
      while current.parent != null
        invariant 1 <= height <= |ancestors| + 1
        invariant height == 1 ==> current == this
        invariant height > 1 ==> current == ancestors[height - 2]
        decreases |ancestors| + 1 - height
      {
        height := height + 1;
        current := current.parent;
      }
    }

    /** The label of the relationship from this node to `another`, built from
        the two nodes' current identities. */
    function GetRelationshipId(another: TreeNode): (r: string)
      requires data != null && another.data != null
      reads data, another.data
      ensures r == Labels.RelationshipLabel(data.id, another.data.id)
    {
      "_" + Labels.IdToString(data.id) + "_TO_" + Labels.IdToString(another.data.id) + "_"
    }
  }

  class Tree {
    var root: TreeNode?

    constructor (root: TreeNode?)
      ensures this.root == root
    {
      this.root := root;
    }
  }

  /** Every node reachable from the (non-null) entries of `cs`. */
  ghost function SubtreeNodes(cs: seq<TreeNode?>): set<TreeNode>
    decreases |cs|
  {
    if cs == [] then {}
    else SubtreeNodes(cs[..|cs| - 1]) + (if cs[|cs| - 1] == null then {} else cs[|cs| - 1].repr)
  }

  ghost function SubtreePeople(cs: seq<TreeNode?>): set<Person>
    decreases |cs|
  {
    if cs == [] then {}
    else SubtreePeople(cs[..|cs| - 1]) + (if cs[|cs| - 1] == null then {} else cs[|cs| - 1].people)
  }

  lemma {:induction false} SubtreePeopleContains(cs: seq<TreeNode?>)
    ensures forall i :: 0 <= i < |cs| && cs[i] != null ==> cs[i].people <= SubtreePeople(cs)
    decreases |cs|
  {
    if cs != [] {
      SubtreePeopleContains(cs[..|cs| - 1]);
      forall i | 0 <= i < |cs| - 1 && cs[i] != null
        ensures cs[i].people <= SubtreePeople(cs)
      {
        assert cs[..|cs| - 1][i] == cs[i];
      }
    }
  }

  lemma {:induction false} SubtreeNodesContains(cs: seq<TreeNode?>)
    ensures forall i :: 0 <= i < |cs| && cs[i] != null ==> cs[i].repr <= SubtreeNodes(cs)
    decreases |cs|
  {
    if cs != [] {
      SubtreeNodesContains(cs[..|cs| - 1]);
      forall i | 0 <= i < |cs| - 1 && cs[i] != null
        ensures cs[i].repr <= SubtreeNodes(cs)
      {
        assert cs[..|cs| - 1][i] == cs[i];
      }
    }
  }

  /** An exact parent chain never revisits a node: walking `parent` from a
      node reaches no node twice and never comes back to the start, so the
      loop of `GetHeight` ends. */
  lemma {:induction false} ParentChainAcyclic(n: TreeNode, i: nat, j: nat)
    requires n.ParentChain()
    requires i < j < |n.ancestors|
    ensures n.ancestors[i] != n.ancestors[j]
    decreases |n.ancestors| - i
  {
    var a := n.ancestors;
    assert a[i].parent == a[i + 1];
    if j + 1 < |a| {
      assert a[j].parent == a[j + 1];
      ParentChainAcyclic(n, i + 1, j + 1);
    } else {
      assert a[j].parent == null;
    }
  }

  lemma ParentChainExcludesSelf(n: TreeNode, i: nat)
    requires n.ParentChain()
    requires i < |n.ancestors|
    ensures n.ancestors[i] != n
  {
    var a := n.ancestors;
    if i + 1 < |a| {
      assert a[i].parent == a[i + 1];
      ParentChainAcyclic(n, 0, i + 1);
    } else {
      assert a[i].parent == null;
    }
  }

  // ---------------------------------------------------------------------------
  // The pre-order walk, as a specification.
  // ---------------------------------------------------------------------------

  /** The nodes visited by a pre-order walk from `n`: `n`, then the walk of
      each child in list order; a null entry contributes nothing. */
  ghost function Walk(n: TreeNode?): seq<TreeNode>
    requires n != null ==> n.Valid()
    decreases if n == null then {} else n.repr, 1
  {
    if n == null then [] else [n] + WalkFrom(n, 0)
  }

  /** The walks of the children of `n` from position `i` on, concatenated. */
  ghost function WalkFrom(n: TreeNode, i: nat): seq<TreeNode>
    requires n.Valid() && i <= |n.children|
    decreases n.repr, 0, |n.children| - i
  {
    if i == |n.children| then []
    else Walk(n.children[i]) + WalkFrom(n, i + 1)
  }

  ghost predicate AllHaveData(w: seq<TreeNode>)
  {
    forall k :: 0 <= k < |w| ==> w[k].data != null
  }

  /** No two positions of `w` share a data object. */
  ghost predicate DistinctData(w: seq<TreeNode>)
  {
    forall j, k :: 0 <= j < |w| && 0 <= k < |w| && w[j].data != null && w[j].data == w[k].data ==> j == k
  }

  ghost function DataSet(w: seq<TreeNode>): set<Person>
  {
    set k | 0 <= k < |w| && w[k].data != null :: w[k].data
  }

  /** The number of nodes a walk persisting `w` in order creates: it stops
      right after the first node without data (that node is still created). */
  ghost function CreatedCount(w: seq<TreeNode>): (c: nat)
    ensures c <= |w|
    ensures AllHaveData(w) ==> c == |w|
    ensures !AllHaveData(w) ==> 0 < c && w[c - 1].data == null && AllHaveData(w[..c - 1])
    decreases |w|
  {
    if w == [] then 0
    else if w[0].data == null then 1
    else 1 + CreatedCount(w[1..])
  }

  lemma {:induction false} CreatedCountAppend(a: seq<TreeNode>, b: seq<TreeNode>)
    ensures CreatedCount(a + b) == if AllHaveData(a) then |a| + CreatedCount(b) else CreatedCount(a)
    decreases |a|
  {
    if a != [] {
      assert (a + b)[0] == a[0];
      assert (a + b)[1..] == a[1..] + b;
      CreatedCountAppend(a[1..], b);
      if a[0].data != null {
        assert AllHaveData(a) == AllHaveData(a[1..]);
      }
    } else {
      assert a + b == b;
    }
  }

  lemma AllHaveDataConcat(a: seq<TreeNode>, b: seq<TreeNode>)
    ensures AllHaveData(a + b) == (AllHaveData(a) && AllHaveData(b))
  {
    if AllHaveData(a) && AllHaveData(b) {
      forall k | 0 <= k < |a + b|
        ensures (a + b)[k].data != null
      {
        if k >= |a| {
          assert (a + b)[k] == b[k - |a|];
        }
      }
    }
    if AllHaveData(a + b) {
      forall k | 0 <= k < |b|
        ensures b[k].data != null
      {
        assert (a + b)[|a| + k] == b[k];
      }
      forall k | 0 <= k < |a|
        ensures a[k].data != null
      {
        assert (a + b)[k] == a[k];
      }
    }
  }

  lemma DistinctDataConcat(a: seq<TreeNode>, b: seq<TreeNode>)
    requires DistinctData(a + b)
    ensures DistinctData(a) && DistinctData(b)
    ensures forall k :: 0 <= k < |a| && a[k].data != null ==> a[k].data !in DataSet(b)
  {
    var w := a + b;
    forall j, k | 0 <= j < |a| && 0 <= k < |a| && a[j].data != null && a[j].data == a[k].data
      ensures j == k
    {
      assert w[j] == a[j] && w[k] == a[k];
    }
    forall j, k | 0 <= j < |b| && 0 <= k < |b| && b[j].data != null && b[j].data == b[k].data
      ensures j == k
    {
      assert w[|a| + j] == b[j] && w[|a| + k] == b[k];
    }
    forall k, j | 0 <= k < |a| && 0 <= j < |b| && a[k].data != null
      ensures b[j].data != a[k].data
    {
      assert w[k] == a[k] && w[|a| + j] == b[j];
    }
  }

  lemma DataSetConcat(a: seq<TreeNode>, b: seq<TreeNode>)
    ensures DataSet(a + b) == DataSet(a) + DataSet(b)
  {
    forall p | p in DataSet(a + b)
      ensures p in DataSet(a) + DataSet(b)
    {
      var k :| 0 <= k < |a + b| && (a + b)[k].data != null && (a + b)[k].data == p;
      if k < |a| {
        assert (a + b)[k] == a[k];
      } else {
        assert (a + b)[k] == b[k - |a|];
      }
    }
    forall p | p in DataSet(a) + DataSet(b)
      ensures p in DataSet(a + b)
    {
      if p in DataSet(a) {
        var k :| 0 <= k < |a| && a[k].data != null && a[k].data == p;
        assert (a + b)[k] == a[k];
      } else {
        var k :| 0 <= k < |b| && b[k].data != null && b[k].data == p;
        assert (a + b)[|a| + k] == b[k];
      }
    }
  }

  /** Every data object the walk from `n` reaches belongs to `n.people`. */
  lemma {:induction false} WalkPeople(n: TreeNode?)
    requires n != null ==> n.Valid()
    ensures n != null ==> DataSet(Walk(n)) <= n.people
    decreases if n == null then {} else n.repr, 1
  {
    if n != null {
      WalkFromPeople(n, 0);
      DataSetConcat([n], WalkFrom(n, 0));
      assert [n][0] == n;
    }
  }

  lemma {:induction false} WalkFromPeople(n: TreeNode, i: nat)
    requires n.Valid() && i <= |n.children|
    ensures DataSet(WalkFrom(n, i)) <= n.people
    decreases n.repr, 0, |n.children| - i
  {
    if i < |n.children| {
      WalkPeople(n.children[i]);
      WalkFromPeople(n, i + 1);
      DataSetConcat(Walk(n.children[i]), WalkFrom(n, i + 1));
    }
  }
}
