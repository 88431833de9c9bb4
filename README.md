# Neo4j tree persistence, modelled in Dafny

This project models the tree-to-graph synchronisation of the Neo4j client
driver sample. It covers three parts:

- **Tree model.** `TreeNode` has a parent back-reference and an ordered list of children.
  - `GetHeight` counts the levels up to the root.
  - `GetRelationshipId` builds the label `_<idA>_TO_<idB>_`.
- **Property-fragment serialisers.** Two character scans rewrite the JSON text of a node's
  data into Cypher property text.
  - For a person, the create form is `{Name:"…",Role:"…"}`.
  - For a person, the set form is `node.Name="…",node.Role="…"`.
- **Persistence service.** `Neo4jService` writes a tree into the graph database in
  pre-order:
  1. create each node;
  2. write the new identity back into its data;
  3. MERGE the relationship from its parent;
  4. recurse into the children in list order.

The database is an abstract in-memory store. It has a fresh-identity counter, a map from
node identity to the property text stored there, and relationships keyed by
(start, end, type) with merge semantics.

Modules:

- `Labels`: decimal notation of identities and relationship labels.
  - Reading the notation back gives the identity.
  - Distinct identity pairs get distinct labels.
- `Tree`:
  - `Person`: the `id` field is mutable; `name` and `role` are fixed.
  - `TreeNode`: `parent` is mutable. It has ghost `ancestors`, `repr` and `people`.
    `ParentChain()` says the parent chain is exact. `Valid()` says the children structure
    is acyclic.
  - `Tree`.
  - The pre-order walk `Walk` as a specification.
- `Fragments`: both serialisers.
  - Each is a loop method, as the source writes it.
  - Each is specified by a function defined on prefixes.
  - Lemmas state what the fragments are.
- `Store`: the graph store, in two forms.
  - A value `Graph` with the statements `AddNode`, `MergeEdge`, `SetNode` and `ClearGraph`.
  - The class `GraphStore`, whose methods perform those statements in place.
- `Persistence`: persisting a tree as a function on values.
  - `PersistTree` threads the store, the persons' identities and a success flag through
    the walk.
  - The lemmas say what the walk creates, which identities it assigns, which properties
    it stores, and which relationships it adds.
- `Service`: the class `Neo4jService`, whose methods update a `GraphStore` and the
  persons' `id` fields.
  - `CreateNode`, `CreateRelationship`, `CreateRelationshipWithParent` and `UpdateNode`
    are proved to perform the `Store` statements `AddNode`, `MergeEdge` and `SetNode`.
  - `CreateTreeNode`, `CreateTree` and `CreateTreeNodeUnder` are proved to end in the
    store and identities that `Persistence.PersistTree` describes.

Where the system's description and the code differ, the model follows the code:

- One relationship per (parent, child) pair is created only for tidy trees.
- The guard in `CreateRelationship` (Program.cs:264) tests for missing data, not for an unset identity. A node still at identity 0 is therefore matched by identity 0 like any other.
- A tree walk is not all-or-nothing. A node without data stops it, and the nodes already written stay.

## Model

| member | source | states |
|---|---|---|
| Tree.TreeNode.GetHeight | Neo4jClientDriver/Program.cs:36-46 | the result is one more than the number of ancestors: 1 for a node without parent, k+1 for k ancestors |
| Tree.ParentChainAcyclic | Neo4jClientDriver/Program.cs:40-44 | an exact parent chain reaches no node twice, so the height loop ends |
| Tree.ParentChainExcludesSelf | Neo4jClientDriver/Program.cs:40-44 | walking `Parent` from a node never comes back to it |
| Tree.TreeNode.GetRelationshipId | Neo4jClientDriver/Program.cs:48-51 | the label is `_` idA `_TO_` idB `_`, built from the two nodes' current identities |
| Labels.NatToString | Neo4jClientDriver/Program.cs:50 | the decimal notation of a number is non-empty and made of digits |
| Labels.NatToStringRoundTrip | Neo4jClientDriver/Program.cs:50 | reading the decimal notation back gives the number |
| Labels.IdToString | Neo4jClientDriver/Program.cs:50 | the notation of an identity (a sign for negative ones) is non-empty and holds no `_` |
| Labels.IdToStringRoundTrip | Neo4jClientDriver/Program.cs:50 | the notation of an identity is well-formed and reads back as the identity |
| Labels.IdToStringInjective | Neo4jClientDriver/Program.cs:50 | distinct identities are written differently |
| Labels.LabelPartsUnique | Neo4jClientDriver/Program.cs:50 | `_x_TO_y_` splits back into x and y uniquely when x holds no `_` |
| Labels.RelationshipLabelInjective | Neo4jClientDriver/Program.cs:48-51 | equal labels come from equal identity pairs, so distinct pairs get distinct labels |
| Labels.RelationshipLabel | Neo4jClientDriver/Program.cs:50 | the label `_` idA `_TO_` idB `_` of two identities (definition; `RelationshipLabelInjective` states its property) |
| Tree.Person.constructor | Neo4jClientDriver/Program.cs:65-69 | sets name and role, leaving the identity at its default 0 |
| Tree.TreeNode.constructor | Neo4jClientDriver/Program.cs:30-35 | a node over its data and children, without parent, with an exact (empty) ancestor chain; its footprint `repr` is itself plus its children's subtrees and `people` its data plus theirs, so a caller knows what the walk methods may change |
| Tree.Person.Json | Neo4jClientDriver/Program.cs:156 | the JSON text of a person is `PersonJson` of its name and role; the identity is ignored, as `[JsonIgnore]` at line 26 causes |
| Tree.Tree.constructor | Neo4jClientDriver/Program.cs:54-57 | a tree holding the given root |
| Tree.CreatedCount | Neo4jClientDriver/Program.cs:126-137 | a persisting walk creates every node if all have data; otherwise it creates those up to and including the first without data |
| Fragments.CypherSerializeToCreatePropertiesObject | Neo4jClientDriver/Program.cs:170-193 | the loop's `remove` flag is always `KeyPosition` of the prefix read, and the result is `CreateFragment` of the JSON |
| Fragments.KeyPosition | Neo4jClientDriver/Program.cs:174-185 | the `remove` flag after a prefix: its last `:` or `,` decides (definition; `KeyPositionByLastDelimiter` states it independently) |
| Fragments.CreateFragment | Neo4jClientDriver/Program.cs:176-192 | the create-fragment is never longer than the JSON |
| Fragments.CreateFragmentDeletesOnlyQuotes | Neo4jClientDriver/Program.cs:176-192 | the create-fragment is the JSON with some `"` deleted and every other character kept in order |
| Fragments.QuoteDeletionKeepsCounts | Neo4jClientDriver/Program.cs:186-190 | deleting quotes keeps the count of every other character |
| Fragments.CreateFragmentKeepsCount | Neo4jClientDriver/Program.cs:186-190 | the create-fragment has as many of each non-quote character as the JSON |
| Fragments.CreateFragmentWithoutQuotes | Neo4jClientDriver/Program.cs:186-190 | JSON without `"` is returned unchanged |
| Fragments.KeyPositionByLastDelimiter | Neo4jClientDriver/Program.cs:174-185 | `remove` holds exactly when the last `:` or `,` read is a `,`, or there is none |
| Fragments.CreateFragmentKeepsKeyPosition | Neo4jClientDriver/Program.cs:174-189 | the create-fragment ends in key position exactly when the JSON does |
| Fragments.CreateFragmentIdempotent | Neo4jClientDriver/Program.cs:174-189 | applying the create transform twice equals applying it once |
| Fragments.CreateFragmentAppend | Neo4jClientDriver/Program.cs:176-190 | reading one more character appends exactly what the loop body appends for it |
| Fragments.KeyPositionAppend | Neo4jClientDriver/Program.cs:178-185 | `:` clears `remove`, `,` sets it, any other character leaves it |
| Fragments.CreatePlainAppend | Neo4jClientDriver/Program.cs:186-190 | text without `:`, `,` or `"` (a plain name or role) is copied verbatim and leaves `remove` unchanged |
| Fragments.CypherSerializeToSetPropertiesQuery | Neo4jClientDriver/Program.cs:195-229 | the result is `SetFragment` of node and JSON and begins with `node + "."` |
| Fragments.SetFragment | Neo4jClientDriver/Program.cs:195-229 | the set-fragment is `node + "."` followed by the rewritten body (definition; the lemmas below state its properties) |
| Fragments.SetBodyAppend | Neo4jClientDriver/Program.cs:203-227 | reading one more character appends exactly what the set loop body appends for it |
| Fragments.SetBodyIsExpandedCreateFragment | Neo4jClientDriver/Program.cs:205-226 | the set body is the create-fragment with braces dropped, `:` written as `=` and the prefix after every `,`, so quotes go only in key position |
| Fragments.SetFragmentCommaFollowedByPrefix | Neo4jClientDriver/Program.cs:215-221 | every `,` of the set-fragment is immediately followed by `node + "."` |
| Fragments.SetFragmentCommaCount | Neo4jClientDriver/Program.cs:215-221 | the set-fragment has exactly as many `,` as the JSON, so 1 + that many prefixes |
| Fragments.SetFragmentRewritesStructure | Neo4jClientDriver/Program.cs:205-214 | the set-fragment holds no `:`, `{` or `}`, and its `=` count is the JSON's `:` plus `=` count |
| Fragments.ExpandCommaFollowedByPrefix | Neo4jClientDriver/Program.cs:215-221 | the rewrite puts the prefix right after every `,` it emits |
| Fragments.ExpandCommaCount | Neo4jClientDriver/Program.cs:215-221 | the rewrite keeps the number of `,` |
| Fragments.ExpandEqualsCount | Neo4jClientDriver/Program.cs:209-214 | the rewrite's `=` are the input's `:` and `=` |
| Fragments.ExpandDropsStructure | Neo4jClientDriver/Program.cs:205-214 | the rewrite leaves no `:`, `{` or `}` |
| Fragments.SetPlainAppend | Neo4jClientDriver/Program.cs:222-226 | text without structure characters or `"` is copied verbatim into the set body |
| Fragments.PersonJson | Neo4jClientDriver/Program.cs:172 | the JSON text `{"Name":"…","Role":"…"}` of an object with the two string fields, without escaping |
| Fragments.PersonCreateFragment | Neo4jClientDriver/Program.cs:170-193 | for a name and role free of `{ } : , "`, the create-fragment of the person's JSON is `{Name:"<name>",Role:"<role>"}` |
| Fragments.PersonSetFragment | Neo4jClientDriver/Program.cs:195-229 | for such a name and role, the set-fragment with prefix `node` is `node.Name="<name>",node.Role="<role>"` |
| Fragments.CreateKey | Neo4jClientDriver/Program.cs:178-189 | a key `"k":"` read in key position loses the key's quotes and keeps the value's opening quote |
| Fragments.CreateNextKey | Neo4jClientDriver/Program.cs:178-189 | after a value, `","k":"` keeps the closing quote and comma and unquotes the next key |
| Fragments.SetKey | Neo4jClientDriver/Program.cs:209-225 | in the set scan, a key `"k":"` becomes `k="` |
| Fragments.SetNextKey | Neo4jClientDriver/Program.cs:215-225 | in the set scan, `","k":"` after a value becomes `",` followed by the prefix and `k="` |
| Store.AddNode | Neo4jClientDriver/Program.cs:161-164 | the CREATE statement (definition; `AddNodeKeepsConsistent` and `GraphStore.CreateNode` state it) |
| Store.MergeEdge | Neo4jClientDriver/Program.cs:266-273 | the MATCH/MERGE statement (definition; `MergeAddsAtMostItsEdge` and `MergeEdgeIdempotent` state it) |
| Store.SetNode | Neo4jClientDriver/Program.cs:238-242 | the MATCH/SET statement (definition; `SetNodeKeepsConsistent` states it) |
| Store.ClearGraph | Neo4jClientDriver/Program.cs:104-112 | the MATCH/DELETE statement that empties the database (definition; `ClearEmpties` states it) |
| Store.ClearEmpties | Neo4jClientDriver/Program.cs:104-112 | clearing leaves no node and no relationship, keeps the store consistent and the identity counters, so the next node created is the only one |
| Store.AddNodeKeepsConsistent | Neo4jClientDriver/Program.cs:161-164 | CREATE uses an identity not yet stored and keeps the store consistent |
| Store.MergeAddsAtMostItsEdge | Neo4jClientDriver/Program.cs:266-273 | MERGE adds the relationship when both ends are stored, and nothing else; it keeps existing relationships, their identities and consistency, and returns the relationship's identity |
| Store.MergeEdgeIdempotent | Neo4jClientDriver/Program.cs:266-273 | merging the same relationship twice is merging it once |
| Store.SetNodeKeepsConsistent | Neo4jClientDriver/Program.cs:238-242 | SET on a node by identity keeps the set of nodes and consistency |
| Store.GraphStore.constructor | Neo4jClientDriver/Program.cs:98-102 | a connected store: empty, consistent, with the given first identities |
| Store.GraphStore.Clear | Neo4jClientDriver/Program.cs:104-112 | the new state is `ClearGraph` of the old, and consistent |
| Store.GraphStore.CreateNode | Neo4jClientDriver/Program.cs:161-164 | returns the next, unused identity; the new state is `AddNode` of the old |
| Store.GraphStore.MergeRelationship | Neo4jClientDriver/Program.cs:266-273 | the new state and identity are `MergeEdge` of the old state |
| Store.GraphStore.SetProperties | Neo4jClientDriver/Program.cs:238-242 | the new state is `SetNode` of the old |
| Persistence.EdgeBetween | Neo4jClientDriver/Program.cs:271 | the relationship from a to b has type (and name) equal to the label of a and b |
| Persistence.NodeProps | Neo4jClientDriver/Program.cs:156-159 | the property text of a node: the create-fragment of its data's JSON, `null` when data is missing (definition; the next two rows state it) |
| Persistence.NodePropsOfPerson | Neo4jClientDriver/Program.cs:156-159 | a node holding a person with plain name and role is created with `{Name:"<name>",Role:"<role>"}` |
| Persistence.NodePropsOfNull | Neo4jClientDriver/Program.cs:156-159 | a node without data is created with the text `null`, as `(j:Datanull)` |
| Persistence.LinkToParent | Neo4jClientDriver/Program.cs:254-260 | the MERGE of the link from the parent's identity to the node's when both have data, else no change (definition; `PersistNodeEdge` states its effect) |
| Persistence.CreateAndLink | Neo4jClientDriver/Program.cs:126-128 | one node created with its text, its identity recorded, then linked to its parent; missing data fails after the create (definition; `CreateAndLinkEffect` states it) |
| Persistence.PersistNode | Neo4jClientDriver/Program.cs:126-128 | persisting one node with its own property text (definition; `PersistNodePersisted` states it) |
| Persistence.PersistTree | Neo4jClientDriver/Program.cs:119-139 | the pre-order walk: null does nothing, a node is persisted and then its children, a failure stops it (definition; `PersistTreePersisted` ties it to `Walk`) |
| Persistence.PersistChildren | Neo4jClientDriver/Program.cs:130-137 | the children in list order, stopping at a failure (definition; `PersistChildrenPersisted` ties it to `WalkFrom`) |
| Persistence.CreateAndLinkEffect | Neo4jClientDriver/Program.cs:126-128 | persisting one node adds exactly one node with its text, fails exactly when data is missing, and records the identity of the data |
| Persistence.PersistNodePersisted | Neo4jClientDriver/Program.cs:126-128 | persisting one node satisfies the walk summary for a one-node walk |
| Persistence.PersistTreePersisted | Neo4jClientDriver/Program.cs:119-139 | persisting the tree is persisting its pre-order walk, node by node |
| Persistence.PersistChildrenPersisted | Neo4jClientDriver/Program.cs:134-137 | persisting the children in list order is persisting their walks in turn |
| Persistence.ParentsLocal | Neo4jClientDriver/Program.cs:119-139 | the walk reads only the parent pointers of the nodes below its root |
| Persistence.IdsLocal | Neo4jClientDriver/Program.cs:119-139 | the walk depends only on the identities of the persons it involves |
| Persistence.PersistTreeCreates | Neo4jClientDriver/Program.cs:119-166 | the walk succeeds exactly when every node has data; it creates `CreatedCount` fresh nodes and only those, and leaves stored nodes alone |
| Persistence.PersistTreeStoresProperties | Neo4jClientDriver/Program.cs:156-164 | the k-th created node holds the create-fragment of the k-th walked node's data |
| Persistence.PersistedStores | Neo4jClientDriver/Program.cs:156-164 | the same, for any walk summary |
| Persistence.PersistTreeOutcome | Neo4jClientDriver/Program.cs:119-168 | the walk's outcome: success flag, count, new node identities and their texts, old nodes and relationships kept |
| Persistence.PersistTreeAssignsIds | Neo4jClientDriver/Program.cs:161-166 | with no data object shared, the k-th created node's data gets identity base + k |
| Persistence.PersistTreeExtends | Neo4jClientDriver/Program.cs:254-276 | the walk keeps every relationship and its identity, and keeps the store consistent |
| Persistence.PersistNodeEdge | Neo4jClientDriver/Program.cs:126-128 | persisting a node adds at most its link to its parent |
| Persistence.PersistTreeEdges | Neo4jClientDriver/Program.cs:119-139 | a tidy tree's walk adds its root link and one relationship from each parent to each child |
| Persistence.TreeEdgesAreLinks | Neo4jClientDriver/Program.cs:134-137 | those relationships are exactly the links from each walked node's parent to it |
| Persistence.PersistTreeLinks | Neo4jClientDriver/Program.cs:119-139 | for a tidy tree, the relationships added are exactly the root's link and every node's link from its parent |
| Persistence.PersistTreeLinksRoot | Neo4jClientDriver/Program.cs:128 | for any tree, the walk creates the root's link to its parent when one is due |
| Persistence.RootEdgeToStored | Neo4jClientDriver/Program.cs:141-147 | when the parent holds another, stored person, the root's link is the relationship from that identity to the root's new one |
| Service.Neo4jService.CreateNode | Neo4jClientDriver/Program.cs:149-168 | a null node gives 0 and no change; otherwise the node is created with its create-fragment and the identity is written back; missing data fails after the create |
| Service.Neo4jService.CreateRelationship | Neo4jClientDriver/Program.cs:262-276 | a missing node or data gives 0 and no change; otherwise the state and result are the MERGE of the labelled relationship |
| Service.Neo4jService.CreateRelationshipWithParent | Neo4jClientDriver/Program.cs:254-260 | without parent (or data) no change; otherwise MERGE of the link from the parent |
| Service.Neo4jService.UpdateNode | Neo4jClientDriver/Program.cs:231-243 | a missing node or data changes nothing; otherwise the node with that identity gets the set-fragment of prefix `node` |
| Service.Neo4jService.CreateTreeNode | Neo4jClientDriver/Program.cs:119-139 | the store and the persons' identities end as `PersistTree` says, from the parent pointers before the call |
| Service.Neo4jService.CreateChildren | Neo4jClientDriver/Program.cs:130-137 | the children loop ends as `PersistChildren` says, stopping at a failure |
| Service.Neo4jService.CreateChild | Neo4jClientDriver/Program.cs:136 | persisting one child inside the walk changes only what that child's walk changes |
| Service.Neo4jService.constructor | Neo4jClientDriver/Program.cs:92-96 | the service works on the given store, which it clears first: afterwards the store is consistent and holds no node and no relationship |
| Service.Neo4jService.ClearDatabase | Neo4jClientDriver/Program.cs:104-112 | the store becomes `ClearGraph` of the old one: every node and relationship deleted |
| Service.Neo4jService.CreateTree | Neo4jClientDriver/Program.cs:114-117 | a null tree fails and changes nothing; otherwise the store and identities end as `PersistTree` from the root says, the walk outcome holds, with no shared data each created node's data holds its identity, and for a tidy tree the relationships added are the root link and every parent-to-child link |
| Service.Neo4jService.CreateTreeFrom | Neo4jClientDriver/Program.cs:116 | the same for the walk from a given root |
| Service.IdsWritten | Neo4jClientDriver/Program.cs:166 | after the walk, with no shared data, the k-th created node's data holds identity base + k |
| Service.Neo4jService.CreateTreeNodeUnder | Neo4jClientDriver/Program.cs:141-147 | a fresh parent holding the read person is attached and the subtree is persisted as `PersistTree` says; the root is linked to the stored parent identity; a null node fails and changes nothing |
| Service.NewCompanyOfTwo | Neo4jClientDriver/Program.cs:345-369 | a root person with one report whose `Parent` is the root: the tree is well-formed, tidy, its walk is root then report, and its footprint is exactly the two nodes and their persons |
| Service.PersistCompanyOfTwo | Neo4jClientDriver/Program.cs:438-439 | a new service persisting such a tree succeeds, creates nodes 0 and 1 holding the create-fragments of the two persons (`{Name:"…",Role:"…"}` for plain values) and exactly one relationship, from 0 to 1 |

## Left out

- Neo4jGraphTutorial/Program.cs is not part of this model. It is a hello-world over the Bolt driver with console output.
- Connecting to the database (Program.cs:98-102) is a network operation. The connected database is the `GraphStore` handed to the service, which the constructor then clears.
- `DeleteNode`, `GetNodeRelationships`, `GetRelationship`, `DeleteRelationship`, `UpdateRelationship` and `GetNextNode` are left out. Their meaning is the database's, not this code's.
- `GetNode` (Program.cs:330-340) is a database read. Its result is the parameter `found` of `CreateTreeNodeUnder`, which requires only that a found person carries the identity that was read.
- The Cypher query texts, the `GraphClient` fluent builder and `ResultsAsync` are replaced by the store operation each query amounts to.
  - Node creation always returns the new identity.
  - The `FirstOrDefault` default of 0 appears only where MERGE matches no node.
- JSON serialisation: the serialisers take the JSON text as input. `Person.Json` writes `{"Name":"…","Role":"…"}` without escaping special characters. The identity is omitted, as `[JsonIgnore]` causes.
- Concurrency: `async`/`await` and `Task` are modelled as sequential calls.
- Database errors, for example a rejected query, are not modelled.
- `Decision`, `Option`, `Relationship` and `TreeEdge` are left out. They have no behaviour in the core.
- The `Main` demo (Program.cs:343-486) is modelled only for a root with one report, with the names as parameters (`Service.PersistCompanyOfTwo`); its full tree and the calls after `CreateTree` are not.
- A null `Children` list is modelled as an empty list. The walk treats both the same: it visits no children.
- `Data` and `Children` are fixed at construction, because the service only reads them. `Name` and `Role` are fixed too.
- The exceptions are modelled as failure (`ok` false), which stops the walk and leaves the nodes written so far.
  - `CreateNode` on a node without data creates the node `(j:Datanull)` and then fails where the source throws at line 166.
  - The overload `CreateTreeNode(treeNode, parentNodeId)` on a null node fails before writing, where the source throws at line 145.
  - `CreateTree` on a null tree fails before writing, where the source throws reading `tree.Root` at line 116.
- Tree.TreeNode.GetHeight: does not model 32-bit `int` overflow. The result is an unbounded integer.
- Identities are unbounded integers, not 64-bit `long`. No overflow is modelled.
- Parent cycles are not checked by the source. `GetHeight` requires the ghost `ParentChain()`, which also makes the chain finite.
- Service.Neo4jService.CreateTreeNodeUnder: re-parenting `n` updates the ghost ancestor chain of `n` only. The chains of its descendants are not extended by the new parent, so `GetHeight` can no longer be called on them in the model, while in the source their height simply grows by one.
- Cycles through `Children` are not checked by the source either. On such a structure the recursion at Program.cs:134-137 never ends. The walk methods require the ghost `Valid()`, which makes the children structure finite and acyclic. The non-terminating run is not modelled.
- Persistence.PersistTreeLinks: the "one relationship per parent and child" property holds only for tidy trees:
  - parent pointers match the children lists;
  - no data object is shared;
  - every node has data.

  Otherwise the source can link a node to a stale parent or skip nodes, and the model does the same.
- Fragments.PersonCreateFragment: states the person's fragment only for a name and role free of `{ } : , "`. For other values the outcome depends on JSON escaping, which is not modelled. The general lemmas then say what happens: only key-position quotes are deleted, and `:`/`,` inside a value are treated as structure.
- Fragments.PersonSetFragment: the same restriction on name and role.
