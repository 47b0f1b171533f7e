# ImageNet taxonomy parser, modelled in Dafny

This project models the core of `ImageNetParser` (main.py). The parser reads the
ImageNet structure document and keeps a node table `self.nodes`. The table maps
each synset identifier (wnid) to its parent and child identifiers. The parser
answers ancestor, descendant, depth and distance queries over that table.

The model has five modules:

- `Graph` (graph.dfy) holds the shared types: the parsed `Element` tree, the
  `Node` record, the `Table`, the two edge directions, and `KeyError`. It also
  defines referential completeness (`Closed`) and acyclicity (`RankedAlong`).
  `RankedAlong` is a ghost rank map that strictly decreases along every
  followed edge.
- `Builder` (builder.dfy) holds the recursive walk of `__parse` as functions
  (`Visit`, `VisitChildren`, `Build`), with lemmas about the table it produces:
  - one parent entry per occurrence of an identifier;
  - the root has no parent;
  - a recurring identifier is merged into one node with several parents;
  - every identifier that is referred to has a node;
  - child and parent entries agree in multiplicity.
- `Traversal` (traversal.dfy) holds `__traverse_along_path` as the function
  `Traverse`. Beside it is an independent reference, `MinHops`: the fewest
  hops from one identifier to another along one direction. Lemmas show that
  `MinHops` is the length of a shortest walk. Further lemmas show that the
  traversal records exactly `MinHops`, and that the `stop_at` pruning keeps
  the target's entry unchanged.
- `ImageNet` (parser.dfy) holds the class `ImageNetParser`. Its field `nodes`
  is filled in place by the recursive method `Parse`, whose `for` loop runs
  over the children. Its query methods are `TraverseAlongPath` (a `for` loop
  with `break`, recursive), `GetAncestors`, `GetDescendants`, `GetDepth`,
  `GetDistance`, `IsTree` and `IsAcyclic`. The constructor, `PopulateGraph`
  and `Parse` are proved to leave the table `Build` and `Visit` describe, and
  `TraverseAlongPath` to return what `Traverse` returns. The ancestor,
  descendant, depth, distance and acyclicity queries state their answers in
  terms of `MinHops`, `IsTree` in terms of `SingleParent`, and
  `CheckIfValidId` in terms of membership in the table.
- `Taxonomy` (taxonomy.dfy) proves facts about tables the builder produced:
  - parent links mirror child links;
  - every non-root node has a parent path up to `'root'`;
  - the depth is at most the length of any child path from the root.
- `Fixture` (fixture.dfy) is the document root → A → B, root → C → B. Its
  lemmas compute the built table and the query answers. Its `Scenario`
  methods are clients of the class that use only its contracts.

Two details of main.py that the model keeps:

- The root's `child_ids` receive its children like every other node's
  (main.py:32).
- When the current node equals `stop_at`, the traversal records the first
  identifier it lists, one hop further, before it breaks (main.py:49-53).
  Acyclicity ensures this never touches the entry for `stop_at` itself
  (`Traversal.StopAtKeepsTarget`).

## Model

| member | source | states |
|---|---|---|
| Builder.AddOccurrence | main.py:19-27 | the identifier is a key afterwards, its node's `id` is that identifier, and no other node changes |
| Builder.AppendChild | main.py:32 | no key is added, the `id` is kept, and no other node changes |
| Builder.Visit | main.py:16-33 | one `__parse` call keeps every key it found and adds its own identifier; every node it creates records its key as its `id` |
| Builder.VisitChildren | main.py:29-33 | the child loop never removes a key and keeps each node's `id` equal to its key |
| Builder.Build | main.py:63-69 | `populate_graph` on a fresh table: `'root'` is a key, and every node's `id` is its own key |
| Builder.VisitParents | main.py:19-33 | one call adds one parent entry for its own identifier when it has a parent, plus one per occurrence below; after the call exactly the old keys, its identifier and the identifiers below it are keys |
| Builder.VisitChildrenParents | main.py:29-33 | the first i children add one parent entry per occurrence below them, and add exactly those identifiers as keys |
| Builder.BuildParents | main.py:19-27 | after the build, every identifier has exactly one parent entry per occurrence in the document, and the keys are `'root'` plus the identifiers that occur |
| Builder.BuildRootHasNoParent | main.py:69 | `'root'` is a key with empty `parent_ids` (while it is not reused as a wnid) |
| Builder.BuildNonRootHasParent | main.py:19-27 | every non-root node has at least one parent, one per occurrence |
| Builder.BuildMergesOccurrences | main.py:19-27 | an identifier that occurs twice becomes one node with two parents |
| Builder.BuildIsTreeIff | main.py:81-86 | the built table has at most one parent per node iff no identifier occurs twice |
| Builder.VisitClosed | main.py:16-33 | one call leaves the table referentially complete when only its own identifier was dangling |
| Builder.VisitChildrenClosed | main.py:29-33 | each child is given a node right after it is appended, so the loop keeps the table complete |
| Builder.BuildClosed | main.py:63-69 | after the build, every id in any `parent_ids` or `child_ids` is a key |
| Builder.VisitImbalance | main.py:27-33 | one call adds exactly one parent entry to match the child entry its caller appended |
| Builder.VisitChildrenImbalance | main.py:29-33 | each appended child entry is matched by one parent entry, duplicates included |
| Builder.BuildSymmetric | main.py:19-33 | after the build, c occurs in p's `child_ids` exactly as often as p occurs in c's `parent_ids` |
| Traversal.Record | main.py:51 | the followed id becomes a key whose value is the minimum of its old value and the new hop count, and nothing else changes |
| Traversal.Traverse | main.py:35-57 | `__traverse_along_path` itself; a traversal that returns keeps every identifier already in `result` (its values are given by `TraverseAt`) |
| Traversal.TraverseFrom | main.py:48-55 | the remaining iterations of the loop; when they return they keep every identifier already in `result` |
| Traversal.MinHopsFromDescends | main.py:35-57 | every hop goes to a strictly lower rank |
| Traversal.MinHopsDescends | main.py:35-57 | a reachable identifier ranks strictly below the start |
| Traversal.NotOwnRelative | main.py:71-79 | on ranked (acyclic) edges, no identifier reaches itself |
| Traversal.MinHopsFromPositive | main.py:51 | every hop count through the later neighbours is at least 1 |
| Traversal.MinHopsPositive | main.py:51 | every hop count is at least 1 |
| Traversal.MinHopsFromWitness | main.py:35-57 | a hop count through the later neighbours is achieved by a walk of that length |
| Traversal.MinHopsWitness | main.py:35-57 | every recorded hop count is the length of some walk |
| Traversal.MinHopsFromBelowEach | main.py:49-51 | the minimum over the later neighbours is at most the count through any one of them |
| Traversal.MinHopsLeast | main.py:49-55 | no walk is shorter than the minimum hop count |
| Traversal.MinHopsIsShortestWalk | main.py:35-57 | y is reachable iff some walk leads there, and the hop count is the shortest walk's length |
| Traversal.TraverseFromAt | main.py:48-55 | the remaining loop iterations record, at y, the minimum of the old entry and dist plus the fewest hops through the remaining neighbours |
| Traversal.TraverseAt | main.py:35-57 | a traversal records, at y, the minimum of the old entry and dist plus the fewest hops over all paths; with `stop_at` = y this still holds |
| Traversal.TraverseFromOk | main.py:46-55 | on a complete table the loop raises nothing |
| Traversal.TraverseOk | main.py:46 | on a complete table, a traversal from a valid id raises nothing |
| Traversal.TraverseFromErr | main.py:46-55 | any KeyError from the loop names a missing id |
| Traversal.TraverseErr | main.py:46-61 | any KeyError from a traversal names an id with no node |
| Traversal.Reached | main.py:88-94 | from scratch, the keys are exactly the ids reachable in one or more hops, each valued with its fewest hops |
| Traversal.StopAtKeepsTarget | main.py:52-53 | pruning at `stop_at` leaves the entry for `stop_at` unchanged |
| Traversal.DirectDistance | main.py:103-121 | the answer of `get_distance`: parent hops first, then child hops, else -1; never 0 or below -1 |
| Traversal.DirectDistanceMeaning | main.py:103-121 | the distance is -1 iff no walk leads to b in either direction; when an upward walk exists it is the length of a shortest upward walk; otherwise, when a downward walk exists, the length of a shortest downward walk |
| Traversal.RankedHasNoSelfRelative | main.py:71-79 | on ranked edges, no node is among its own ancestors or descendants |
| ImageNet.ImageNetParser.constructor | main.py:4-7 | the table is the one built from the document |
| ImageNet.ImageNetParser.PopulateGraph | main.py:63-69 | parses the document root as `'root'` with no parent |
| ImageNet.ImageNetParser.Parse | main.py:16-33 | the in-place updates and the child loop leave exactly the table `Visit` describes |
| ImageNet.ImageNetParser.CheckIfValidId | main.py:59-61 | passes iff the id is a key; otherwise raises KeyError naming it |
| ImageNet.ImageNetParser.TraverseAlongPath | main.py:35-57 | the loop with `break` returns `Traverse`; it raises KeyError for an invalid start; any error names a missing id; a complete table raises nothing; the result holds the fewest hops (without `stop_at`) or the target's fewest hops (with it) |
| ImageNet.ImageNetParser.GetAncestors | main.py:88-90 | KeyError for an unknown id; otherwise exactly the ids reachable through parent links |
| ImageNet.ImageNetParser.GetDescendants | main.py:92-94 | KeyError for an unknown id; otherwise exactly the ids reachable through child links |
| ImageNet.ImageNetParser.GetDepth | main.py:96-101 | KeyError for an unknown id; otherwise the fewest parent hops to `'root'`, or 0 when `'root'` is not reached; 0 for `'root'` |
| ImageNet.ImageNetParser.GetDistance | main.py:103-121 | node_id2 is checked first, then node_id1; the result is the fewest parent hops, else the fewest child hops, else -1 |
| ImageNet.ImageNetParser.IsTree | main.py:81-86 | true iff every node has at most one parent entry |
| ImageNet.ImageNetParser.IsAcyclic | main.py:71-79 | when it returns, true iff no node is among its own ancestors or descendants; a complete table raises nothing |
| Taxonomy.BuildLinksMirrored | main.py:27-33 | after the build, every child link has its parent link |
| Taxonomy.ReverseChildWalk | main.py:27-33 | a child walk, reversed, is a parent walk |
| Taxonomy.BuiltDepthAtMostChildHops | main.py:96-101 | in the built table, depth is at most the hop count of every child path from the root |
| Taxonomy.BuiltReachesRoot | main.py:96-101 | in the built table, every non-root node reaches `'root'` through parent links |
| Taxonomy.BuiltRootHasNoAncestors | main.py:133 | in the built table, `'root'` has no ancestors |
| Fixture.BuildFixture | main.py:16-33 | root→A→B, root→C→B builds one node B with parents [A, C] |
| Fixture.FixtureUpward | main.py:129-134 | the fixture's ancestors and their hop counts; B is at depth 2 through either parent |
| Fixture.FixtureDownward | main.py:137-138 | the fixture's descendants and their hop counts |
| Fixture.FixtureDistances | main.py:142-143 | root to B is 2, A to C is -1, B to root is 2 |
| Fixture.NewFixtureParser | main.py:4-7 | a parser built from the fixture holds the expected, complete, ranked table |
| Fixture.ScenarioShape | main.py:9-10 | the fixture is not a tree, because B has two parents |
| Fixture.ScenarioAncestors | main.py:133-134 | the ancestors of B are A, C and `'root'`; `'root'` has none |
| Fixture.ScenarioDepth | main.py:129-130 | B, which occurs twice, is at depth 2; `'root'` is at depth 0 |
| Fixture.ScenarioDistance | main.py:141-143 | root to B is 2 although B occurs twice; two unrelated nodes give -1; an unknown node_id2 is reported before an unknown node_id1 |

## Left out

- XML parsing with `xml.etree.ElementTree` and the fixed path `structure_released.xml` are left out: they are a library call and file I/O. The model starts from the parsed tree, an `Element` value.
- All `print` calls are left out: they are console output only. So is the `is_tree()` call in `__init__`, whose result only chooses a message.
- The `__main__` block is not modelled: it needs the real data file. The `Fixture` module restates its kinds of assertions on a small document.
- A synset element without a `wnid` attribute does not occur in the model (the source would raise KeyError): every `Element` carries a wnid.
- Cyclic input is left out. On a cycle the source recurses until the interpreter's recursion limit stops it with an error. Every traversal and query in the model requires a ghost rank that makes the followed edges acyclic (`RankedAlong`).
- The interpreter's recursion limit is not modelled. `__parse` and `__traverse_along_path` recurse once per level, so a document or a path deeper than roughly a thousand levels makes the source raise. The model's recursion has no depth bound.
- The text of the KeyError message (`"Invalid node_id: "` followed by the id, main.py:61) is not modelled: the error carries only the id.
- ImageNet.ImageNetParser.IsAcyclic: because of that rank, it can never answer false. This is proved (`Traversal.RankedHasNoSelfRelative`) but not stated in its own contract. Which KeyError an incomplete table raises depends on dictionary iteration order, so the contract does not say which one.
- ImageNet.ImageNetParser.Parse: there is a `requires` that a call without a parent meets only on a fresh identifier. This excludes calling `populate_graph` a second time on a filled table, where the source would append `None` to the root's parents.
- ImageNet.ImageNetParser.PopulateGraph: requires that `'root'` is not yet a key, for the same reason.
- The mutable `result` dict the source shares across recursive calls is passed in and returned instead. This is equivalent because each call uses it in turn, never two at once. The source's default-argument workaround is not modelled.
- Python 2's `.keys()` returns a list. Ancestors and descendants are returned as sets.
- `get_distance` loops over the two directions; the loop is written out as two steps.
- The traversal engine is modelled on a table that never changes after the build, as in the source. There is no concurrency.
