/**
 The data model shared by the graph builder and the traversal engine of the
 ImageNet taxonomy parser: the parsed element tree it reads, the node table it
 builds, the edge directions it follows, and the KeyError it raises.
 */
module Graph {

  datatype Option<+T> = None | Some(value: T)

  /** An element of the parsed XML document: its tag, its `wnid` attribute and
      its children in document order. */
  datatype Element = Element(tag: string, wnid: string, children: seq<Element>)

  /** The record kept per identifier: the identifier itself and the
      identifiers of its parents and children, in the order they were found,
      duplicates included. */
  datatype Node = Node(id: string, parentIds: seq<string>, childIds: seq<string>)

  /** The node table `self.nodes`, keyed by identifier. */
  type Table = map<string, Node>

  /** The identifier given to the document's root element. */
  const RootId: string := "root"

  /** The only tag whose elements become nodes. */
  const SynsetTag: string := "synset"

  /** Which list of a node a traversal follows: `parent_ids` (ancestors) or
      `child_ids` (descendants). */
  datatype Follow = ParentIds | ChildIds

  /** The single error of the engine: an identifier that is not in the table. */
  datatype Error = KeyError(nodeId: string)

  datatype Result<+T> = Ok(value: T) | Err(error: Error)

  /** What `check_if_valid_id` does: return, or raise. */
  datatype Outcome = Pass | Fail(error: Error)

  function Neighbors(n: Node, follow: Follow): (r: seq<string>) {
    match follow
    case ParentIds => n.parentIds
    case ChildIds => n.childIds
  }

  /** Every identifier listed along `follow` by a node of `g` is a key of `g`. */
  ghost predicate ClosedAlong(g: Table, follow: Follow) {
    forall k, j :: k in g && j in Neighbors(g[k], follow) ==> j in g
  }

  /** Referential completeness: every identifier that any node lists as a
      parent or as a child is itself a key of the table. */
  ghost predicate Closed(g: Table) {
    ClosedAlong(g, ParentIds) && ClosedAlong(g, ChildIds)
  }

  /** `rank` witnesses that the edges along `follow` form no cycle: it ranks
      every key, and every edge between two keys goes to a strictly smaller rank. */
  ghost predicate RankedAlong(g: Table, follow: Follow, rank: map<string, nat>) {
    && g.Keys <= rank.Keys
    && forall k, j :: k in g && j in g && j in Neighbors(g[k], follow) ==> rank[j] < rank[k]
  }

  /** The termination measure of every traversal: identifiers outside the
      table are below every identifier inside it. */
  ghost function Height(g: Table, rank: map<string, nat>, x: string): (h: nat) {
    if x in g && x in rank then rank[x] + 1 else 0
  }

  /** The shape `is_tree` checks: no node has more than one parent entry. */
  ghost predicate SingleParent(g: Table) {
    forall k :: k in g ==> |g[k].parentIds| <= 1
  }

  /** Every node records its own key as its `id`. */
  ghost predicate KeyedById(g: Table) {
    forall k :: k in g ==> g[k].id == k
  }

  /** A map lookup that does not fail. */
  function Get<K, V>(m: map<K, V>, k: K): (r: Option<V>) {
    if k in m then Some(m[k]) else None
  }
}
