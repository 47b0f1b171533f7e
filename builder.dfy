/**
 The graph builder: the depth-first walk of `__parse` (main.py) written as
 functions over the node table, and what that walk guarantees about the table
 it produces.

 `Visit(g, e, id, parent)` is the table after `__parse(e, id, parent)` ran on
 the table `g`; `VisitChildren(g, e, id, i)` is the table after the `for` loop
 of that call has handled the first `i` children of `e`.
 */
module Builder {
  import opened Graph

  /** The first half of `__parse`: create the node on its first occurrence,
      otherwise record one more parent. */
  function AddOccurrence(g: Table, id: string, parent: Option<string>): (r: Table)
    requires parent.None? ==> id !in g
    ensures r.Keys == g.Keys + {id}
    ensures forall k :: k in g && k != id ==> r[k] == g[k]
    ensures KeyedById(g) ==> KeyedById(r)
  {
    if id !in g then
      g[id := Node(id, if parent.None? then [] else [parent.value], [])]
    else
      g[id := g[id].(parentIds := g[id].parentIds + [parent.value])]
  }

  /** `self.nodes[node_id]['child_ids'].append(child_id)`. */
  function AppendChild(g: Table, id: string, child: string): (r: Table)
    requires id in g
    ensures r.Keys == g.Keys
    ensures forall k :: k in g && k != id ==> r[k] == g[k]
    ensures KeyedById(g) ==> KeyedById(r)
  {
    g[id := g[id].(childIds := g[id].childIds + [child])]
  }

  function Visit(g: Table, e: Element, id: string, parent: Option<string>): (r: Table)
    requires parent.None? ==> id !in g
    ensures g.Keys + {id} <= r.Keys
    ensures KeyedById(g) ==> KeyedById(r)
    decreases e, 1
  {
    VisitChildren(AddOccurrence(g, id, parent), e, id, |e.children|)
  }

  function VisitChildren(g: Table, e: Element, id: string, i: nat): (r: Table)
    requires id in g && i <= |e.children|
    ensures g.Keys <= r.Keys
    ensures KeyedById(g) ==> KeyedById(r)
    decreases e, 0, i
  {
    if i == 0 then g
    else
      var h := VisitChildren(g, e, id, i - 1);
      var c := e.children[i - 1];
      if c.tag == SynsetTag then Visit(AppendChild(h, id, c.wnid), c, c.wnid, Some(id))
      else h
  }

  /** `populate_graph` on a fresh parser: the document root is named `'root'`
      and has no parent. */
  function Build(root: Element): (r: Table)
    ensures RootId in r && KeyedById(r)
  {
    Visit(map[], root, RootId, None)
  }

  // ---------------------------------------------------------------------
  // Occurrences in the document
  // ---------------------------------------------------------------------

  /** How many `synset` elements below `e`, reached through `synset` elements
      only, carry the identifier `x`. */
  function OccBelow(e: Element, x: string): (n: nat)
    decreases e, 1
  {
    OccChildren(e, x, |e.children|)
  }

  function OccChildren(e: Element, x: string, i: nat): (n: nat)
    requires i <= |e.children|
    decreases e, 0, i
  {
    if i == 0 then 0
    else
      var c := e.children[i - 1];
      OccChildren(e, x, i - 1)
        + (if c.tag == SynsetTag then (if c.wnid == x then 1 else 0) + OccBelow(c, x) else 0)
  }

  /** The number of parents recorded for `x`, 0 when `x` has no node. */
  function ParentCount(g: Table, x: string): (n: nat) {
    if x in g then |g[x].parentIds| else 0
  }

  lemma {:induction false} VisitParents(g: Table, e: Element, id: string, parent: Option<string>, x: string)
    requires parent.None? ==> id !in g
    ensures ParentCount(Visit(g, e, id, parent), x)
            == ParentCount(g, x) + (if x == id && parent.Some? then 1 else 0) + OccBelow(e, x)
    ensures x in Visit(g, e, id, parent) <==> x in g || x == id || OccBelow(e, x) > 0
    decreases e, 1
  {
    VisitChildrenParents(AddOccurrence(g, id, parent), e, id, |e.children|, x);
  }

  lemma {:induction false} VisitChildrenParents(g: Table, e: Element, id: string, i: nat, x: string)
    requires id in g && i <= |e.children|
    ensures ParentCount(VisitChildren(g, e, id, i), x) == ParentCount(g, x) + OccChildren(e, x, i)
    ensures x in VisitChildren(g, e, id, i) <==> x in g || OccChildren(e, x, i) > 0
    decreases e, 0, i
  {
    if i > 0 {
      VisitChildrenParents(g, e, id, i - 1, x);
      var h := VisitChildren(g, e, id, i - 1);
      var c := e.children[i - 1];
      if c.tag == SynsetTag {
        VisitParents(AppendChild(h, id, c.wnid), c, c.wnid, Some(id), x);
      }
    }
  }

  /** Each occurrence of an identifier in the document contributes exactly one
      parent entry, and the table holds `'root'` and the identifiers that occur. */
  lemma BuildParents(root: Element, x: string)
    ensures ParentCount(Build(root), x) == OccBelow(root, x)
    ensures x in Build(root) <==> x == RootId || OccBelow(root, x) > 0
  {
    VisitParents(map[], root, RootId, None, x);
  }

  /** The root's parent list is empty (unless `'root'` is reused as a wnid). */
  lemma BuildRootHasNoParent(root: Element)
    requires OccBelow(root, RootId) == 0
    ensures RootId in Build(root) && Build(root)[RootId].parentIds == []
  {
    BuildParents(root, RootId);
  }

  /** Every other node has at least one parent, one per occurrence. */
  lemma BuildNonRootHasParent(root: Element, x: string)
    requires x in Build(root) && x != RootId
    ensures |Build(root)[x].parentIds| == OccBelow(root, x) >= 1
  {
    BuildParents(root, x);
  }

  /** An identifier that occurs under two parent occurrences is one node with
      two parents. */
  lemma BuildMergesOccurrences(root: Element, x: string)
    requires x != RootId && OccBelow(root, x) == 2
    ensures x in Build(root) && |Build(root)[x].parentIds| == 2
  {
    BuildParents(root, x);
  }

  /** The built table is a tree exactly when no identifier occurs twice. */
  lemma BuildIsTreeIff(root: Element)
    ensures SingleParent(Build(root)) <==> forall x :: OccBelow(root, x) <= 1
  {
    var g := Build(root);
    if SingleParent(g) {
      forall x ensures OccBelow(root, x) <= 1 {
        BuildParents(root, x);
      }
    } else {
      var k :| k in g && |g[k].parentIds| > 1;
      BuildParents(root, k);
    }
  }

  // ---------------------------------------------------------------------
  // Referential completeness
  // ---------------------------------------------------------------------

  /** Closed, except that `id` may be referenced before it has a node. */
  ghost predicate ClosedExcept(g: Table, id: string) {
    forall k, j :: k in g && (j in g[k].parentIds || j in g[k].childIds) ==> j in g || j == id
  }

  lemma {:induction false} VisitClosed(g: Table, e: Element, id: string, parent: Option<string>)
    requires parent.None? ==> id !in g
    requires parent.Some? ==> parent.value in g
    requires ClosedExcept(g, id)
    ensures Closed(Visit(g, e, id, parent))
    decreases e, 1
  {
    var g1 := AddOccurrence(g, id, parent);
    assert Closed(g1) by {
      forall k, j | k in g1 && (j in g1[k].parentIds || j in g1[k].childIds) ensures j in g1 {
        if k != id {
          assert g1[k] == g[k];
        } else if id in g {
          assert j in g[id].parentIds || j in g[id].childIds || j == parent.value;
        }
      }
    }
    VisitChildrenClosed(g1, e, id, |e.children|);
  }

  lemma {:induction false} VisitChildrenClosed(g: Table, e: Element, id: string, i: nat)
    requires id in g && i <= |e.children|
    requires Closed(g)
    ensures Closed(VisitChildren(g, e, id, i))
    decreases e, 0, i
  {
    if i > 0 {
      VisitChildrenClosed(g, e, id, i - 1);
      var h := VisitChildren(g, e, id, i - 1);
      var c := e.children[i - 1];
      if c.tag == SynsetTag {
        var h1 := AppendChild(h, id, c.wnid);
        assert ClosedExcept(h1, c.wnid) by {
          forall k, j | k in h1 && (j in h1[k].parentIds || j in h1[k].childIds) ensures j in h1 || j == c.wnid {
            if k != id {
              assert h1[k] == h[k];
              assert j in h[k].parentIds || j in h[k].childIds;
            } else {
              assert j in h[id].parentIds || j in h[id].childIds || j == c.wnid;
            }
          }
        }
        VisitClosed(h1, c, c.wnid, Some(id));
      }
    }
  }

  /** After the build, every identifier that appears in any parent or child
      list is a key of the table. */
  lemma BuildClosed(root: Element)
    ensures Closed(Build(root))
  {
    VisitClosed(map[], root, RootId, None);
  }

  // ---------------------------------------------------------------------
  // Parent/child symmetry
  // ---------------------------------------------------------------------

  /** How often `c` occurs in the child list of `p`, 0 when `p` has no node. */
  function ChildMultiplicity(g: Table, p: string, c: string): (n: nat) {
    if p in g then multiset(g[p].childIds)[c] else 0
  }

  /** How often `p` occurs in the parent list of `c`, 0 when `c` has no node. */
  function ParentMultiplicity(g: Table, c: string, p: string): (n: nat) {
    if c in g then multiset(g[c].parentIds)[p] else 0
  }

  /** How many child entries `p -> c` lack their matching parent entry. */
  function Imbalance(g: Table, p: string, c: string): (n: int) {
    ChildMultiplicity(g, p, c) - ParentMultiplicity(g, c, p)
  }

  lemma {:induction false} VisitImbalance(g: Table, e: Element, id: string, parent: Option<string>, p: string, c: string)
    requires parent.None? ==> id !in g
    ensures Imbalance(Visit(g, e, id, parent), p, c)
            == Imbalance(g, p, c) - (if parent == Some(p) && id == c then 1 else 0)
    decreases e, 1
  {
    var g1 := AddOccurrence(g, id, parent);
    assert ChildMultiplicity(g1, p, c) == ChildMultiplicity(g, p, c);
    if c == id && id in g {
      assert g1[id].parentIds == g[id].parentIds + [parent.value];
      assert multiset(g1[id].parentIds) == multiset(g[id].parentIds) + multiset{parent.value};
    }
    assert Imbalance(g1, p, c) == Imbalance(g, p, c) - (if parent == Some(p) && id == c then 1 else 0);
    VisitChildrenImbalance(g1, e, id, |e.children|, p, c);
  }

  lemma {:induction false} VisitChildrenImbalance(g: Table, e: Element, id: string, i: nat, p: string, c: string)
    requires id in g && i <= |e.children|
    ensures Imbalance(VisitChildren(g, e, id, i), p, c) == Imbalance(g, p, c)
    decreases e, 0, i
  {
    if i > 0 {
      VisitChildrenImbalance(g, e, id, i - 1, p, c);
      var h := VisitChildren(g, e, id, i - 1);
      var ch := e.children[i - 1];
      if ch.tag == SynsetTag {
        var h1 := AppendChild(h, id, ch.wnid);
        assert multiset(h1[id].childIds) == multiset(h[id].childIds) + multiset{ch.wnid};
        assert ParentMultiplicity(h1, c, p) == ParentMultiplicity(h, c, p);
        assert Imbalance(h1, p, c) == Imbalance(h, p, c) + (if p == id && c == ch.wnid then 1 else 0);
        VisitImbalance(h1, ch, ch.wnid, Some(id), p, c);
      }
    }
  }

  /** After the build, `c` occurs in `p`'s child list exactly as often as `p`
      occurs in `c`'s parent list. */
  lemma BuildSymmetric(root: Element)
    ensures forall p, c :: ChildMultiplicity(Build(root), p, c) == ParentMultiplicity(Build(root), c, p)
  {
    forall p, c ensures ChildMultiplicity(Build(root), p, c) == ParentMultiplicity(Build(root), c, p) {
      VisitImbalance(map[], root, RootId, None, p, c);
    }
  }
}
