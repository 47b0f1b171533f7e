/**
 What the traversal engine answers on a table the builder produced: parent
 links mirror child links, every node but the root leads up to `'root'`, and
 the depth never exceeds the length of a child path from the root.
 */
module Taxonomy {
  import opened Graph
  import opened Builder
  import opened Traversal

  /** Every child link has its parent link. */
  ghost predicate LinksMirrored(g: Table) {
    forall p, c :: p in g && c in g[p].childIds ==> c in g && p in g[c].parentIds
  }

  lemma BuildLinksMirrored(root: Element)
    ensures LinksMirrored(Build(root))
  {
    var g := Build(root);
    BuildClosed(root);
    BuildSymmetric(root);
    forall p, c | p in g && c in g[p].childIds ensures c in g && p in g[c].parentIds {
      assert ChildMultiplicity(g, p, c) > 0;
      assert ParentMultiplicity(g, c, p) > 0;
    }
  }

  /** The same identifiers, last first. */
  function Reverse(p: seq<string>): (r: seq<string>)
    ensures |r| == |p| && forall i :: 0 <= i < |p| ==> r[i] == p[|p| - 1 - i]
  {
    seq(|p|, i requires 0 <= i < |p| => p[|p| - 1 - i])
  }

  /** Walking down child links, read backwards, is walking up parent links. */
  lemma ReverseChildWalk(g: Table, p: seq<string>, x: string, y: string)
    requires LinksMirrored(g)
    requires WalkBetween(g, ChildIds, p, x, y)
    ensures WalkBetween(g, ParentIds, Reverse(p), y, x)
  {
    var q := Reverse(p);
    var n := |p|;
    forall i | 0 <= i < n - 1 ensures q[i] in g && q[i + 1] in Neighbors(g[q[i]], ParentIds) {
      var j := n - 2 - i;
      assert q[i] == p[j + 1] && q[i + 1] == p[j];
      assert p[j] in g && p[j + 1] in Neighbors(g[p[j]], ChildIds);
    }
  }

  /** Depth does not exceed the hop count of any child path from the root
      (it is the minimum over all occurrences). */
  lemma BuiltDepthAtMostChildHops(root: Element, rank: map<string, nat>, p: seq<string>, y: string)
    requires RankedAlong(Build(root), ParentIds, rank)
    requires WalkBetween(Build(root), ChildIds, p, RootId, y)
    ensures MinHops(Build(root), ParentIds, rank, y, RootId).Some?
    ensures MinHops(Build(root), ParentIds, rank, y, RootId).value <= |p| - 1
  {
    BuildLinksMirrored(root);
    ReverseChildWalk(Build(root), p, RootId, y);
    MinHopsLeast(Build(root), ParentIds, rank, Reverse(p), y, RootId);
  }

  /** Every node of the built table other than the root has a path of parent
      links up to `'root'`, so its depth is at least one. */
  lemma {:induction false} BuiltReachesRoot(root: Element, rank: map<string, nat>, x: string)
    requires RankedAlong(Build(root), ParentIds, rank)
    requires x in Build(root) && x != RootId
    ensures MinHops(Build(root), ParentIds, rank, x, RootId).Some?
    decreases rank[x]
  {
    var g := Build(root);
    BuildNonRootHasParent(root, x);
    BuildClosed(root);
    var f := g[x].parentIds[0];
    assert f in g;
    if f != RootId {
      BuiltReachesRoot(root, rank, f);
    }
    MinHopsFromBelowEach(g, ParentIds, rank, x, RootId, 0, 0);
  }

  /** The root of the built table has no ancestors (while `'root'` is not
      also used as a wnid). */
  lemma BuiltRootHasNoAncestors(root: Element, rank: map<string, nat>, y: string)
    requires RankedAlong(Build(root), ParentIds, rank)
    requires OccBelow(root, RootId) == 0
    ensures MinHops(Build(root), ParentIds, rank, RootId, y) == None
  {
    BuildRootHasNoParent(root);
  }
}
