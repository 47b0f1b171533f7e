/**
 `ImageNetParser` of main.py: the node table as a field, filled in place by the
 recursive `Parse`, and the queries that traverse it.

 Every traversal takes a ghost `rank` (see `Graph.RankedAlong`): it is the
 acyclicity the source assumes, and it is what makes the recursion end.
 */
module ImageNet {
  import opened Graph
  import opened Builder
  import opened Traversal

  class ImageNetParser {
    var nodes: Table

    /** `__init__` on an already parsed document. */
    constructor (xmlRoot: Element)
      ensures nodes == Build(xmlRoot)
    {
      nodes := map[];
      new;
      PopulateGraph(xmlRoot);
    }

    method PopulateGraph(xmlRoot: Element)
      requires RootId !in nodes
      modifies this
      ensures nodes == Visit(old(nodes), xmlRoot, RootId, None)
    {
      Parse(xmlRoot, RootId, None);
    }

    /** `__parse`: record this occurrence of `nodeId`, then append each
        `synset` child to its child list and descend into it. */
    method Parse(node: Element, nodeId: string, parentId: Option<string>)
      requires parentId.None? ==> nodeId !in nodes
      modifies this
      ensures nodes == Visit(old(nodes), node, nodeId, parentId)
      decreases node
    {
      if nodeId !in nodes {
        nodes := nodes[nodeId := Node(nodeId, if parentId.None? then [] else [parentId.value], [])];
      } else {
        nodes := nodes[nodeId := nodes[nodeId].(parentIds := nodes[nodeId].parentIds + [parentId.value])];
      }
      ghost var first := nodes;
      for i := 0 to |node.children|
        invariant nodes == VisitChildren(first, node, nodeId, i)
      {
        var child := node.children[i];
        if child.tag == SynsetTag {
          var childId := child.wnid;
          nodes := nodes[nodeId := nodes[nodeId].(childIds := nodes[nodeId].childIds + [childId])];
          Parse(child, childId, Some(nodeId));
        }
      }
    }

    function CheckIfValidId(nodeId: string): (r: Outcome)
      reads this
      ensures r.Pass? <==> nodeId in nodes
      ensures r.Fail? ==> r.error == KeyError(nodeId)
    {
      if nodeId !in nodes then Fail(KeyError(nodeId)) else Pass
    }

    /** `__traverse_along_path`: depth-first along `follow`, recording in
        `result` the fewest hops found so far to each identifier reached. */
    method TraverseAlongPath(nodeId: string, follow: Follow, stopAt: Option<string>, dist: nat,
                             result: map<string, nat>, ghost rank: map<string, nat>)
      returns (r: Result<map<string, nat>>)
      requires RankedAlong(nodes, follow, rank)
      ensures r == Traverse(nodes, follow, rank, nodeId, stopAt, dist, result)
      ensures nodeId !in nodes ==> r == Err(KeyError(nodeId))
      ensures r.Err? ==> r.error.nodeId !in nodes
      ensures ClosedAlong(nodes, follow) && nodeId in nodes ==> r.Ok?
      ensures r.Ok? && stopAt == None ==>
                forall y :: Get(r.value, y) == OMin(Get(result, y), OAdd(dist, MinHops(nodes, follow, rank, nodeId, y)))
      ensures r.Ok? && stopAt.Some? ==>
                Get(r.value, stopAt.value)
                == OMin(Get(result, stopAt.value), OAdd(dist, MinHops(nodes, follow, rank, nodeId, stopAt.value)))
      decreases Height(nodes, rank, nodeId)
    {
      var valid := CheckIfValidId(nodeId);
      if valid.Fail? {
        return Err(valid.error);
      }
      var followed := Neighbors(nodes[nodeId], follow);
      var acc: map<string, nat> := result;
      for i := 0 to |followed|
        invariant TraverseFrom(nodes, follow, rank, nodeId, stopAt, dist, acc, i)
                  == TraverseFrom(nodes, follow, rank, nodeId, stopAt, dist, result, 0)
      {
        var fnodeId := followed[i];
        acc := acc[fnodeId := if fnodeId !in acc then dist + 1
                              else if acc[fnodeId] <= dist + 1 then acc[fnodeId] else dist + 1];
        if stopAt == Some(nodeId) {
          break;
        }
        var sub := TraverseAlongPath(fnodeId, follow, stopAt, dist + 1, acc, rank);
        if sub.Err? {
          return sub;
        }
        acc := sub.value;
      }
      r := Ok(acc);
      TraverseErr(nodes, follow, rank, nodeId, stopAt, dist, result);
      if ClosedAlong(nodes, follow) {
        TraverseOk(nodes, follow, rank, nodeId, stopAt, dist, result);
      }
      if stopAt == None {
        forall y ensures Get(r.value, y) == OMin(Get(result, y), OAdd(dist, MinHops(nodes, follow, rank, nodeId, y))) {
          TraverseAt(nodes, follow, rank, nodeId, stopAt, dist, result, y);
        }
      } else {
        TraverseAt(nodes, follow, rank, nodeId, stopAt, dist, result, stopAt.value);
      }
    }

    /** `get_ancestors`: the keys of an unpruned traversal along parent links. */
    method GetAncestors(nodeId: string, ghost rank: map<string, nat>) returns (r: Result<set<string>>)
      requires RankedAlong(nodes, ParentIds, rank)
      ensures nodeId !in nodes ==> r == Err(KeyError(nodeId))
      ensures r.Err? ==> r.error.nodeId !in nodes
      ensures ClosedAlong(nodes, ParentIds) && nodeId in nodes ==> r.Ok?
      ensures r.Ok? ==> forall y :: y in r.value <==> MinHops(nodes, ParentIds, rank, nodeId, y).Some?
    {
      var t := TraverseAlongPath(nodeId, ParentIds, None, 0, map[], rank);
      if t.Err? {
        return Err(t.error);
      }
      r := Ok(t.value.Keys);
      forall y ensures y in r.value <==> MinHops(nodes, ParentIds, rank, nodeId, y).Some? {
        assert Get(t.value, y) == OAdd(0, MinHops(nodes, ParentIds, rank, nodeId, y));
      }
    }

    /** `get_descendants`: the keys of an unpruned traversal along child links. */
    method GetDescendants(nodeId: string, ghost rank: map<string, nat>) returns (r: Result<set<string>>)
      requires RankedAlong(nodes, ChildIds, rank)
      ensures nodeId !in nodes ==> r == Err(KeyError(nodeId))
      ensures r.Err? ==> r.error.nodeId !in nodes
      ensures ClosedAlong(nodes, ChildIds) && nodeId in nodes ==> r.Ok?
      ensures r.Ok? ==> forall y :: y in r.value <==> MinHops(nodes, ChildIds, rank, nodeId, y).Some?
    {
      var t := TraverseAlongPath(nodeId, ChildIds, None, 0, map[], rank);
      if t.Err? {
        return Err(t.error);
      }
      r := Ok(t.value.Keys);
      forall y ensures y in r.value <==> MinHops(nodes, ChildIds, rank, nodeId, y).Some? {
        assert Get(t.value, y) == OAdd(0, MinHops(nodes, ChildIds, rank, nodeId, y));
      }
    }

    /** `get_depth`: the fewest parent hops up to `'root'`, 0 when there is none. */
    method GetDepth(nodeId: string, ghost rank: map<string, nat>) returns (r: Result<nat>)
      requires RankedAlong(nodes, ParentIds, rank)
      ensures nodeId !in nodes ==> r == Err(KeyError(nodeId))
      ensures r.Err? ==> r.error.nodeId !in nodes
      ensures ClosedAlong(nodes, ParentIds) && nodeId in nodes ==> r.Ok?
      ensures r.Ok? ==> r.value == match MinHops(nodes, ParentIds, rank, nodeId, RootId)
                                   case Some(h) => h
                                   case None => 0
      ensures r.Ok? && nodeId == RootId ==> r.value == 0
    {
      var depths := TraverseAlongPath(nodeId, ParentIds, Some(RootId), 0, map[], rank);
      if depths.Err? {
        return Err(depths.error);
      }
      r := Ok(if RootId in depths.value then depths.value[RootId] else 0);
      assert Get(depths.value, RootId) == OAdd(0, MinHops(nodes, ParentIds, rank, nodeId, RootId));
      NotOwnRelative(nodes, ParentIds, rank, RootId);
    }

    /** `get_distance`: check `nodeId2`, then look for it among the ancestors
        of `nodeId1`, then among its descendants; -1 when it is in neither. */
    method GetDistance(nodeId1: string, nodeId2: string, ghost up: map<string, nat>, ghost down: map<string, nat>)
      returns (r: Result<int>)
      requires RankedAlong(nodes, ParentIds, up) && RankedAlong(nodes, ChildIds, down)
      ensures nodeId2 !in nodes ==> r == Err(KeyError(nodeId2))
      ensures nodeId2 in nodes && nodeId1 !in nodes ==> r == Err(KeyError(nodeId1))
      ensures r.Err? ==> r.error.nodeId !in nodes
      ensures Closed(nodes) && nodeId1 in nodes && nodeId2 in nodes ==> r.Ok?
      ensures r.Ok? ==> r.value == DirectDistance(nodes, up, down, nodeId1, nodeId2)
    {
      var valid := CheckIfValidId(nodeId2);
      if valid.Fail? {
        return Err(valid.error);
      }
      var path := TraverseAlongPath(nodeId1, ParentIds, Some(nodeId2), 0, map[], up);
      if path.Err? {
        return Err(path.error);
      }
      assert Get(path.value, nodeId2) == OAdd(0, MinHops(nodes, ParentIds, up, nodeId1, nodeId2));
      if nodeId2 in path.value {
        return Ok(path.value[nodeId2]);
      }
      path := TraverseAlongPath(nodeId1, ChildIds, Some(nodeId2), 0, map[], down);
      if path.Err? {
        return Err(path.error);
      }
      assert Get(path.value, nodeId2) == OAdd(0, MinHops(nodes, ChildIds, down, nodeId1, nodeId2));
      if nodeId2 in path.value {
        return Ok(path.value[nodeId2]);
      }
      return Ok(-1);
    }

    /** `is_tree`: no node has more than one parent entry. */
    method IsTree() returns (r: bool)
      ensures r <==> SingleParent(nodes)
    {
      var remaining := nodes.Keys;
      while remaining != {}
        invariant remaining <= nodes.Keys
        invariant forall k :: k in nodes && k !in remaining ==> |nodes[k].parentIds| <= 1
        decreases remaining
      {
        var nodeId :| nodeId in remaining;
        if |nodes[nodeId].parentIds| > 1 {
          return false;
        }
        remaining := remaining - {nodeId};
      }
      return true;
    }

    /** `is_acyclic`: no node among its own ancestors or descendants. */
    method IsAcyclic(ghost up: map<string, nat>, ghost down: map<string, nat>) returns (r: Result<bool>)
      requires RankedAlong(nodes, ParentIds, up) && RankedAlong(nodes, ChildIds, down)
      ensures r.Ok? ==> (r.value <==> NoSelfRelative(nodes, up, down))
      ensures r.Err? ==> r.error.nodeId !in nodes
      ensures Closed(nodes) ==> r.Ok?
    {
      var remaining := nodes.Keys;
      while remaining != {}
        invariant remaining <= nodes.Keys
        invariant forall k :: k in nodes && k !in remaining ==>
                    MinHops(nodes, ParentIds, up, k, k).None? && MinHops(nodes, ChildIds, down, k, k).None?
        decreases remaining
      {
        var nodeId :| nodeId in remaining;
        var anc := GetAncestors(nodeId, up);
        if anc.Err? {
          return Err(anc.error);
        }
        var dec := GetDescendants(nodeId, down);
        if dec.Err? {
          return Err(dec.error);
        }
        if nodeId in anc.value || nodeId in dec.value {
          return Ok(false);
        }
        remaining := remaining - {nodeId};
      }
      return Ok(true);
    }
  }
}
