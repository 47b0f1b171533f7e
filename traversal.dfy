/**
 The traversal engine of main.py: `__traverse_along_path` as a function over
 the node table, an independent definition of the shortest hop count along one
 edge direction, and the proofs that the two agree.

 `Traverse(g, follow, rank, x, stop, dist, acc)` is what
 `__traverse_along_path(x, follow, stop, dist, acc)` returns (or the KeyError
 it raises); `TraverseFrom(..., i)` is what the remaining iterations of its
 `for` loop, from the `i`-th followed identifier on, return. The ghost
 `rank` bounds the recursion: it is the acyclicity the engine relies on.
 */
module Traversal {
  import opened Graph

  // ---------------------------------------------------------------------
  // Hop counts that may be absent
  // ---------------------------------------------------------------------

  function OMin(a: Option<nat>, b: Option<nat>): (r: Option<nat>) {
    match (a, b)
    case (None, _) => b
    case (_, None) => a
    case (Some(u), Some(v)) => Some(if u <= v then u else v)
  }

  function OAdd(d: nat, a: Option<nat>): (r: Option<nat>) {
    match a
    case None => None
    case Some(u) => Some(d + u)
  }

  /** `a` is present and no larger than `b` whenever `b` is present. */
  ghost predicate OLe(a: Option<nat>, b: Option<nat>) {
    b.Some? ==> a.Some? && a.value <= b.value
  }

  // ---------------------------------------------------------------------
  // The traversal, step for step
  // ---------------------------------------------------------------------

  /** `result[f] = dist + 1 if f not in result else min(result[f], dist + 1)`. */
  function Record(acc: map<string, nat>, f: string, d: nat): (r: map<string, nat>)
    ensures r.Keys == acc.Keys + {f}
    ensures Get(r, f) == OMin(Get(acc, f), Some(d))
    ensures forall k :: k in acc && k != f ==> r[k] == acc[k]
  {
    acc[f := if f in acc then (if acc[f] <= d then acc[f] else d) else d]
  }

  ghost function Traverse(g: Table, follow: Follow, rank: map<string, nat>, x: string,
                          stop: Option<string>, dist: nat, acc: map<string, nat>): (r: Result<map<string, nat>>)
    requires RankedAlong(g, follow, rank)
    ensures r.Ok? ==> acc.Keys <= r.value.Keys
    decreases Height(g, rank, x), 1
  {
    if x !in g then Err(KeyError(x))
    else TraverseFrom(g, follow, rank, x, stop, dist, acc, 0)
  }

  ghost function TraverseFrom(g: Table, follow: Follow, rank: map<string, nat>, x: string,
                              stop: Option<string>, dist: nat, acc: map<string, nat>, i: nat): (r: Result<map<string, nat>>)
    requires RankedAlong(g, follow, rank)
    requires x in g && i <= |Neighbors(g[x], follow)|
    ensures r.Ok? ==> acc.Keys <= r.value.Keys
    decreases Height(g, rank, x), 0, |Neighbors(g[x], follow)| - i
  {
    var fs := Neighbors(g[x], follow);
    if i == |fs| then Ok(acc)
    else
      var acc1 := Record(acc, fs[i], dist + 1);
      if stop == Some(x) then Ok(acc1)
      else
        match Traverse(g, follow, rank, fs[i], stop, dist + 1, acc1)
        case Err(e) => Err(e)
        case Ok(acc2) => TraverseFrom(g, follow, rank, x, stop, dist, acc2, i + 1)
  }

  // ---------------------------------------------------------------------
  // The reference: fewest hops, over every way of getting there
  // ---------------------------------------------------------------------

  /** The fewest hops (at least one) from `x` to `y` along `follow`, or None
      when `y` cannot be reached from `x`. */
  ghost function MinHops(g: Table, follow: Follow, rank: map<string, nat>, x: string, y: string): (h: Option<nat>)
    requires RankedAlong(g, follow, rank)
    decreases Height(g, rank, x), 1
  {
    if x !in g then None else MinHopsFrom(g, follow, rank, x, y, 0)
  }

  /** The fewest hops from `x` to `y` whose first hop goes to one of the
      identifiers `x` lists from position `i` on. */
  ghost function MinHopsFrom(g: Table, follow: Follow, rank: map<string, nat>, x: string, y: string, i: nat): (h: Option<nat>)
    requires RankedAlong(g, follow, rank)
    requires x in g && i <= |Neighbors(g[x], follow)|
    decreases Height(g, rank, x), 0, |Neighbors(g[x], follow)| - i
  {
    var fs := Neighbors(g[x], follow);
    if i == |fs| then None
    else
      var f := fs[i];
      OMin(OMin(if f == y then Some(1) else None, OAdd(1, MinHops(g, follow, rank, f, y))),
           MinHopsFrom(g, follow, rank, x, y, i + 1))
  }

  /** Hops only go down in rank, so nothing reaches itself. */
  lemma {:induction false} MinHopsFromDescends(g: Table, follow: Follow, rank: map<string, nat>, x: string, y: string, i: nat)
    requires RankedAlong(g, follow, rank)
    requires x in g && i <= |Neighbors(g[x], follow)|
    requires MinHopsFrom(g, follow, rank, x, y, i).Some? && y in g
    ensures rank[y] < rank[x]
    decreases Height(g, rank, x), 0, |Neighbors(g[x], follow)| - i
  {
    var fs := Neighbors(g[x], follow);
    var f := fs[i];
    if MinHopsFrom(g, follow, rank, x, y, i + 1).Some? {
      MinHopsFromDescends(g, follow, rank, x, y, i + 1);
    } else if f != y {
      assert f in g;
      MinHopsFromDescends(g, follow, rank, f, y, 0);
    }
  }

  lemma MinHopsDescends(g: Table, follow: Follow, rank: map<string, nat>, x: string, y: string)
    requires RankedAlong(g, follow, rank)
    requires MinHops(g, follow, rank, x, y).Some?
    ensures x in g
    ensures y in g ==> rank[y] < rank[x]
  {
    if y in g {
      MinHopsFromDescends(g, follow, rank, x, y, 0);
    }
  }

  /** No identifier is its own ancestor or descendant. */
  lemma NotOwnRelative(g: Table, follow: Follow, rank: map<string, nat>, x: string)
    requires RankedAlong(g, follow, rank)
    ensures MinHops(g, follow, rank, x, x) == None
  {
    if MinHops(g, follow, rank, x, x).Some? {
      MinHopsDescends(g, follow, rank, x, x);
    }
  }

  lemma {:induction false} MinHopsFromPositive(g: Table, follow: Follow, rank: map<string, nat>, x: string, y: string, i: nat)
    requires RankedAlong(g, follow, rank)
    requires x in g && i <= |Neighbors(g[x], follow)|
    ensures MinHopsFrom(g, follow, rank, x, y, i).Some? ==> MinHopsFrom(g, follow, rank, x, y, i).value >= 1
    decreases |Neighbors(g[x], follow)| - i
  {
    if i < |Neighbors(g[x], follow)| {
      MinHopsFromPositive(g, follow, rank, x, y, i + 1);
    }
  }

  /** Every recorded hop count is at least one. */
  lemma MinHopsPositive(g: Table, follow: Follow, rank: map<string, nat>, x: string, y: string)
    requires RankedAlong(g, follow, rank)
    ensures MinHops(g, follow, rank, x, y).Some? ==> MinHops(g, follow, rank, x, y).value >= 1
  {
    if x in g {
      MinHopsFromPositive(g, follow, rank, x, y, 0);
    }
  }

  // ---------------------------------------------------------------------
  // Walks
  // ---------------------------------------------------------------------

  /** Each identifier of `p` but the last has a node that lists the next one
      along `follow`. */
  ghost predicate IsWalk(g: Table, follow: Follow, p: seq<string>) {
    forall i :: 0 <= i < |p| - 1 ==> p[i] in g && p[i + 1] in Neighbors(g[p[i]], follow)
  }

  /** `p` is a walk of one or more hops (|p| - 1 of them) from `x` to `y`. */
  ghost predicate WalkBetween(g: Table, follow: Follow, p: seq<string>, x: string, y: string) {
    |p| >= 2 && p[0] == x && p[|p| - 1] == y && IsWalk(g, follow, p)
  }

  lemma {:induction false} MinHopsFromWitness(g: Table, follow: Follow, rank: map<string, nat>, x: string, y: string, i: nat)
    returns (p: seq<string>)
    requires RankedAlong(g, follow, rank)
    requires x in g && i <= |Neighbors(g[x], follow)|
    requires MinHopsFrom(g, follow, rank, x, y, i).Some?
    ensures WalkBetween(g, follow, p, x, y)
    ensures |p| == MinHopsFrom(g, follow, rank, x, y, i).value + 1
    decreases Height(g, rank, x), 0, |Neighbors(g[x], follow)| - i
  {
    var fs := Neighbors(g[x], follow);
    var f := fs[i];
    var h := MinHopsFrom(g, follow, rank, x, y, i).value;
    var rest := MinHopsFrom(g, follow, rank, x, y, i + 1);
    var sub := MinHops(g, follow, rank, f, y);
    if rest == Some(h) {
      p := MinHopsFromWitness(g, follow, rank, x, y, i + 1);
    } else if f == y && h == 1 {
      p := [x, y];
    } else {
      assert sub == Some(h - 1);
      var q := MinHopsFromWitness(g, follow, rank, f, y, 0);
      p := [x] + q;
      assert p[1..] == q;
    }
  }

  /** A shortest hop count is achieved by a walk. */
  lemma MinHopsWitness(g: Table, follow: Follow, rank: map<string, nat>, x: string, y: string)
    returns (p: seq<string>)
    requires RankedAlong(g, follow, rank)
    requires MinHops(g, follow, rank, x, y).Some?
    ensures WalkBetween(g, follow, p, x, y)
    ensures |p| == MinHops(g, follow, rank, x, y).value + 1
  {
    p := MinHopsFromWitness(g, follow, rank, x, y, 0);
  }

  lemma {:induction false} MinHopsFromBelowEach(g: Table, follow: Follow, rank: map<string, nat>, x: string, y: string, i: nat, j: nat)
    requires RankedAlong(g, follow, rank)
    requires x in g && i <= j < |Neighbors(g[x], follow)|
    ensures OLe(MinHopsFrom(g, follow, rank, x, y, i),
                OMin(if Neighbors(g[x], follow)[j] == y then Some(1) else None,
                     OAdd(1, MinHops(g, follow, rank, Neighbors(g[x], follow)[j], y))))
    decreases j - i
  {
    if i < j {
      MinHopsFromBelowEach(g, follow, rank, x, y, i + 1, j);
    }
  }

  /** No walk is shorter than the shortest hop count. */
  lemma {:induction false} MinHopsLeast(g: Table, follow: Follow, rank: map<string, nat>, p: seq<string>, x: string, y: string)
    requires RankedAlong(g, follow, rank)
    requires WalkBetween(g, follow, p, x, y)
    ensures MinHops(g, follow, rank, x, y).Some?
    ensures MinHops(g, follow, rank, x, y).value <= |p| - 1
    decreases |p|
  {
    var fs := Neighbors(g[x], follow);
    var f := p[1];
    var j :| 0 <= j < |fs| && fs[j] == f;
    if |p| > 2 {
      var q := p[1..];
      assert WalkBetween(g, follow, q, f, y) by {
        forall k | 0 <= k < |q| - 1 ensures q[k] in g && q[k + 1] in Neighbors(g[q[k]], follow) {
          assert q[k] == p[k + 1] && q[k + 1] == p[k + 2];
        }
      }
      MinHopsLeast(g, follow, rank, q, f, y);
    }
    MinHopsFromBelowEach(g, follow, rank, x, y, 0, j);
  }

  /** `y` can be reached from `x` exactly when some walk leads there, and the
      hop count is the length of the shortest such walk. */
  lemma MinHopsIsShortestWalk(g: Table, follow: Follow, rank: map<string, nat>, x: string, y: string)
    requires RankedAlong(g, follow, rank)
    ensures MinHops(g, follow, rank, x, y).Some? <==> exists p :: WalkBetween(g, follow, p, x, y)
    ensures MinHops(g, follow, rank, x, y).Some? ==>
              && (exists p :: WalkBetween(g, follow, p, x, y) && |p| - 1 == MinHops(g, follow, rank, x, y).value)
              && (forall p :: WalkBetween(g, follow, p, x, y) ==> MinHops(g, follow, rank, x, y).value <= |p| - 1)
  {
    if MinHops(g, follow, rank, x, y).Some? {
      var w := MinHopsWitness(g, follow, rank, x, y);
      forall p | WalkBetween(g, follow, p, x, y) ensures MinHops(g, follow, rank, x, y).value <= |p| - 1 {
        MinHopsLeast(g, follow, rank, p, x, y);
      }
    } else {
      forall p | WalkBetween(g, follow, p, x, y) ensures false {
        MinHopsLeast(g, follow, rank, p, x, y);
      }
    }
  }

  /** Recording a hit, then descending, then going on with the later
      neighbours, keeps the same minimum as taking it over all three at once. */
  lemma RelaxInOrder(a: Option<nat>, hit: Option<nat>, below: Option<nat>, later: Option<nat>, d: nat)
    ensures OMin(OMin(OMin(a, OAdd(d, hit)), OAdd(d + 1, below)), OAdd(d, later))
            == OMin(a, OAdd(d, OMin(OMin(hit, OAdd(1, below)), later)))
  {
  }

  // ---------------------------------------------------------------------
  // The traversal computes the reference
  // ---------------------------------------------------------------------

  lemma {:induction false} TraverseFromAt(g: Table, follow: Follow, rank: map<string, nat>, x: string,
                                          stop: Option<string>, dist: nat, acc: map<string, nat>, i: nat, y: string)
    requires RankedAlong(g, follow, rank)
    requires x in g && i <= |Neighbors(g[x], follow)|
    requires stop == None || (stop == Some(y) && x != y)
    ensures TraverseFrom(g, follow, rank, x, stop, dist, acc, i).Ok? ==>
              Get(TraverseFrom(g, follow, rank, x, stop, dist, acc, i).value, y)
              == OMin(Get(acc, y), OAdd(dist, MinHopsFrom(g, follow, rank, x, y, i)))
    decreases Height(g, rank, x), 0, |Neighbors(g[x], follow)| - i
  {
    var fs := Neighbors(g[x], follow);
    if i < |fs| {
      var f := fs[i];
      var hit: Option<nat> := if f == y then Some(1) else None;
      var acc1 := Record(acc, f, dist + 1);
      assert Get(acc1, y) == OMin(Get(acc, y), OAdd(dist, hit));
      match Traverse(g, follow, rank, f, stop, dist + 1, acc1)
      case Err(_) =>
      case Ok(acc2) =>
        TraverseAt(g, follow, rank, f, stop, dist + 1, acc1, y);
        TraverseFromAt(g, follow, rank, x, stop, dist, acc2, i + 1, y);
        RelaxInOrder(Get(acc, y), hit, MinHops(g, follow, rank, f, y), MinHopsFrom(g, follow, rank, x, y, i + 1), dist);
    }
  }

  /** With no `stop`, `Traverse` keeps, for every `y`, the smaller of what `acc`
      held and `dist` plus the fewest hops from `x` to `y`; with `stop == Some(y)`
      that is still what it records for `y` itself. */
  lemma {:induction false} TraverseAt(g: Table, follow: Follow, rank: map<string, nat>, x: string,
                                      stop: Option<string>, dist: nat, acc: map<string, nat>, y: string)
    requires RankedAlong(g, follow, rank)
    requires stop == None || stop == Some(y)
    ensures Traverse(g, follow, rank, x, stop, dist, acc).Ok? ==>
              Get(Traverse(g, follow, rank, x, stop, dist, acc).value, y)
              == OMin(Get(acc, y), OAdd(dist, MinHops(g, follow, rank, x, y)))
    decreases Height(g, rank, x), 1
  {
    if x in g {
      if stop == Some(x) {
        // the current node is the target: only its first neighbour is recorded
        NotOwnRelative(g, follow, rank, x);
        var fs := Neighbors(g[x], follow);
        if |fs| > 0 {
          assert fs[0] in g ==> rank[fs[0]] < rank[x];
        }
      } else {
        TraverseFromAt(g, follow, rank, x, stop, dist, acc, 0, y);
      }
    }
  }

  lemma {:induction false} TraverseFromOk(g: Table, follow: Follow, rank: map<string, nat>, x: string,
                                          stop: Option<string>, dist: nat, acc: map<string, nat>, i: nat)
    requires RankedAlong(g, follow, rank) && ClosedAlong(g, follow)
    requires x in g && i <= |Neighbors(g[x], follow)|
    ensures TraverseFrom(g, follow, rank, x, stop, dist, acc, i).Ok?
    decreases Height(g, rank, x), 0, |Neighbors(g[x], follow)| - i
  {
    var fs := Neighbors(g[x], follow);
    if i < |fs| && stop != Some(x) {
      var acc1 := Record(acc, fs[i], dist + 1);
      TraverseOk(g, follow, rank, fs[i], stop, dist + 1, acc1);
      TraverseFromOk(g, follow, rank, x, stop, dist, Traverse(g, follow, rank, fs[i], stop, dist + 1, acc1).value, i + 1);
    }
  }

  /** On a referentially complete table, a traversal from a valid identifier
      raises nothing. */
  lemma {:induction false} TraverseOk(g: Table, follow: Follow, rank: map<string, nat>, x: string,
                                      stop: Option<string>, dist: nat, acc: map<string, nat>)
    requires RankedAlong(g, follow, rank) && ClosedAlong(g, follow)
    requires x in g
    ensures Traverse(g, follow, rank, x, stop, dist, acc).Ok?
    decreases Height(g, rank, x), 1
  {
    TraverseFromOk(g, follow, rank, x, stop, dist, acc, 0);
  }

  lemma {:induction false} TraverseFromErr(g: Table, follow: Follow, rank: map<string, nat>, x: string,
                                           stop: Option<string>, dist: nat, acc: map<string, nat>, i: nat)
    requires RankedAlong(g, follow, rank)
    requires x in g && i <= |Neighbors(g[x], follow)|
    ensures TraverseFrom(g, follow, rank, x, stop, dist, acc, i).Err? ==>
              TraverseFrom(g, follow, rank, x, stop, dist, acc, i).error.nodeId !in g
    decreases Height(g, rank, x), 0, |Neighbors(g[x], follow)| - i
  {
    var fs := Neighbors(g[x], follow);
    if i < |fs| && stop != Some(x) {
      var acc1 := Record(acc, fs[i], dist + 1);
      TraverseErr(g, follow, rank, fs[i], stop, dist + 1, acc1);
      match Traverse(g, follow, rank, fs[i], stop, dist + 1, acc1)
      case Err(_) =>
      case Ok(acc2) => TraverseFromErr(g, follow, rank, x, stop, dist, acc2, i + 1);
    }
  }

  /** A KeyError raised by a traversal names an identifier that has no node. */
  lemma {:induction false} TraverseErr(g: Table, follow: Follow, rank: map<string, nat>, x: string,
                                       stop: Option<string>, dist: nat, acc: map<string, nat>)
    requires RankedAlong(g, follow, rank)
    ensures Traverse(g, follow, rank, x, stop, dist, acc).Err? ==>
              Traverse(g, follow, rank, x, stop, dist, acc).error.nodeId !in g
    decreases Height(g, rank, x), 1
  {
    if x in g {
      TraverseFromErr(g, follow, rank, x, stop, dist, acc, 0);
    }
  }

  /** A traversal from scratch (`dist` 0, empty `result`): its keys are the
      identifiers reachable in one or more hops, each with its fewest hops. */
  lemma Reached(g: Table, follow: Follow, rank: map<string, nat>, x: string, stop: Option<string>, y: string)
    requires RankedAlong(g, follow, rank)
    requires stop == None || stop == Some(y)
    requires Traverse(g, follow, rank, x, stop, 0, map[]).Ok?
    ensures Get(Traverse(g, follow, rank, x, stop, 0, map[]).value, y) == MinHops(g, follow, rank, x, y)
  {
    TraverseAt(g, follow, rank, x, stop, 0, map[], y);
    match MinHops(g, follow, rank, x, y)
    case None =>
    case Some(h) =>
  }

  /** Pruning at `stop` never changes what is recorded for `stop` itself. */
  lemma StopAtKeepsTarget(g: Table, follow: Follow, rank: map<string, nat>, x: string, s: string)
    requires RankedAlong(g, follow, rank) && ClosedAlong(g, follow)
    requires x in g
    ensures Traverse(g, follow, rank, x, Some(s), 0, map[]).Ok?
    ensures Traverse(g, follow, rank, x, None, 0, map[]).Ok?
    ensures Get(Traverse(g, follow, rank, x, Some(s), 0, map[]).value, s)
            == Get(Traverse(g, follow, rank, x, None, 0, map[]).value, s)
  {
    TraverseOk(g, follow, rank, x, Some(s), 0, map[]);
    TraverseOk(g, follow, rank, x, None, 0, map[]);
    Reached(g, follow, rank, x, Some(s), s);
    Reached(g, follow, rank, x, None, s);
  }

  // ---------------------------------------------------------------------
  // What the queries answer
  // ---------------------------------------------------------------------

  /** The answer of `get_distance(a, b)`: the fewest parent hops from `a` to
      `b` if `b` is an ancestor, otherwise the fewest child hops if it is a
      descendant, otherwise -1. */
  ghost function DirectDistance(g: Table, up: map<string, nat>, down: map<string, nat>, a: string, b: string): (d: int)
    requires RankedAlong(g, ParentIds, up) && RankedAlong(g, ChildIds, down)
    ensures d == -1 || d >= 1
  {
    MinHopsPositive(g, ParentIds, up, a, b);
    MinHopsPositive(g, ChildIds, down, a, b);
    match MinHops(g, ParentIds, up, a, b)
    case Some(h) => h
    case None =>
      match MinHops(g, ChildIds, down, a, b)
      case Some(h) => h
      case None => -1
  }

  /** `get_distance` answers -1 exactly when no walk leads from `a` to `b` in
      either direction, and otherwise answers the length of a shortest walk in
      the first direction that has one. */
  lemma DirectDistanceMeaning(g: Table, up: map<string, nat>, down: map<string, nat>, a: string, b: string)
    requires RankedAlong(g, ParentIds, up) && RankedAlong(g, ChildIds, down)
    ensures DirectDistance(g, up, down, a, b) == -1 <==>
              (forall p :: !WalkBetween(g, ParentIds, p, a, b)) && (forall p :: !WalkBetween(g, ChildIds, p, a, b))
    ensures DirectDistance(g, up, down, a, b) != -1 ==> DirectDistance(g, up, down, a, b) >= 1
    ensures (exists p :: WalkBetween(g, ParentIds, p, a, b)) ==>
              && (exists p :: WalkBetween(g, ParentIds, p, a, b) && DirectDistance(g, up, down, a, b) == |p| - 1)
              && (forall p :: WalkBetween(g, ParentIds, p, a, b) ==> DirectDistance(g, up, down, a, b) <= |p| - 1)
    ensures (forall p :: !WalkBetween(g, ParentIds, p, a, b)) && (exists p :: WalkBetween(g, ChildIds, p, a, b)) ==>
              && (exists p :: WalkBetween(g, ChildIds, p, a, b) && DirectDistance(g, up, down, a, b) == |p| - 1)
              && (forall p :: WalkBetween(g, ChildIds, p, a, b) ==> DirectDistance(g, up, down, a, b) <= |p| - 1)
  {
    MinHopsIsShortestWalk(g, ParentIds, up, a, b);
    MinHopsIsShortestWalk(g, ChildIds, down, a, b);
    MinHopsPositive(g, ParentIds, up, a, b);
    MinHopsPositive(g, ChildIds, down, a, b);
  }

  /** The condition `is_acyclic` tests: no node is among its own ancestors or
      descendants. */
  ghost predicate NoSelfRelative(g: Table, up: map<string, nat>, down: map<string, nat>)
    requires RankedAlong(g, ParentIds, up) && RankedAlong(g, ChildIds, down)
  {
    forall k :: k in g ==> MinHops(g, ParentIds, up, k, k).None? && MinHops(g, ChildIds, down, k, k).None?
  }

  /** Ranked edges leave nothing for `is_acyclic` to find. */
  lemma RankedHasNoSelfRelative(g: Table, up: map<string, nat>, down: map<string, nat>)
    requires RankedAlong(g, ParentIds, up) && RankedAlong(g, ChildIds, down)
    ensures NoSelfRelative(g, up, down)
  {
    forall k | k in g ensures MinHops(g, ParentIds, up, k, k).None? && MinHops(g, ChildIds, down, k, k).None? {
      NotOwnRelative(g, ParentIds, up, k);
      NotOwnRelative(g, ChildIds, down, k);
    }
  }
}
