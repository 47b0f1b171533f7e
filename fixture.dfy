/**
 A small document in which one synset occurs under two parents:
 root -> A -> B and root -> C -> B. The lemmas give the table the builder
 makes from it and what the queries answer on it; the `Scenario` methods are
 clients of `ImageNetParser` that rely on nothing but its contracts.
 */
module Fixture {
  import opened Graph
  import opened Builder
  import opened Traversal
  import opened ImageNet

  function Synset(wnid: string, children: seq<Element>): Element {
    Element(SynsetTag, wnid, children)
  }

  const Doc: Element :=
    Element("ImageNetStructure", "", [Synset("A", [Synset("B", [])]), Synset("C", [Synset("B", [])])])

  const Expected: Table := map[
    RootId := Node(RootId, [], ["A", "C"]),
    "A" := Node("A", [RootId], ["B"]),
    "C" := Node("C", [RootId], ["B"]),
    "B" := Node("B", ["A", "C"], [])
  ]

  /** Ranks under which parent links go down: B above A and C above the root. */
  const Up: map<string, nat> := map[RootId := 0, "A" := 1, "C" := 1, "B" := 2]

  /** Ranks under which child links go down. */
  const Down: map<string, nat> := map[RootId := 2, "A" := 1, "C" := 1, "B" := 0]

  /** The table once the first branch, root -> A -> B, has been walked. */
  const AfterFirstBranch: Table := map[
    RootId := Node(RootId, [], ["A"]),
    "A" := Node("A", [RootId], ["B"]),
    "B" := Node("B", ["A"], [])
  ]

  lemma FirstBranch()
    ensures VisitChildren(AddOccurrence(map[], RootId, None), Doc, RootId, 1) == AfterFirstBranch
  {
    var a := Doc.children[0];
    var g0 := AddOccurrence(map[], RootId, None);
    assert g0 == map[RootId := Node(RootId, [], [])];
    var g1 := AppendChild(g0, RootId, "A");
    assert [] + ["A"] == ["A"];
    assert g1[RootId] == Node(RootId, [], ["A"]);
    assert g1 == map[RootId := Node(RootId, [], ["A"])];
    var g2 := AddOccurrence(g1, "A", Some(RootId));
    assert g2 == map[RootId := Node(RootId, [], ["A"]), "A" := Node("A", [RootId], [])];
    var g3 := AppendChild(g2, "A", "B");
    assert [] + ["B"] == ["B"];
    assert g3["A"] == Node("A", [RootId], ["B"]);
    assert g3 == map[RootId := Node(RootId, [], ["A"]), "A" := Node("A", [RootId], ["B"])];
    var g4 := AddOccurrence(g3, "B", Some("A"));
    assert g4 == AfterFirstBranch;
    assert Visit(g3, a.children[0], "B", Some("A")) == g4;
    assert VisitChildren(g2, a, "A", 1) == g4;
  }

  lemma SecondBranch()
    ensures Visit(AppendChild(AfterFirstBranch, RootId, "C"), Doc.children[1], "C", Some(RootId)) == Expected
  {
    var c := Doc.children[1];
    var g5 := AppendChild(AfterFirstBranch, RootId, "C");
    assert ["A"] + ["C"] == ["A", "C"];
    assert g5[RootId] == Node(RootId, [], ["A", "C"]);
    assert g5 == map[RootId := Node(RootId, [], ["A", "C"]), "A" := Node("A", [RootId], ["B"]),
                     "B" := Node("B", ["A"], [])];
    var g6 := AddOccurrence(g5, "C", Some(RootId));
    assert g6 == map[RootId := Node(RootId, [], ["A", "C"]), "A" := Node("A", [RootId], ["B"]),
                     "B" := Node("B", ["A"], []), "C" := Node("C", [RootId], [])];
    var g7 := AppendChild(g6, "C", "B");
    assert [] + ["B"] == ["B"];
    assert g7["C"] == Node("C", [RootId], ["B"]);
    assert g7 == map[RootId := Node(RootId, [], ["A", "C"]), "A" := Node("A", [RootId], ["B"]),
                     "B" := Node("B", ["A"], []), "C" := Node("C", [RootId], ["B"])];
    var g8 := AddOccurrence(g7, "B", Some("C"));
    assert g8 == Expected;
    assert Visit(g7, c.children[0], "B", Some("C")) == g8;
    assert VisitChildren(g6, c, "C", 1) == g8;
  }

  /** B is one node with the parents A and C; A and C each list B once. */
  lemma BuildFixture()
    ensures Build(Doc) == Expected
  {
    FirstBranch();
    SecondBranch();
    assert VisitChildren(AddOccurrence(map[], RootId, None), Doc, RootId, 2) == Expected;
  }

  lemma FixtureRanked()
    ensures RankedAlong(Expected, ParentIds, Up) && RankedAlong(Expected, ChildIds, Down)
  {
  }

  /** The fewest parent hops from each node of the fixture. */
  lemma FixtureUpward(y: string)
    ensures RankedAlong(Expected, ParentIds, Up)
    ensures MinHops(Expected, ParentIds, Up, RootId, y) == None
    ensures MinHops(Expected, ParentIds, Up, "A", y) == (if y == RootId then Some(1) else None)
    ensures MinHops(Expected, ParentIds, Up, "C", y) == (if y == RootId then Some(1) else None)
    ensures MinHops(Expected, ParentIds, Up, "B", y)
            == (if y == "A" || y == "C" then Some(1) else if y == RootId then Some(2) else None)
  {
    var g := Expected;
    var P := ParentIds;
    assert Neighbors(g[RootId], P) == [];
    assert Neighbors(g["A"], P) == [RootId];
    assert Neighbors(g["C"], P) == [RootId];
    assert Neighbors(g["B"], P) == ["A", "C"];
    var top: Option<nat> := if y == RootId then Some(1) else None;
    assert MinHops(g, P, Up, RootId, y) == None;
    assert MinHopsFrom(g, P, Up, "A", y, 1) == None;
    assert MinHopsFrom(g, P, Up, "A", y, 0) == OMin(OMin(top, OAdd(1, None)), None);
    assert MinHopsFrom(g, P, Up, "C", y, 1) == None;
    assert MinHopsFrom(g, P, Up, "C", y, 0) == OMin(OMin(top, OAdd(1, None)), None);
    var viaA: Option<nat> := OMin(if y == "A" then Some(1) else None, OAdd(1, top));
    var viaC: Option<nat> := OMin(if y == "C" then Some(1) else None, OAdd(1, top));
    assert MinHopsFrom(g, P, Up, "B", y, 2) == None;
    assert MinHopsFrom(g, P, Up, "B", y, 1) == OMin(viaC, None);
    assert MinHopsFrom(g, P, Up, "B", y, 0) == OMin(viaA, OMin(viaC, None));
  }

  /** The fewest child hops from each node of the fixture. */
  lemma FixtureDownward(y: string)
    ensures RankedAlong(Expected, ChildIds, Down)
    ensures MinHops(Expected, ChildIds, Down, "B", y) == None
    ensures MinHops(Expected, ChildIds, Down, "A", y) == (if y == "B" then Some(1) else None)
    ensures MinHops(Expected, ChildIds, Down, "C", y) == (if y == "B" then Some(1) else None)
    ensures MinHops(Expected, ChildIds, Down, RootId, y)
            == (if y == "A" || y == "C" then Some(1) else if y == "B" then Some(2) else None)
  {
    var g := Expected;
    var C := ChildIds;
    assert Neighbors(g["B"], C) == [];
    assert Neighbors(g["A"], C) == ["B"];
    assert Neighbors(g["C"], C) == ["B"];
    assert Neighbors(g[RootId], C) == ["A", "C"];
    var bottom: Option<nat> := if y == "B" then Some(1) else None;
    assert MinHops(g, C, Down, "B", y) == None;
    assert MinHopsFrom(g, C, Down, "A", y, 1) == None;
    assert MinHopsFrom(g, C, Down, "A", y, 0) == OMin(OMin(bottom, OAdd(1, None)), None);
    assert MinHopsFrom(g, C, Down, "C", y, 1) == None;
    assert MinHopsFrom(g, C, Down, "C", y, 0) == OMin(OMin(bottom, OAdd(1, None)), None);
    var viaA: Option<nat> := OMin(if y == "A" then Some(1) else None, OAdd(1, bottom));
    var viaC: Option<nat> := OMin(if y == "C" then Some(1) else None, OAdd(1, bottom));
    assert MinHopsFrom(g, C, Down, RootId, y, 2) == None;
    assert MinHopsFrom(g, C, Down, RootId, y, 1) == OMin(viaC, None);
    assert MinHopsFrom(g, C, Down, RootId, y, 0) == OMin(viaA, OMin(viaC, None));
  }

  /** The distances of the fixture: root to B is 2, A and C are unrelated. */
  lemma FixtureDistances()
    ensures RankedAlong(Expected, ParentIds, Up) && RankedAlong(Expected, ChildIds, Down)
    ensures DirectDistance(Expected, Up, Down, RootId, "B") == 2
    ensures DirectDistance(Expected, Up, Down, "A", "C") == -1
    ensures DirectDistance(Expected, Up, Down, "B", RootId) == 2
  {
    FixtureUpward("B");
    FixtureUpward("C");
    FixtureUpward(RootId);
    FixtureDownward("B");
    FixtureDownward("C");
  }

  lemma FixtureClosed()
    ensures Closed(Expected)
  {
  }

  /** A parser built from the fixture holds the expected table, which is
      complete and ranked in both directions. */
  method NewFixtureParser() returns (parser: ImageNetParser)
    ensures parser.nodes == Expected
    ensures Closed(parser.nodes)
    ensures RankedAlong(parser.nodes, ParentIds, Up) && RankedAlong(parser.nodes, ChildIds, Down)
  {
    parser := new ImageNetParser(Doc);
    BuildFixture();
    FixtureClosed();
    FixtureRanked();
  }

  /** The fixture is not a tree: B has two parents. */
  method ScenarioShape() returns (isTree: bool)
    ensures !isTree
  {
    var parser := NewFixtureParser();
    isTree := parser.IsTree();
    assert |Expected["B"].parentIds| == 2;
  }

  /** The ancestors of B are A, C and the root; the root has none. */
  method ScenarioAncestors() returns (anc: Result<set<string>>, rootAnc: Result<set<string>>)
    ensures anc == Ok({"A", "C", RootId})
    ensures rootAnc == Ok({})
  {
    var parser := NewFixtureParser();
    anc := parser.GetAncestors("B", Up);
    assert anc.Ok?;
    forall y ensures y in anc.value <==> y == "A" || y == "C" || y == RootId {
      FixtureUpward(y);
    }
    var expected: set<string> := {"A", "C", RootId};
    assert anc.value == expected;
    rootAnc := parser.GetAncestors(RootId, Up);
    assert rootAnc.Ok?;
    forall y ensures y !in rootAnc.value {
      FixtureUpward(y);
    }
    assert rootAnc.value == {};
  }

  /** B is at depth 2 (through either parent), the root at depth 0. */
  method ScenarioDepth() returns (depth: Result<nat>, rootDepth: Result<nat>)
    ensures depth == Ok(2) && rootDepth == Ok(0)
  {
    var parser := NewFixtureParser();
    depth := parser.GetDepth("B", Up);
    FixtureUpward(RootId);
    rootDepth := parser.GetDepth(RootId, Up);
  }

  /** Root and B are 2 apart; A and C are unrelated; unknown identifiers raise,
      the second one first. */
  method ScenarioDistance() returns (rootToB: Result<int>, aToC: Result<int>, bothUnknown: Result<int>, firstUnknown: Result<int>)
    ensures rootToB == Ok(2) && aToC == Ok(-1)
    ensures bothUnknown == Err(KeyError("n11111111"))
    ensures firstUnknown == Err(KeyError("n00000000"))
  {
    var parser := NewFixtureParser();
    FixtureDistances();
    rootToB := parser.GetDistance(RootId, "B", Up, Down);
    aToC := parser.GetDistance("A", "C", Up, Down);
    bothUnknown := parser.GetDistance("n00000000", "n11111111", Up, Down);
    firstUnknown := parser.GetDistance("n00000000", "B", Up, Down);
  }
}
