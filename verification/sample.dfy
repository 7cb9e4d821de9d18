/** The driver of DijkstraAlgorithm.cs (Program.Main) as a proved example:
    four nodes, five weighted edges, and the cheapest route from node 0 to
    node 3. */
module DijkstraSample {
  import opened Wrappers
  import opened Graphs
  import opened Dijkstra

  // The edges in the order Main adds them; their ids are the order.
  const E01: Edge := Edge(0, 0, 1)
  const E02: Edge := Edge(1, 0, 2)
  const E03: Edge := Edge(2, 0, 3)
  const E13: Edge := Edge(3, 1, 3)
  const E23: Edge := Edge(4, 2, 3)

  /** The graph Main builds, written out. */
  function SampleGraph(): Graph {
    Graph([Node(0, [E01, E02, E03]), Node(1, [E01, E13]), Node(2, [E02, E23]), Node(3, [E03, E13, E23])], 5)
  }

  /** Main's weights. */
  function SampleWeights(): map<Edge, nat> {
    map[E01 := 1, E02 := 2, E03 := 6, E13 := 4, E23 := 2]
  }

  /** No edge of the sample enters node 0, so the only walk from 0 to 0 is empty. */
  lemma WalksToZero(P: seq<Edge>)
    requires IsWalk(SampleGraph(), 0, 0, P)
    ensures P == []
  {
  }

  /** The walks from 0 to 1 and to 2 are the single edges. */
  lemma WalksToOneOrTwo(t: nat, P: seq<Edge>)
    requires t == 1 || t == 2
    requires IsWalk(SampleGraph(), 0, t, P)
    ensures t == 1 ==> P == [E01]
    ensures t == 2 ==> P == [E02]
  {
    var e := P[|P| - 1];
    var P' := P[..|P| - 1];
    assert e in SampleGraph().nodes[e.from].edges;
    WalksToZero(P');
    assert P == P' + [e];
  }

  /** Every walk from 0 to 3 is one of the three routes. */
  lemma WalksToThree(P: seq<Edge>)
    requires IsWalk(SampleGraph(), 0, 3, P)
    ensures P == [E03] || P == [E01, E13] || P == [E02, E23]
  {
    var e := P[|P| - 1];
    var P' := P[..|P| - 1];
    assert e in SampleGraph().nodes[e.from].edges;
    assert P == P' + [e];
    if e.from == 0 {
      WalksToZero(P');
    } else {
      WalksToOneOrTwo(e.from, P');
    }
  }

  // The graph after each of Main's GetConnectedEdge calls.
  const G0: Graph := Graph([Node(0, []), Node(1, []), Node(2, []), Node(3, [])], 0)
  const G1: Graph := Graph([Node(0, [E01]), Node(1, [E01]), Node(2, []), Node(3, [])], 1)
  const G2: Graph := Graph([Node(0, [E01, E02]), Node(1, [E01]), Node(2, [E02]), Node(3, [])], 2)
  const G3: Graph := Graph([Node(0, [E01, E02, E03]), Node(1, [E01]), Node(2, [E02]), Node(3, [E03])], 3)
  const G4: Graph := Graph([Node(0, [E01, E02, E03]), Node(1, [E01, E13]), Node(2, [E02]), Node(3, [E03, E13])], 4)

  /** Connect on a four-node graph, node by node. */
  lemma ConnectFour(g: Graph, a: nat, b: nat)
    requires |g.nodes| == 4 && a < 4 && b < 4
    ensures Connect(g, a, b).Success?
    ensures var (g', e) := Connect(g, a, b).value;
      && e == Edge(g.nextId, a, b) && g'.nextId == g.nextId + 1 && |g'.nodes| == 4
      && g'.nodes[0] == Node(g.nodes[0].number, g.nodes[0].edges + (if a == 0 then [e] else []) + (if b == 0 then [e] else []))
      && g'.nodes[1] == Node(g.nodes[1].number, g.nodes[1].edges + (if a == 1 then [e] else []) + (if b == 1 then [e] else []))
      && g'.nodes[2] == Node(g.nodes[2].number, g.nodes[2].edges + (if a == 2 then [e] else []) + (if b == 2 then [e] else []))
      && g'.nodes[3] == Node(g.nodes[3].number, g.nodes[3].edges + (if a == 3 then [e] else []) + (if b == 3 then [e] else []))
  {
  }

  lemma Build1() ensures Connect(G0, 0, 1) == Success((G1, E01)) {
    ConnectFour(G0, 0, 1);
    var c := Connect(G0, 0, 1).value;
    assert c.0.nodes[0].edges == [E01] && c.0.nodes[1].edges == [E01];
    assert c.0.nodes == G1.nodes;
  }

  lemma Build2() ensures Connect(G1, 0, 2) == Success((G2, E02)) {
    ConnectFour(G1, 0, 2);
    var c := Connect(G1, 0, 2).value;
    assert c.0.nodes[0].edges == [E01, E02] && c.0.nodes[2].edges == [E02];
    assert c.0.nodes == G2.nodes;
  }

  lemma Build3() ensures Connect(G2, 0, 3) == Success((G3, E03)) {
    ConnectFour(G2, 0, 3);
    var c := Connect(G2, 0, 3).value;
    assert c.0.nodes[0].edges == [E01, E02, E03] && c.0.nodes[3].edges == [E03];
    assert c.0.nodes == G3.nodes;
  }

  lemma Build4() ensures Connect(G3, 1, 3) == Success((G4, E13)) {
    ConnectFour(G3, 1, 3);
    var c := Connect(G3, 1, 3).value;
    assert c.0.nodes[1].edges == [E01, E13] && c.0.nodes[3].edges == [E03, E13];
    assert c.0.nodes == G4.nodes;
  }

  lemma Build5() ensures Connect(G4, 2, 3) == Success((SampleGraph(), E23)) {
    ConnectFour(G4, 2, 3);
    var c := Connect(G4, 2, 3).value;
    assert c.0.nodes[2].edges == [E02, E23] && c.0.nodes[3].edges == [E03, E13, E23];
    assert c.0.nodes == SampleGraph().nodes;
  }

  /** Connect keeps a graph valid. */
  lemma ConnectValid(g: Graph, a: nat, b: nat, c: (Graph, Edge))
    requires Valid(g) && Connect(g, a, b) == Success(c)
    ensures Valid(c.0)
  {
    LinkedValid(g, a, b, c.0, c.1);
  }

  /** Building the sample with Graph(4) and five GetConnectedEdge calls
      yields SampleGraph, a valid graph, and the five edges in order. */
  lemma SampleBuild()
    ensures NewGraph(4) == Success(G0)
    ensures Connect(G0, 0, 1) == Success((G1, E01)) && Connect(G1, 0, 2) == Success((G2, E02))
    ensures Connect(G2, 0, 3) == Success((G3, E03)) && Connect(G3, 1, 3) == Success((G4, E13))
    ensures Connect(G4, 2, 3) == Success((SampleGraph(), E23))
    ensures Valid(SampleGraph())
  {
    assert NewGraph(4).value.nodes == G0.nodes;
    Build1();
    Build2();
    Build3();
    Build4();
    Build5();
    ConnectValid(G0, 0, 1, (G1, E01));
    ConnectValid(G1, 0, 2, (G2, E02));
    ConnectValid(G2, 0, 3, (G3, E03));
    ConnectValid(G3, 1, 3, (G4, E13));
    ConnectValid(G4, 2, 3, (SampleGraph(), E23));
  }

  /** In the sample, a walk from 0 to 3 that no other walk undercuts is the
      route through node 2. */
  lemma SampleOptimum(walk: seq<Edge>)
    requires IsWalk(SampleGraph(), 0, 3, walk)
    requires forall P :: IsWalk(SampleGraph(), 0, 3, P) ==> Cost(SampleWeights(), walk) <= Cost(SampleWeights(), P)
    ensures walk == [E02, E23] && WalkNodes(0, walk) == [0, 2, 3]
  {
    WalksToThree(walk);
    SampleCosts();
    assert Cost(SampleWeights(), walk) <= 4;
    assert [E02, E23][..1] == [E02] && [E02][..0] == [];
    assert WalkNodes(0, [E02]) == [0, 2];
  }

  /** The three routes cost 6, 5 and 4, and the last is a walk. */
  lemma SampleCosts()
    ensures Cost(SampleWeights(), [E03]) == 6
    ensures Cost(SampleWeights(), [E01, E13]) == 5
    ensures Cost(SampleWeights(), [E02, E23]) == 4
    ensures IsWalk(SampleGraph(), 0, 3, [E02, E23])
  {
    var w := SampleWeights();
    assert [E02, E23][..1] == [E02] && [E01, E13][..1] == [E01];
    assert [E02][..0] == [] && [E01][..0] == [] && [E03][..0] == [];
    assert Cost(w, [E02]) == 2;
    assert Cost(w, [E01]) == 1;
  }

  /** Main's scenario gives the route 0, 2, 3 (cost 4; 0, 1, 3 costs 5 and
      the direct edge 6). */
  method SampleRoute() returns (path: Option<seq<nat>>)
    ensures path == Some([0, 2, 3])
  {
    SampleBuild();
    var g0 := NewGraph(4).value;
    var c1 := Connect(g0, 0, 1).value;
    var c2 := Connect(c1.0, 0, 2).value;
    var c3 := Connect(c2.0, 0, 3).value;
    var c4 := Connect(c3.0, 1, 3).value;
    var c5 := Connect(c4.0, 2, 3).value;
    var g := c5.0;
    var w := map[c1.1 := 1, c2.1 := 2, c3.1 := 6, c4.1 := 4, c5.1 := 2];
    assert w == SampleWeights();
    ghost var walk, rounds;
    path, walk, rounds := Search(g, w, 0, 3);
    assert path.Some? by {
      assert IsWalk(g, 0, 3, [E02, E23]);
    }
    SampleOptimum(walk);
  }
}
