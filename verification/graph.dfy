/** The graph store of DijkstraAlgorithm.cs: immutable edges, nodes with
    insertion-ordered incident-edge lists, and a fixed array of nodes.

    Object identity is modelled by numbers: a node is its index in the
    graph, and every edge carries an id that the graph hands out once, so
    two edges joining the same nodes stay distinct. */
module Graphs {
  import opened Wrappers
  import opened Seqs

  /** The exceptions the graph store can raise. */
  datatype GraphError =
    | IndexOutOfRange    // IndexOutOfRangeException from the node array
    | InvalidReference   // ArgumentException from Node.Connect: node not in the graph
    | NotIncident        // ArgumentException from Edge.OtherNode
    | EmptySequence      // InvalidOperationException from Max() on no elements
    | NegativeCount      // ArgumentOutOfRangeException from Enumerable.Range

  /** An edge between node From and node To; `id` is its identity. */
  datatype Edge = Edge(id: nat, from: nat, to: nat)

  /** A node: its number and the edges incident to it, oldest first. */
  datatype Node = Node(number: nat, edges: seq<Edge>)

  /** A graph: its nodes, numbered by position, and the next fresh edge id. */
  datatype Graph = Graph(nodes: seq<Node>, nextId: nat) {
    function Length(): nat { |nodes| }
  }

  // ---------------------------------------------------------------- Edge

  /** Edge.IsIncident: v is the From or the To end of e; equivalently, e
      belongs in v's list at least once. */
  predicate IsIncident(e: Edge, v: nat): (r: bool)
    ensures r <==> Multiplicity(e, v) > 0
  {
    e.from == v || e.to == v
  }

  /** Edge.OtherNode: the endpoint opposite v; fails when v is not an endpoint. */
  function OtherNode(e: Edge, v: nat): (r: Result<nat, GraphError>)
    ensures r.Success? <==> (v == e.from || v == e.to)
    ensures r.Failure? ==> r.error == NotIncident
    ensures r.Success? ==> multiset{v, r.value} == multiset{e.from, e.to}
  {
    if !IsIncident(e, v) then Failure(NotIncident)
    else if e.from == v then Success(e.to)
    else Success(e.from)
  }

  /** Taking the opposite endpoint twice gives back the node started from. */
  lemma OtherNodeInvolutive(e: Edge, v: nat)
    requires IsIncident(e, v)
    ensures OtherNode(e, v).Success?
    ensures IsIncident(e, OtherNode(e, v).value)
    ensures OtherNode(e, OtherNode(e, v).value) == Success(v)
  {
  }

  // ---------------------------------------------------------------- invariant

  /** How often e must appear in node v's list: once per endpoint that is v,
      so a self-loop appears twice (Node.Connect adds it to both lists). */
  function Multiplicity(e: Edge, v: nat): nat {
    (if e.from == v then 1 else 0) + (if e.to == v then 1 else 0)
  }

  /** e is a live edge of g: its endpoints are nodes of g, its id was handed
      out by g, and it sits in exactly its endpoints' lists. */
  ghost predicate Registered(g: Graph, e: Edge) {
    && e.from < |g.nodes|
    && e.to < |g.nodes|
    && e.id < g.nextId
    && forall v :: 0 <= v < |g.nodes| ==> multiset(g.nodes[v].edges)[e] == Multiplicity(e, v)
  }

  /** The graph store's invariant: node i is numbered i, and every listed edge
      is in both endpoints' lists (or, once disconnected, in neither). */
  ghost predicate Valid(g: Graph) {
    && (forall v :: 0 <= v < |g.nodes| ==> g.nodes[v].number == v)
    && (forall v, e :: 0 <= v < |g.nodes| && e in g.nodes[v].edges ==> Registered(g, e))
  }

  /** Every edge listed at v touches v and leads to a node of the graph. */
  lemma ListedEdgeIncident(g: Graph, v: nat, e: Edge)
    requires Valid(g) && v < |g.nodes| && e in g.nodes[v].edges
    ensures IsIncident(e, v) && e.from < |g.nodes| && e.to < |g.nodes| && e.id < g.nextId
  {
    assert Registered(g, e);
    assert multiset(g.nodes[v].edges)[e] > 0;
  }

  /** In a valid graph a live edge is listed at exactly the nodes it is
      incident to. */
  lemma ListedIffIncident(g: Graph, e: Edge, v: nat)
    requires Valid(g) && Registered(g, e) && v < |g.nodes|
    ensures e in g.nodes[v].edges <==> IsIncident(e, v)
  {
    assert multiset(g.nodes[v].edges)[e] == Multiplicity(e, v);
  }

  // ---------------------------------------------------------------- Graph

  /** new Graph(nodesCount): nodes 0..count-1, each with no edges. */
  function NewGraph(count: int): (r: Result<Graph, GraphError>)
    ensures r.Success? <==> count >= 0
    ensures r.Failure? ==> r.error == NegativeCount
    ensures r.Success? ==> Valid(r.value) && r.value.Length() == count
    ensures r.Success? ==> forall v :: 0 <= v < count ==> r.value.nodes[v].edges == []
  {
    if count < 0 then Failure(NegativeCount)
    else Success(Graph(seq(count, i requires 0 <= i < count => Node(i, [])), 0))
  }

  /** The graph indexer this[index]. */
  function At(g: Graph, index: int): (r: Result<Node, GraphError>)
    ensures r.Success? <==> 0 <= index < g.Length()
    ensures r.Failure? ==> r.error == IndexOutOfRange
    ensures r.Success? ==> r.value == g.nodes[index]
    ensures r.Success? && Valid(g) ==> r.value.number == index
  {
    if 0 <= index < |g.nodes| then Success(g.nodes[index]) else Failure(IndexOutOfRange)
  }

  /** Every edge in v's list touches v. */
  lemma ListIncident(g: Graph, v: nat)
    requires Valid(g) && v < |g.nodes|
    ensures forall k :: 0 <= k < |g.nodes[v].edges| ==>
      IsIncident(g.nodes[v].edges[k], v) && g.nodes[v].edges[k].from < |g.nodes| && g.nodes[v].edges[k].to < |g.nodes|
  {
    forall k | 0 <= k < |g.nodes[v].edges|
      ensures IsIncident(g.nodes[v].edges[k], v) && g.nodes[v].edges[k].from < |g.nodes| && g.nodes[v].edges[k].to < |g.nodes|
    {
      ListedEdgeIncident(g, v, g.nodes[v].edges[k]);
    }
  }

  /** Node.IncidentNodes: the opposite endpoint of each incident edge, in order. */
  function IncidentNodes(g: Graph, v: nat): (r: seq<nat>)
    requires Valid(g) && v < |g.nodes|
    ensures |r| == |g.nodes[v].edges|
    ensures forall k :: 0 <= k < |r| ==>
      r[k] < |g.nodes| && IsIncident(g.nodes[v].edges[k], r[k]) &&
      OtherNode(g.nodes[v].edges[k], r[k]) == Success(v)
  {
    var es := g.nodes[v].edges;
    ListIncident(g, v);
    seq(|es|, k requires 0 <= k < |es| => OtherNode(es[k], v).value)
  }

  /** What Node.Connect does to the store: a fresh edge From=a, To=b is
      appended to a's list and then to b's list; nothing else changes. */
  ghost predicate Linked(g: Graph, a: nat, b: nat, g': Graph, e: Edge) {
    && e == Edge(g.nextId, a, b)
    && g'.nextId == g.nextId + 1
    && |g'.nodes| == |g.nodes|
    && forall v :: 0 <= v < |g.nodes| ==>
         g'.nodes[v] == Node(g.nodes[v].number,
                             g.nodes[v].edges + (if v == a then [e] else []) + (if v == b then [e] else []))
  }

  /** Node.Connect(node1, node2, graph): rejects nodes outside the graph. */
  function Link(g: Graph, a: nat, b: nat): (r: Result<(Graph, Edge), GraphError>)
    ensures r.Success? <==> a < g.Length() && b < g.Length()
    ensures r.Failure? ==> r.error == InvalidReference
    ensures r.Success? ==> Linked(g, a, b, r.value.0, r.value.1)
  {
    if a >= |g.nodes| || b >= |g.nodes| then Failure(InvalidReference)
    else
      var e := Edge(g.nextId, a, b);
      var ns := g.nodes[a := g.nodes[a].(edges := g.nodes[a].edges + [e])];
      var ns' := ns[b := ns[b].(edges := ns[b].edges + [e])];
      Success((Graph(ns', g.nextId + 1), e))
  }

  /** Connecting keeps the store valid, and the new edge is distinct from
      every edge already in the graph (parallel edges stay apart). */
  lemma LinkedValid(g: Graph, a: nat, b: nat, g': Graph, e: Edge)
    requires Valid(g) && a < |g.nodes| && b < |g.nodes| && Linked(g, a, b, g', e)
    ensures Valid(g')
    ensures Registered(g', e)
    ensures forall v, f :: 0 <= v < |g.nodes| && f in g.nodes[v].edges ==> f != e
  {
    var n := |g.nodes|;
    forall v, f | 0 <= v < n && f in g.nodes[v].edges
      ensures f != e
    {
      ListedEdgeIncident(g, v, f);
    }
    forall v | 0 <= v < n
      ensures multiset(g'.nodes[v].edges)[e] == Multiplicity(e, v)
    {
      LinkedAt(g, a, b, g', e, v);
    }
    forall v, f | 0 <= v < n && f in g'.nodes[v].edges
      ensures Registered(g', f)
    {
      LinkedKeeps(g, a, b, g', e, v, f);
    }
  }

  /** At one node, connecting adds e as often as it has endpoints there and
      leaves the count of every other edge alone. */
  lemma LinkedAt(g: Graph, a: nat, b: nat, g': Graph, e: Edge, v: nat)
    requires Valid(g) && a < |g.nodes| && b < |g.nodes| && Linked(g, a, b, g', e) && v < |g.nodes|
    ensures multiset(g'.nodes[v].edges)[e] == Multiplicity(e, v)
    ensures forall f :: f != e ==> multiset(g'.nodes[v].edges)[f] == multiset(g.nodes[v].edges)[f]
  {
    if e in g.nodes[v].edges {
      ListedEdgeIncident(g, v, e);
    }
  }

  /** After connecting, every listed edge is registered. */
  lemma LinkedKeeps(g: Graph, a: nat, b: nat, g': Graph, e: Edge, u: nat, f: Edge)
    requires Valid(g) && a < |g.nodes| && b < |g.nodes| && Linked(g, a, b, g', e)
    requires u < |g.nodes| && f in g'.nodes[u].edges
    ensures Registered(g', f)
  {
    if f == e {
      forall v | 0 <= v < |g.nodes| ensures multiset(g'.nodes[v].edges)[e] == Multiplicity(e, v) {
        LinkedAt(g, a, b, g', e, v);
      }
    } else {
      assert f in g.nodes[u].edges;
      assert Registered(g, f);
      forall v | 0 <= v < |g.nodes| ensures multiset(g'.nodes[v].edges)[f] == Multiplicity(f, v) {
        LinkedAt(g, a, b, g', e, v);
      }
    }
  }

  /** Graph.Connect / Graph.GetConnectedEdge: index the node array, then
      Node.Connect; the result is the new edge (Connect discards it). */
  function Connect(g: Graph, index1: int, index2: int): (r: Result<(Graph, Edge), GraphError>)
    ensures r.Success? <==> 0 <= index1 < g.Length() && 0 <= index2 < g.Length()
    ensures r.Failure? ==> r.error == IndexOutOfRange
    ensures r.Success? ==> Linked(g, index1, index2, r.value.0, r.value.1)
  {
    if !(0 <= index1 < |g.nodes|) || !(0 <= index2 < |g.nodes|) then Failure(IndexOutOfRange)
    else Link(g, index1, index2)
  }

  /** Node.Disconnect (and Graph.Delete, which forwards to it): removes the
      first occurrence of e from From's list, then from To's list. */
  function Disconnect(g: Graph, e: Edge): (r: Graph)
    requires e.from < g.Length() && e.to < g.Length()
    ensures r.nextId == g.nextId && |r.nodes| == |g.nodes|
    ensures forall v :: 0 <= v < |g.nodes| ==> r.nodes[v] == Node(g.nodes[v].number, Unlinked(g.nodes[v].edges, e, v))
  {
    var ns := g.nodes[e.from := g.nodes[e.from].(edges := RemoveFirst(g.nodes[e.from].edges, e))];
    Graph(ns[e.to := ns[e.to].(edges := RemoveFirst(ns[e.to].edges, e))], g.nextId)
  }

  /** Node v's list once e is disconnected: one occurrence of e removed for
      each endpoint of e that is v, keeping the order of the rest. */
  function Unlinked(es: seq<Edge>, e: Edge, v: nat): seq<Edge> {
    var once := if e.from == v then RemoveFirst(es, e) else es;
    if e.to == v then RemoveFirst(once, e) else once
  }

  /** Unlinking e from one list removes exactly the required copies of e
      and leaves every other edge's count alone. */
  lemma UnlinkedCounts(es: seq<Edge>, e: Edge, v: nat)
    requires e in es ==> multiset(es)[e] == Multiplicity(e, v)
    ensures e !in Unlinked(es, e, v)
    ensures forall f :: f != e ==> multiset(Unlinked(es, e, v))[f] == multiset(es)[f]
  {
    var once := if e.from == v then RemoveFirst(es, e) else es;
    assert forall f :: f != e ==> multiset(once)[f] == multiset(es)[f];
    if e !in es {
      assert multiset(es)[e] == 0;
    }
    assert multiset(Unlinked(es, e, v))[e] == 0;
  }

  /** Disconnecting keeps the store valid and leaves e in no list at all. */
  lemma DisconnectValid(g: Graph, e: Edge)
    requires Valid(g) && e.from < |g.nodes| && e.to < |g.nodes|
    ensures Valid(Disconnect(g, e))
    ensures forall v :: 0 <= v < |g.nodes| ==> e !in Disconnect(g, e).nodes[v].edges
  {
    var g' := Disconnect(g, e);
    forall v | 0 <= v < |g.nodes|
      ensures e !in g'.nodes[v].edges
    {
      DisconnectAt(g, e, v);
    }
    forall v, f | 0 <= v < |g'.nodes| && f in g'.nodes[v].edges
      ensures Registered(g', f)
    {
      DisconnectKeeps(g, e, v, f);
    }
  }

  /** At one node: e is gone and every other edge keeps its count. */
  lemma DisconnectAt(g: Graph, e: Edge, v: nat)
    requires Valid(g) && e.from < |g.nodes| && e.to < |g.nodes| && v < |g.nodes|
    ensures e !in Disconnect(g, e).nodes[v].edges
    ensures forall f :: f != e ==> multiset(Disconnect(g, e).nodes[v].edges)[f] == multiset(g.nodes[v].edges)[f]
  {
    var es := g.nodes[v].edges;
    if e in es {
      assert Registered(g, e);
    }
    UnlinkedCounts(es, e, v);
  }

  /** An edge still listed after disconnecting e was registered before and
      still is. */
  lemma DisconnectKeeps(g: Graph, e: Edge, u: nat, f: Edge)
    requires Valid(g) && e.from < |g.nodes| && e.to < |g.nodes|
    requires u < |g.nodes| && f in Disconnect(g, e).nodes[u].edges
    ensures Registered(Disconnect(g, e), f)
  {
    var g' := Disconnect(g, e);
    DisconnectAt(g, e, u);
    assert f != e;
    assert multiset(g.nodes[u].edges)[f] == multiset(g'.nodes[u].edges)[f] > 0;
    assert Registered(g, f);
    forall v | 0 <= v < |g.nodes|
      ensures multiset(g'.nodes[v].edges)[f] == Multiplicity(f, v)
    {
      DisconnectAt(g, e, v);
    }
  }

  /** Connect followed by Disconnect of the returned edge restores every
      incident list. */
  lemma ConnectDisconnectRoundTrip(g: Graph, a: int, b: int, g': Graph, e: Edge)
    requires Valid(g) && Connect(g, a, b) == Success((g', e))
    ensures Disconnect(g', e).nodes == g.nodes
    ensures Disconnect(g', e).nextId == g.nextId + 1
  {
    assert Linked(g, a, b, g', e);
    var r := Disconnect(g', e);
    forall v | 0 <= v < |g.nodes|
      ensures r.nodes[v] == g.nodes[v]
    {
      RoundTripAt(g, a, b, g', e, v);
    }
    assert r.nodes == g.nodes;
  }

  /** The round trip at one node: the list gets back to what it was. */
  lemma RoundTripAt(g: Graph, a: nat, b: nat, g': Graph, e: Edge, v: nat)
    requires Valid(g) && a < |g.nodes| && b < |g.nodes| && Linked(g, a, b, g', e) && v < |g.nodes|
    ensures Disconnect(g', e).nodes[v] == g.nodes[v]
  {
    FreshNotListed(g, e, v);
    UnlinkAppended(g.nodes[v].edges, e, v);
  }

  /** An edge whose id the graph has not handed out yet is in no list. */
  lemma FreshNotListed(g: Graph, e: Edge, v: nat)
    requires Valid(g) && e.id >= g.nextId && v < |g.nodes|
    ensures e !in g.nodes[v].edges
  {
    if e in g.nodes[v].edges {
      ListedEdgeIncident(g, v, e);
    }
  }

  /** Per node: unlinking a fresh edge that was just appended restores the list. */
  lemma UnlinkAppended(es: seq<Edge>, e: Edge, v: nat)
    requires e !in es
    ensures Unlinked(es + (if v == e.from then [e] else []) + (if v == e.to then [e] else []), e, v) == es
  {
    RemoveAppended(es, e);
    if v == e.from && v == e.to {
      RemoveAppended(es + [e], e);
    }
  }

  /** Removing the first occurrence of an element appended to a list that
      did not hold it gives back the list. */
  lemma RemoveAppended(es: seq<Edge>, e: Edge)
    ensures e !in es ==> RemoveFirst(es + [e], e) == es
    ensures e in es ==> RemoveFirst(es + [e], e) == RemoveFirst(es, e) + [e]
  {
    if e !in es {
      RemoveAppendedAbsent(es, e);
    } else {
      RemoveAppendedPresent(es, e);
    }
  }

  /** The appended copy is the first one, so removing it restores the list. */
  lemma RemoveAppendedAbsent(es: seq<Edge>, e: Edge)
    requires e !in es
    ensures RemoveFirst(es + [e], e) == es
  {
    var s := es + [e];
    assert s[..|es|] == es;
    IndexOfUnique(s, e, |es|);
    assert Skip(s, |es|) == es;
  }

  /** An earlier copy is the first one, so the appended copy stays at the end. */
  lemma RemoveAppendedPresent(es: seq<Edge>, e: Edge)
    requires e in es
    ensures RemoveFirst(es + [e], e) == RemoveFirst(es, e) + [e]
  {
    var s := es + [e];
    var j := IndexOf(es, e);
    assert s[..j] == es[..j];
    IndexOfUnique(s, e, j);
    assert s[j+1..] == es[j+1..] + [e];
    assert Skip(s, j) == Skip(es, j) + [e];
  }

  /** Graph.Edges: every node's incident edges, concatenated in node order
      (SelectMany), then de-duplicated (Distinct). */
  function Concat(ns: seq<Node>): (r: seq<Edge>)
    ensures forall e :: e in r <==> exists v :: 0 <= v < |ns| && e in ns[v].edges
  {
    if |ns| == 0 then [] else Concat(ns[..|ns|-1]) + ns[|ns|-1].edges
  }

  function Edges(g: Graph): (r: seq<Edge>)
    ensures NoDuplicates(r)
    ensures forall e :: e in r <==> exists v :: 0 <= v < g.Length() && e in g.nodes[v].edges
  {
    Distinct(Concat(g.nodes))
  }

  // ---------------------------------------------------------------- MakeGraph

  /** Enumerable.Max over a non-empty sequence. */
  function Max(xs: seq<int>): (m: int)
    requires |xs| > 0
    ensures m in xs
    ensures forall i :: 0 <= i < |xs| ==> xs[i] <= m
  {
    if |xs| == 1 then xs[0]
    else
      var m := Max(xs[..|xs|-1]);
      if xs[|xs|-1] > m then xs[|xs|-1] else m
  }

  /** The list node v holds after the edges es were connected in order to a
      graph without edges: each edge once per endpoint that is v. */
  function IncidentList(es: seq<Edge>, v: nat): seq<Edge> {
    if |es| == 0 then []
    else
      var e := es[|es|-1];
      IncidentList(es[..|es|-1], v) + (if v == e.from then [e] else []) + (if v == e.to then [e] else [])
  }

  /** The first k edges MakeGraph creates: edge j joins xs[2j] to xs[2j+1]. */
  function PairEdges(xs: seq<int>, k: nat): (r: seq<Edge>)
    requires 2 * k <= |xs|
    requires forall j :: 0 <= j < 2 * k ==> xs[j] >= 0
  {
    seq(k, j requires 0 <= j < k => Edge(j, xs[2 * j] as nat, xs[2 * j + 1] as nat))
  }

  /** When MakeGraph succeeds: some element is given, the node count
      Max(xs) + 1 is not negative, and every element that is part of a pair
      names a node (a trailing odd element is never used). */
  predicate MakesGraph(xs: seq<int>) {
    && |xs| > 0
    && Max(xs) >= -1
    && forall j :: 0 <= j < 2 * (|xs| / 2) ==> xs[j] >= 0
  }

  /** Connecting the next pair extends every node's list as IncidentList says. */
  lemma PairStep(xs: seq<int>, i: nat, k: nat, g: Graph, g': Graph, e: Edge)
    requires i == 2 * k && i + 1 < |xs|
    requires forall j :: 0 <= j < i + 2 ==> xs[j] >= 0
    requires g.nextId == k && Linked(g, xs[i] as nat, xs[i + 1] as nat, g', e)
    requires forall v :: 0 <= v < |g.nodes| ==> g.nodes[v].edges == IncidentList(PairEdges(xs, k), v)
    ensures forall v :: 0 <= v < |g'.nodes| ==> g'.nodes[v].edges == IncidentList(PairEdges(xs, k + 1), v)
  {
    var es := PairEdges(xs, k + 1);
    assert es[k] == e;
    assert es[..k] == PairEdges(xs, k);
  }

  /** Graph.MakeGraph(params int[]): a graph of Max(xs) + 1 nodes with one
      edge per pair (xs[0], xs[1]), (xs[2], xs[3]), ... */
  method MakeGraph(xs: seq<int>) returns (r: Result<Graph, GraphError>)
    ensures r.Success? <==> MakesGraph(xs)
    ensures |xs| == 0 ==> r == Failure(EmptySequence)
    ensures |xs| > 0 && Max(xs) < -1 ==> r == Failure(NegativeCount)
    ensures |xs| > 0 && Max(xs) >= -1 && r.Failure? ==> r.error == IndexOutOfRange
    ensures r.Success? ==> MakesGraph(xs) && Valid(r.value) && r.value.Length() == Max(xs) + 1 && r.value.nextId == |xs| / 2
    ensures r.Success? ==> forall v :: 0 <= v < r.value.Length() ==>
      r.value.nodes[v].edges == IncidentList(PairEdges(xs, |xs| / 2), v)
  {
    if |xs| == 0 {
      return Failure(EmptySequence);
    }
    var created := NewGraph(Max(xs) + 1);
    if created.Failure? {
      return Failure(created.error);
    }
    r := ConnectPairs(xs, created.value);
  }

  /** g is a valid graph whose lists are those of the first k pair edges. */
  ghost predicate BuiltFrom(g: Graph, xs: seq<int>, k: nat)
    requires 2 * k <= |xs| && forall j :: 0 <= j < 2 * k ==> xs[j] >= 0
  {
    && Valid(g)
    && g.nextId == k
    && forall v :: 0 <= v < |g.nodes| ==> g.nodes[v].edges == IncidentList(PairEdges(xs, k), v)
  }

  /** One round of the MakeGraph loop, at i = 2k: connecting the next pair
      keeps the graph valid and built from the pairs so far. */
  lemma ConnectPairStep(xs: seq<int>, k: nat, g: Graph, g': Graph, e: Edge)
    requires 2 * k + 1 < |xs| && forall j :: 0 <= j < 2 * k + 2 ==> xs[j] >= 0
    requires BuiltFrom(g, xs, k)
    requires xs[2 * k] < |g.nodes| && xs[2 * k + 1] < |g.nodes|
    requires Linked(g, xs[2 * k] as nat, xs[2 * k + 1] as nat, g', e)
    ensures BuiltFrom(g', xs, k + 1) && |g'.nodes| == |g.nodes|
  {
    assert Valid(g') by {
      LinkedValid(g, xs[2 * k] as nat, xs[2 * k + 1] as nat, g', e);
    }
    PairStep(xs, 2 * k, k, g, g', e);
  }

  /** The loop of MakeGraph: connects xs[i] to xs[i + 1] for i = 0, 2, 4, ...
      while i < |xs| - 1, starting from a graph without edges. */
  method ConnectPairs(xs: seq<int>, g0: Graph) returns (r: Result<Graph, GraphError>)
    requires |xs| > 0 && Valid(g0) && g0.nextId == 0 && g0.Length() == Max(xs) + 1
    requires forall v :: 0 <= v < g0.Length() ==> g0.nodes[v].edges == []
    ensures r.Success? <==> MakesGraph(xs)
    ensures r.Failure? ==> r.error == IndexOutOfRange
    ensures r.Success? ==> MakesGraph(xs) && Valid(r.value) && r.value.Length() == g0.Length() && r.value.nextId == |xs| / 2
    ensures r.Success? ==> forall v :: 0 <= v < r.value.Length() ==>
      r.value.nodes[v].edges == IncidentList(PairEdges(xs, |xs| / 2), v)
  {
    var g := g0;
    var i := 0;
    ghost var k := 0;
    while i < |xs| - 1
      invariant i == 2 * k && i <= |xs|
      invariant forall j :: 0 <= j < i ==> xs[j] >= 0
      invariant BuiltFrom(g, xs, k) && g.Length() == g0.Length()
    {
      var step := Connect(g, xs[i], xs[i + 1]);
      if step.Failure? {
        PairedNegative(xs, i);
        return Failure(step.error);
      }
      ConnectPairStep(xs, k, g, step.value.0, step.value.1);
      g := step.value.0;
      i, k := i + 2, k + 1;
    }
    PairedDone(xs, k);
    return Success(g);
  }

  /** A negative element at a pair position rules MakeGraph out. */
  lemma PairedNegative(xs: seq<int>, i: nat)
    requires i + 1 < |xs| && i % 2 == 0 && (xs[i] < 0 || xs[i + 1] < 0)
    ensures !MakesGraph(xs)
  {
    assert i + 1 < 2 * (|xs| / 2);
  }

  /** Once the loop has passed every pair, k is the number of pairs. */
  lemma PairedDone(xs: seq<int>, k: nat)
    requires 2 * k <= |xs| && |xs| <= 2 * k + 1
    ensures k == |xs| / 2
  {
  }
}
