/** Program.Dijkstra of DijkstraAlgorithm.cs: a linear-scan Dijkstra search
    over the graph store.

    As the code is written, a node that is opened relaxes only the edges it
    is the From end of, so the search follows edges From -> To: a walk below
    is a directed walk. Weights are natural numbers, hence never negative. */
module Dijkstra {
  import opened Wrappers
  import opened Seqs
  import opened Graphs

  /** DijkstraData: best price found so far and the node it was reached from. */
  datatype Record = Record(price: nat, previous: Option<nat>)

  /** Every edge the graph lists has a weight. This asks more than
      Program.Dijkstra does: it looks up only the edges leaving the nodes it
      opens before reaching end. */
  ghost predicate Weighted(g: Graph, w: map<Edge, nat>) {
    forall v, e :: 0 <= v < |g.nodes| && e in g.nodes[v].edges ==> e in w
  }

  /** The weight of e; under Weighted every edge a walk uses has one. */
  function Weight(w: map<Edge, nat>, e: Edge): nat {
    if e in w then w[e] else 0
  }

  // ---------------------------------------------------------------- walks

  /** P is a directed walk from s to t: each edge is listed at its From node,
      starts where the previous one ended, and the last one ends at t. */
  ghost predicate IsWalk(g: Graph, s: nat, t: nat, P: seq<Edge>)
    decreases |P|
  {
    if |P| == 0 then s == t
    else
      var e := P[|P|-1];
      && e.to == t
      && e.from < |g.nodes|
      && e in g.nodes[e.from].edges
      && IsWalk(g, s, e.from, P[..|P|-1])
  }

  /** The total weight of a walk. */
  ghost function Cost(w: map<Edge, nat>, P: seq<Edge>): nat
    decreases |P|
  {
    if |P| == 0 then 0 else Cost(w, P[..|P|-1]) + Weight(w, P[|P|-1])
  }

  /** The nodes a walk from s visits, s first. */
  ghost function WalkNodes(s: nat, P: seq<Edge>): (r: seq<nat>)
    ensures |r| == |P| + 1
    decreases |P|
  {
    if |P| == 0 then [s] else WalkNodes(s, P[..|P|-1]) + [P[|P|-1].to]
  }

  /** The node sequence ns runs along the edges P: edge i leaves ns[i] as
      its From end, is listed there, and arrives at ns[i + 1]. */
  ghost predicate PathAlong(g: Graph, ns: seq<nat>, P: seq<Edge>) {
    && |ns| == |P| + 1
    && forall i :: 0 <= i < |P| ==>
         && P[i].from == ns[i] && P[i].to == ns[i + 1]
         && P[i].from < |g.nodes| && P[i] in g.nodes[P[i].from].edges
  }

  /** Extending a walk to u by an edge leaving u gives a walk to its To end. */
  lemma WalkExtend(g: Graph, w: map<Edge, nat>, s: nat, u: nat, P: seq<Edge>, e: Edge)
    requires IsWalk(g, s, u, P) && e.from == u && u < |g.nodes| && e in g.nodes[u].edges
    ensures IsWalk(g, s, e.to, P + [e])
    ensures Cost(w, P + [e]) == Cost(w, P) + Weight(w, e)
    ensures WalkNodes(s, P + [e]) == WalkNodes(s, P) + [e.to]
  {
    assert (P + [e])[..|P|] == P;
  }

  /** The nodes of a walk from s to t start at s, end at t, and are joined
      in order by the walk's edges. */
  lemma {:induction false} WalkShape(g: Graph, s: nat, t: nat, P: seq<Edge>)
    requires IsWalk(g, s, t, P)
    ensures PathAlong(g, WalkNodes(s, P), P)
    ensures WalkNodes(s, P)[0] == s && WalkNodes(s, P)[|P|] == t
    decreases |P|
  {
    if |P| > 0 {
      var e := P[|P|-1];
      var P' := P[..|P|-1];
      WalkShape(g, s, e.from, P');
      var ns := WalkNodes(s, P);
      assert ns == WalkNodes(s, P') + [e.to];
      forall i | 0 <= i < |P|
        ensures P[i].from == ns[i] && P[i].to == ns[i + 1]
      {
        if i < |P'| {
          assert P[i] == P'[i];
        }
      }
    }
  }

  // ---------------------------------------------------------------- search state

  /** v has a record and has been removed from notVisited. */
  ghost predicate Settled(track: map<nat, Record>, notVisited: seq<nat>, v: nat) {
    v in track && v !in notVisited
  }

  /** notVisited lists nodes of the graph in ascending order, as
      graph.Nodes.ToList() followed by List.Remove calls leaves it. */
  ghost predicate FrontierList(g: Graph, notVisited: seq<nat>) {
    Increasing(notVisited) && forall i :: 0 <= i < |notVisited| ==> notVisited[i] < |g.nodes|
  }

  /** Every record prices a real walk: wit[v] is a walk from start to v
      whose cost is v's recorded price; start keeps price 0 and no predecessor. */
  ghost predicate Sound(g: Graph, w: map<Edge, nat>, start: nat, track: map<nat, Record>, wit: map<nat, seq<Edge>>) {
    && start in track && track[start] == Record(0, None)
    && start in wit && wit[start] == []
    && forall v :: v in track ==>
         v < |g.nodes| && v in wit && IsWalk(g, start, v, wit[v]) && Cost(w, wit[v]) == track[v].price
  }

  /** The predecessor chain: only start lacks a predecessor; every other
      record's predecessor is settled and its walk is the predecessor's walk
      plus one edge. */
  ghost predicate Chained(start: nat, track: map<nat, Record>, wit: map<nat, seq<Edge>>, notVisited: seq<nat>) {
    forall v :: v in track ==>
      && v in wit
      && (track[v].previous.None? ==> v == start)
      && (track[v].previous.Some? ==>
            var p := track[v].previous.value;
            Settled(track, notVisited, p) && p in wit && |wit[v]| > 0 && wit[v][..|wit[v]|-1] == wit[p])
  }

  /** A settled node's price is no more than the cost of any walk to it. */
  ghost predicate Optimal(g: Graph, w: map<Edge, nat>, start: nat, track: map<nat, Record>, notVisited: seq<nat>) {
    forall v, P :: Settled(track, notVisited, v) && IsWalk(g, start, v, P) ==> track[v].price <= Cost(w, P)
  }

  /** Every edge leaving a settled node has been relaxed. */
  ghost predicate Relaxed(g: Graph, w: map<Edge, nat>, track: map<nat, Record>, notVisited: seq<nat>) {
    forall x, e :: 0 <= x < |g.nodes| && Settled(track, notVisited, x) && e in g.nodes[x].edges && e.from == x ==>
      e.to in track && track[e.to].price <= track[x].price + Weight(w, e)
  }

  /** Every node removed from notVisited has a record. */
  ghost predicate Covered(g: Graph, track: map<nat, Record>, notVisited: seq<nat>) {
    forall v :: 0 <= v < |g.nodes| && v !in notVisited ==> v in track
  }

  /** All of the above: the state between two rounds of the search. */
  ghost predicate SearchState(g: Graph, w: map<Edge, nat>, start: nat, notVisited: seq<nat>,
                              track: map<nat, Record>, wit: map<nat, seq<Edge>>) {
    && FrontierList(g, notVisited)
    && Sound(g, w, start, track, wit)
    && Chained(start, track, wit, notVisited)
    && Optimal(g, w, start, track, notVisited)
    && Relaxed(g, w, track, notVisited)
    && Covered(g, track, notVisited)
  }

  /** Any walk from start to a node still in notVisited passes a node that is
      still in notVisited, has a record, and is priced no higher than the
      walk costs. */
  lemma {:induction false} Frontier(g: Graph, w: map<Edge, nat>, start: nat, track: map<nat, Record>,
                                    notVisited: seq<nat>, t: nat, P: seq<Edge>) returns (y: nat)
    requires start in track && track[start].price == 0
    requires Optimal(g, w, start, track, notVisited) && Relaxed(g, w, track, notVisited)
    requires Covered(g, track, notVisited)
    requires IsWalk(g, start, t, P) && t in notVisited
    ensures y in notVisited && y in track && track[y].price <= Cost(w, P)
    ensures y in WalkNodes(start, P)
    decreases |P|
  {
    if |P| == 0 {
      y := start;
    } else {
      var e := P[|P|-1];
      var P' := P[..|P|-1];
      var x := e.from;
      if x in notVisited {
        y := Frontier(g, w, start, track, notVisited, x, P');
      } else {
        assert Settled(track, notVisited, x);
        assert track[x].price <= Cost(w, P');
        y := t;
      }
    }
  }

  /** A node with the least price among those still in notVisited is priced
      no higher than any walk to it. */
  lemma LeastIsFinal(g: Graph, w: map<Edge, nat>, start: nat, notVisited: seq<nat>,
                     track: map<nat, Record>, wit: map<nat, seq<Edge>>, u: nat)
    requires SearchState(g, w, start, notVisited, track, wit)
    requires u in notVisited && u in track
    requires forall v :: v in notVisited && v in track ==> track[u].price <= track[v].price
    ensures forall P :: IsWalk(g, start, u, P) ==> track[u].price <= Cost(w, P)
  {
    forall P | IsWalk(g, start, u, P)
      ensures track[u].price <= Cost(w, P)
    {
      var y := Frontier(g, w, start, track, notVisited, u, P);
    }
  }

  /** Once no node in notVisited has a record, nothing in notVisited can be
      reached. */
  lemma ExhaustedUnreachable(g: Graph, w: map<Edge, nat>, start: nat, notVisited: seq<nat>,
                             track: map<nat, Record>, wit: map<nat, seq<Edge>>, t: nat)
    requires SearchState(g, w, start, notVisited, track, wit)
    requires forall i :: 0 <= i < |notVisited| ==> notVisited[i] !in track
    requires t in notVisited
    ensures forall P :: !IsWalk(g, start, t, P)
  {
    forall P
      ensures !IsWalk(g, start, t, P)
    {
      if IsWalk(g, start, t, P) {
        var y := Frontier(g, w, start, track, notVisited, t, P);
        assert false;
      }
    }
  }

  // ---------------------------------------------------------------- the search

  /** The scan that picks the node to open: among the nodes of notVisited
      that have a record, the first one (in list order) with the least price.
      bestPrice starts at +infinity in the source, which every recorded price
      is below, so "no candidate yet" plays that part here. */
  method Select(notVisited: seq<nat>, track: map<nat, Record>) returns (toOpen: Option<nat>)
    ensures toOpen.None? <==> forall i :: 0 <= i < |notVisited| ==> notVisited[i] !in track
    ensures toOpen.Some? ==> toOpen.value in notVisited && toOpen.value in track
    ensures toOpen.Some? ==> forall v :: v in notVisited && v in track ==> track[toOpen.value].price <= track[v].price
    ensures toOpen.Some? ==> exists k :: (0 <= k < |notVisited| && notVisited[k] == toOpen.value &&
      forall i :: 0 <= i < k && notVisited[i] in track ==> track[toOpen.value].price < track[notVisited[i]].price)
  {
    toOpen := None;
    ghost var at := 0;
    for i := 0 to |notVisited|
      invariant toOpen.None? <==> forall j :: 0 <= j < i ==> notVisited[j] !in track
      invariant toOpen.Some? ==> at < i && notVisited[at] == toOpen.value && toOpen.value in track
      invariant toOpen.Some? ==> forall j :: 0 <= j < i && notVisited[j] in track ==> track[toOpen.value].price <= track[notVisited[j]].price
      invariant toOpen.Some? ==> forall j :: 0 <= j < at && notVisited[j] in track ==> track[toOpen.value].price < track[notVisited[j]].price
    {
      var e := notVisited[i];
      if e in track && (toOpen.None? || track[e].price < track[toOpen.value].price) {
        toOpen := Some(e);
        at := i;
      }
    }
  }

  /** The state part-way through opening u, after the first j edges of u's
      list: t and wt are the records and walks so far, rest is notVisited
      without u. */
  ghost predicate Opening(g: Graph, w: map<Edge, nat>, start: nat, notVisited: seq<nat>, rest: seq<nat>,
                          track: map<nat, Record>, u: nat, t: map<nat, Record>, wt: map<nat, seq<Edge>>, j: nat) {
    && Valid(g) && Weighted(g, w)
    && u < |g.nodes| && j <= |g.nodes[u].edges|
    && u in notVisited && u in track
    && (forall y :: y in rest <==> y in notVisited && y != u)
    && Covered(g, track, notVisited)
    && Sound(g, w, start, t, wt)
    && Chained(start, t, wt, rest)
    && Optimal(g, w, start, t, rest)
    && Relaxed(g, w, t, notVisited)
    && Progress(w, track, t, u, g.nodes[u].edges, j)
  }

  /** The bookkeeping of one round: t extends track, only lowers prices,
      changes records only to point at u, and has relaxed the first j
      edges of u's list. */
  ghost predicate Progress(w: map<Edge, nat>, track: map<nat, Record>, t: map<nat, Record>, u: nat, es: seq<Edge>, j: nat) {
    && u in track
    && track.Keys <= t.Keys && t[u] == track[u]
    && (forall v :: v in track ==> t[v].price <= track[v].price)
    && (forall v :: v in t ==> (v in track && t[v] == track[v]) || t[v].previous == Some(u))
    && (forall k :: 0 <= k < j <= |es| && es[k].from == u ==>
          es[k].to in t && t[es[k].to].price <= track[u].price + Weight(w, es[k]))
  }

  /** Opening, assembled from its parts. Callers prove each conjunct with its
      own helper lemma; folding them through this lemma keeps the unfolded
      Opening out of their contexts, which would otherwise be too large for
      the solver. */
  lemma OpeningIntro(g: Graph, w: map<Edge, nat>, start: nat, notVisited: seq<nat>, rest: seq<nat>,
                     track: map<nat, Record>, u: nat, t: map<nat, Record>, wt: map<nat, seq<Edge>>, j: nat)
    requires Valid(g) && Weighted(g, w)
    requires u < |g.nodes| && j <= |g.nodes[u].edges|
    requires u in notVisited && u in track
    requires forall y :: y in rest <==> y in notVisited && y != u
    requires Covered(g, track, notVisited)
    requires Sound(g, w, start, t, wt)
    requires Chained(start, t, wt, rest)
    requires Optimal(g, w, start, t, rest)
    requires Relaxed(g, w, t, notVisited)
    requires Progress(w, track, t, u, g.nodes[u].edges, j)
    ensures Opening(g, w, start, notVisited, rest, track, u, t, wt, j)
  {
  }

  /** Before the first edge: the opened node already counts as settled. */
  lemma OpeningStart(g: Graph, w: map<Edge, nat>, start: nat, notVisited: seq<nat>,
                     track: map<nat, Record>, wit: map<nat, seq<Edge>>, u: nat)
    requires Valid(g) && Weighted(g, w)
    requires SearchState(g, w, start, notVisited, track, wit)
    requires u in notVisited && u in track
    requires forall P :: IsWalk(g, start, u, P) ==> track[u].price <= Cost(w, P)
    ensures Opening(g, w, start, notVisited, RemoveFirst(notVisited, u), track, u, track, wit, 0)
  {
    RemoveFirstIncreasing(notVisited, u);
  }

  /** After the last edge: the search state holds with u removed. */
  lemma OpeningDone(g: Graph, w: map<Edge, nat>, start: nat, notVisited: seq<nat>, rest: seq<nat>,
                    track: map<nat, Record>, u: nat, t: map<nat, Record>, wt: map<nat, seq<Edge>>)
    requires FrontierList(g, rest) && u < |g.nodes|
    requires Opening(g, w, start, notVisited, rest, track, u, t, wt, |g.nodes[u].edges|)
    ensures SearchState(g, w, start, rest, t, wt)
  {
    assert Covered(g, t, rest) by {
      DoneCovered(g, notVisited, rest, track, u, t);
    }
    assert Relaxed(g, w, t, rest) by {
      DoneRelaxed(g, w, notVisited, rest, track, u, t);
    }
  }

  /** Once every edge of u's list has been offered, each edge leaving u
      ends at a node priced no higher than u's price plus the edge's weight. */
  lemma ProgressDone(g: Graph, w: map<Edge, nat>, track: map<nat, Record>, u: nat, t: map<nat, Record>)
    requires u < |g.nodes| && Weighted(g, w)
    requires Progress(w, track, t, u, g.nodes[u].edges, |g.nodes[u].edges|)
    ensures forall e :: e in g.nodes[u].edges && e.from == u ==> e.to in t && t[e.to].price <= track[u].price + w[e]
  {
    var es := g.nodes[u].edges;
    forall e | e in es && e.from == u
      ensures e.to in t && t[e.to].price <= track[u].price + w[e]
    {
      var k :| 0 <= k < |es| && es[k] == e;
    }
  }

  /** Every node outside rest has a record: u has one, and so has every
      node that was already outside notVisited. */
  lemma DoneCovered(g: Graph, notVisited: seq<nat>, rest: seq<nat>,
                    track: map<nat, Record>, u: nat, t: map<nat, Record>)
    requires (forall y :: y in rest <==> y in notVisited && y != u)
    requires Covered(g, track, notVisited) && u in t && track.Keys <= t.Keys
    ensures Covered(g, t, rest)
  {
    forall v | 0 <= v < |g.nodes| && v !in rest
      ensures v in t
    {
      if v != u {
        assert v in track;
      }
    }
  }

  /** The edges of u are all relaxed, so with u settled nothing is missing. */
  lemma DoneRelaxed(g: Graph, w: map<Edge, nat>, notVisited: seq<nat>, rest: seq<nat>,
                    track: map<nat, Record>, u: nat, t: map<nat, Record>)
    requires u < |g.nodes| && (forall y :: y in rest <==> y in notVisited && y != u)
    requires Relaxed(g, w, t, notVisited)
    requires Progress(w, track, t, u, g.nodes[u].edges, |g.nodes[u].edges|)
    ensures Relaxed(g, w, t, rest)
  {
    var es := g.nodes[u].edges;
    forall x, e | 0 <= x < |g.nodes| && Settled(t, rest, x) && e in g.nodes[x].edges && e.from == x
      ensures e.to in t && t[e.to].price <= t[x].price + Weight(w, e)
    {
      if x == u {
        var k :| 0 <= k < |es| && es[k] == e;
      } else {
        assert Settled(t, notVisited, x);
      }
    }
  }

  /** An edge that does not leave u, or whose offer is not taken, changes nothing. */
  lemma OpeningSkip(g: Graph, w: map<Edge, nat>, start: nat, notVisited: seq<nat>, rest: seq<nat>,
                    track: map<nat, Record>, u: nat, t: map<nat, Record>, wt: map<nat, seq<Edge>>, j: nat)
    requires Opening(g, w, start, notVisited, rest, track, u, t, wt, j) && j < |g.nodes[u].edges|
    requires var e := g.nodes[u].edges[j];
      e.from == u ==> e.to in t && t[e.to].price <= t[u].price + w[e]
    ensures Opening(g, w, start, notVisited, rest, track, u, t, wt, j + 1)
  {
  }

  /** An edge whose offer is taken: the other end gets price t[u] + w[e]
      and predecessor u, and the invariants survive. */
  lemma OpeningTake(g: Graph, w: map<Edge, nat>, start: nat, notVisited: seq<nat>, rest: seq<nat>,
                    track: map<nat, Record>, u: nat, t: map<nat, Record>, wt: map<nat, seq<Edge>>, j: nat,
                    e: Edge, c: nat, t2: map<nat, Record>, wt2: map<nat, seq<Edge>>)
    requires Opening(g, w, start, notVisited, rest, track, u, t, wt, j) && j < |g.nodes[u].edges|
    requires e == g.nodes[u].edges[j] && e.from == u && e in w && c == t[u].price + w[e]
    requires e.to !in t || t[e.to].price > c
    requires t2 == t[e.to := Record(c, Some(u))] && wt2 == wt[e.to := wt[u] + [e]]
    ensures Opening(g, w, start, notVisited, rest, track, u, t2, wt2, j + 1)
  {
    var nx := e.to;
    var r := Record(c, Some(u));
    assert nx in rest by {
      assert e in g.nodes[u].edges;
      ListedEdgeIncident(g, u, e);
      TakenIsUnsettled(g, w, start, notVisited, rest, track, u, t, wt, e, c);
    }
    assert Sound(g, w, start, t2, wt2) by {
      assert e in g.nodes[u].edges;
      ListedEdgeIncident(g, u, e);
      TakeSound(g, w, start, t, wt, u, e, r);
    }
    assert Chained(start, t2, wt2, rest) by {
      TakeChained(start, t, wt, rest, u, e, c);
    }
    assert Optimal(g, w, start, t2, rest) by {
      TakeOptimal(g, w, start, t, rest, nx, r);
    }
    assert Relaxed(g, w, t2, notVisited) by {
      TakeRelaxed(g, w, t, notVisited, nx, r);
    }
    TakeProgress(w, track, t, u, g.nodes[u].edges, j, r);
    OpeningIntro(g, w, start, notVisited, rest, track, u, t2, wt2, j + 1);
  }

  /** Taking the offer of edge j extends the relaxed prefix of u's list to
      j + 1 edges; the record taken names u as predecessor. */
  lemma TakeProgress(w: map<Edge, nat>, track: map<nat, Record>, t: map<nat, Record>, u: nat, es: seq<Edge>, j: nat, r: Record)
    requires j < |es| && es[j].from == u && es[j].to != u && u in track
    requires r.previous == Some(u) && r.price == track[u].price + Weight(w, es[j])
    requires es[j].to in t ==> r.price < t[es[j].to].price
    requires Progress(w, track, t, u, es, j)
    ensures Progress(w, track, t[es[j].to := r], u, es, j + 1)
  {
  }

  /** A node whose offer is taken is still waiting in rest: a settled node
      is already priced below any walk, and a node outside notVisited is
      settled. */
  lemma TakenIsUnsettled(g: Graph, w: map<Edge, nat>, start: nat, notVisited: seq<nat>, rest: seq<nat>,
                         track: map<nat, Record>, u: nat, t: map<nat, Record>, wt: map<nat, seq<Edge>>,
                         e: Edge, c: nat)
    requires Sound(g, w, start, t, wt) && Optimal(g, w, start, t, rest)
    requires Covered(g, track, notVisited) && track.Keys <= t.Keys
    requires forall y :: y in rest <==> y in notVisited && y != u
    requires u in t && u < |g.nodes| && e.from == u && e in g.nodes[u].edges && e.to < |g.nodes|
    requires c == t[u].price + Weight(w, e) && (e.to !in t || t[e.to].price > c)
    ensures e.to in rest
  {
    var nx := e.to;
    WalkExtend(g, w, start, u, wt[u], e);
    OptimalAt(g, w, start, t, rest, nx, wt[u] + [e]);
  }

  /** Optimal, read at one node and one walk. */
  lemma OptimalAt(g: Graph, w: map<Edge, nat>, start: nat, track: map<nat, Record>, notVisited: seq<nat>,
                  v: nat, P: seq<Edge>)
    requires Optimal(g, w, start, track, notVisited) && IsWalk(g, start, v, P)
    ensures Settled(track, notVisited, v) ==> track[v].price <= Cost(w, P)
  {
  }

  /** Taking an offer keeps every record priced by a real walk. */
  lemma TakeSound(g: Graph, w: map<Edge, nat>, start: nat, t: map<nat, Record>, wt: map<nat, seq<Edge>>, u: nat, e: Edge, r: Record)
    requires Sound(g, w, start, t, wt) && u in t && e.from == u && u < |g.nodes| && e in g.nodes[u].edges
    requires e.to < |g.nodes| && e.to != start && r.price == t[u].price + Weight(w, e)
    ensures Sound(g, w, start, t[e.to := r], wt[e.to := wt[u] + [e]])
  {
    WalkExtend(g, w, start, u, wt[u], e);
  }

  /** Taking an offer from a settled u keeps the predecessor chains. */
  lemma TakeChained(start: nat, t: map<nat, Record>, wt: map<nat, seq<Edge>>, rest: seq<nat>, u: nat, e: Edge, price: nat)
    requires Chained(start, t, wt, rest) && Settled(t, rest, u) && u in wt && e.to in rest
    ensures Chained(start, t[e.to := Record(price, Some(u))], wt[e.to := wt[u] + [e]], rest)
  {
    var t2 := t[e.to := Record(price, Some(u))];
    var wt2 := wt[e.to := wt[u] + [e]];
    forall v | v in t2
      ensures v in wt2
      ensures t2[v].previous.None? ==> v == start
      ensures t2[v].previous.Some? ==>
        var p := t2[v].previous.value;
        Settled(t2, rest, p) && p in wt2 && |wt2[v]| > 0 && wt2[v][..|wt2[v]|-1] == wt2[p]
    {
      if v == e.to {
        assert wt2[v][..|wt2[v]|-1] == wt[u];
      }
    }
  }

  /** A record of a node still in rest may change without touching the
      settled nodes' optimality. */
  lemma TakeOptimal(g: Graph, w: map<Edge, nat>, start: nat, t: map<nat, Record>, rest: seq<nat>, nx: nat, r: Record)
    requires Optimal(g, w, start, t, rest) && nx in rest
    ensures Optimal(g, w, start, t[nx := r], rest)
  {
    forall v, P | Settled(t[nx := r], rest, v) && IsWalk(g, start, v, P)
      ensures t[nx := r][v].price <= Cost(w, P)
    {
      assert Settled(t, rest, v);
    }
  }

  /** Lowering the price of a node still in notVisited keeps the settled
      nodes' edges relaxed. */
  lemma TakeRelaxed(g: Graph, w: map<Edge, nat>, t: map<nat, Record>, notVisited: seq<nat>, nx: nat, r: Record)
    requires Relaxed(g, w, t, notVisited) && nx in notVisited
    requires nx in t ==> r.price <= t[nx].price
    ensures Relaxed(g, w, t[nx := r], notVisited)
  {
    var t2 := t[nx := r];
    forall x, f | 0 <= x < |g.nodes| && Settled(t2, notVisited, x) && f in g.nodes[x].edges && f.from == x
      ensures f.to in t2 && t2[f.to].price <= t2[x].price + Weight(w, f)
    {
      assert Settled(t, notVisited, x);
    }
  }

  /** The offer along edge j of u's list is taken: the edge leaves u, and its
      To end has no record yet or a strictly higher price than u's price
      plus the edge's weight. */
  predicate OfferTaken(g: Graph, w: map<Edge, nat>, u: nat, t: map<nat, Record>, j: nat)
    requires u < |g.nodes| && j < |g.nodes[u].edges| && u in t
  {
    var e := g.nodes[u].edges[j];
    e.from == u && (e.to !in t || t[e.to].price > t[u].price + Weight(w, e))
  }

  /** One edge of the opened node's list: if it leaves u, offer its To end
      the price of u plus the edge's weight; the offer is taken when that end
      has no record or a strictly higher price. */
  method Offer(g: Graph, w: map<Edge, nat>, u: nat, t: map<nat, Record>, j: nat) returns (t': map<nat, Record>)
    requires Weighted(g, w) && u < |g.nodes| && j < |g.nodes[u].edges| && u in t
    ensures OfferTaken(g, w, u, t, j) ==>
      t' == t[g.nodes[u].edges[j].to := Record(t[u].price + Weight(w, g.nodes[u].edges[j]), Some(u))]
    ensures !OfferTaken(g, w, u, t, j) ==> t' == t
  {
    var e := g.nodes[u].edges[j];
    t' := t;
    if e.from == u {
      assert e in w;
      var currentPrice := t[u].price + w[e];
      var nextNode := OtherNode(e, u).value;
      if nextNode !in t || t[nextNode].price > currentPrice {
        t' := t[nextNode := Record(currentPrice, Some(u))];
      }
    }
  }

  /** Offer keeps the invariants of the round, with one more edge done. */
  method OfferOpening(g: Graph, w: map<Edge, nat>, ghost start: nat, ghost notVisited: seq<nat>, ghost rest: seq<nat>,
                      ghost track: map<nat, Record>, u: nat, t: map<nat, Record>, ghost wt: map<nat, seq<Edge>>, j: nat)
    returns (t': map<nat, Record>, ghost wt': map<nat, seq<Edge>>)
    requires Opening(g, w, start, notVisited, rest, track, u, t, wt, j) && j < |g.nodes[u].edges|
    ensures Opening(g, w, start, notVisited, rest, track, u, t', wt', j + 1)
  {
    t' := Offer(g, w, u, t, j);
    var e := g.nodes[u].edges[j];
    if OfferTaken(g, w, u, t, j) {
      assert e in g.nodes[u].edges;
      wt' := wt[g.nodes[u].edges[j].to := wt[u] + [g.nodes[u].edges[j]]];
      OpeningTake(g, w, start, notVisited, rest, track, u, t, wt, j, g.nodes[u].edges[j],
                  t[u].price + Weight(w, g.nodes[u].edges[j]), t', wt');
    } else {
      wt' := wt;
      OpeningSkip(g, w, start, notVisited, rest, track, u, t, wt, j);
      OpeningSame(g, w, start, notVisited, rest, track, u, t, t', wt', j + 1);
    }
  }

  /** Opening depends on the records only through their contents. The
      caller's context holds every search invariant at once; there, turning
      the map equality from Offer into Opening of the new records exhausts the
      solver, while in this small context it is immediate. */
  lemma OpeningSame(g: Graph, w: map<Edge, nat>, start: nat, notVisited: seq<nat>, rest: seq<nat>,
                    track: map<nat, Record>, u: nat, t1: map<nat, Record>, t2: map<nat, Record>,
                    wt: map<nat, seq<Edge>>, j: nat)
    requires Opening(g, w, start, notVisited, rest, track, u, t1, wt, j) && t2 == t1
    ensures Opening(g, w, start, notVisited, rest, track, u, t2, wt, j)
  {
  }

  /** Opening u: offer every edge of u's list in order (only those whose
      From end is u are taken up). Afterwards u counts as settled, and every
      edge leaving u has been relaxed. */
  method Relax(g: Graph, w: map<Edge, nat>, start: nat, notVisited: seq<nat>,
               track: map<nat, Record>, ghost wit: map<nat, seq<Edge>>, u: nat)
    returns (track': map<nat, Record>, ghost wit': map<nat, seq<Edge>>)
    requires Valid(g) && Weighted(g, w)
    requires SearchState(g, w, start, notVisited, track, wit)
    requires u in notVisited && u in track
    requires forall P :: IsWalk(g, start, u, P) ==> track[u].price <= Cost(w, P)
    ensures SearchState(g, w, start, RemoveFirst(notVisited, u), track', wit')
    ensures track.Keys <= track'.Keys && track'[u] == track[u]
    ensures forall v :: v in track' ==> (v in track && track'[v] == track[v]) || track'[v].previous == Some(u)
    ensures forall e :: e in g.nodes[u].edges && e.from == u ==>
      e.to in track' && track'[e.to].price <= track[u].price + w[e]
  {
    ghost var rest := RemoveFirst(notVisited, u);
    OpeningStart(g, w, start, notVisited, track, wit, u);
    track' := track;
    wit' := wit;
    for j := 0 to |g.nodes[u].edges|
      invariant Opening(g, w, start, notVisited, rest, track, u, track', wit', j)
    {
      track', wit' := OfferOpening(g, w, start, notVisited, rest, track, u, track', wit', j);
    }
    assert FrontierList(g, rest) by {
      RemoveFirstIncreasing(notVisited, u);
    }
    OpeningDone(g, w, start, notVisited, rest, track, u, track', wit');
    ProgressDone(g, w, track, u, track');
  }

  // ---------------------------------------------------------------- path and search

  /** The first k + 1 nodes of a walk are the nodes of its first k edges. */
  lemma {:induction false} WalkNodesPrefix(s: nat, P: seq<Edge>, k: nat)
    requires k <= |P|
    ensures WalkNodes(s, P[..k]) == WalkNodes(s, P)[..k + 1]
    decreases |P|
  {
    if k < |P| {
      var P' := P[..|P|-1];
      assert P[..k] == P'[..k];
      WalkNodesPrefix(s, P', k);
    } else {
      assert P[..k] == P;
    }
  }

  /** A node whose witness walk is a prefix of P sits in P's node sequence
      at the position of that prefix's length. */
  lemma ChainNode(g: Graph, w: map<Edge, nat>, start: nat, track: map<nat, Record>,
                  wit: map<nat, seq<Edge>>, P: seq<Edge>, c: nat)
    requires Sound(g, w, start, track, wit) && c in track
    requires |wit[c]| <= |P| && wit[c] == P[..|wit[c]|]
    ensures WalkNodes(start, P)[|wit[c]|] == c
  {
    WalkShape(g, start, c, wit[c]);
    WalkNodesPrefix(start, P, |wit[c]|);
  }

  /** One predecessor link shortens the witness walk by its last edge; only
      start, whose walk is empty, has none. */
  lemma ChainLink(g: Graph, w: map<Edge, nat>, start: nat, track: map<nat, Record>,
                  wit: map<nat, seq<Edge>>, notVisited: seq<nat>, P: seq<Edge>, c: nat)
    requires Sound(g, w, start, track, wit) && Chained(start, track, wit, notVisited) && c in track
    requires |wit[c]| <= |P| && wit[c] == P[..|wit[c]|]
    ensures track[c].previous.None? ==> |wit[c]| == 0
    ensures track[c].previous.Some? ==>
      var p := track[c].previous.value;
      && p in track && |wit[c]| > 0 && |wit[p]| == |wit[c]| - 1 && wit[p] == P[..|wit[p]|]
  {
    assert c in wit;
    if track[c].previous.Some? {
      var p := track[c].previous.value;
      PrefixDrop(P, wit[c], wit[p]);
    }
  }

  /** A walk one edge shorter than a prefix of P is itself a prefix of P. */
  lemma PrefixDrop(P: seq<Edge>, q: seq<Edge>, r: seq<Edge>)
    requires |q| <= |P| && q == P[..|q|] && |q| > 0 && r == q[..|q| - 1]
    ensures |r| == |q| - 1 && r == P[..|r|]
  {
  }

  /** Following the predecessor links back from end and reversing yields
      the nodes of end's witness walk, start first. */
  method Reconstruct(ghost g: Graph, ghost w: map<Edge, nat>, ghost start: nat, track: map<nat, Record>,
                     ghost wit: map<nat, seq<Edge>>, ghost notVisited: seq<nat>, end: nat)
    returns (path: seq<nat>)
    requires Sound(g, w, start, track, wit) && Chained(start, track, wit, notVisited)
    requires end in track
    ensures path == WalkNodes(start, wit[end])
  {
    ghost var P := wit[end];
    ghost var ns := WalkNodes(start, P);
    var result: seq<nat> := [];
    var cur: Option<nat> := Some(end);
    while cur.Some?
      invariant |ns| == |P| + 1
      invariant cur.Some? ==> && cur.value in track
                              && |wit[cur.value]| <= |P| && wit[cur.value] == P[..|wit[cur.value]|]
                              && |result| + |wit[cur.value]| + 1 == |ns|
      invariant cur.None? ==> |result| == |ns|
      invariant |result| <= |ns| && Reverse(result) == ns[|ns| - |result|..]
      decreases if cur.Some? then |wit[cur.value]| + 1 else 0
    {
      var c := cur.value;
      ChainNode(g, w, start, track, wit, P, c);
      ChainLink(g, w, start, track, wit, notVisited, P, c);
      PrependLast(ns, result, c);
      result := result + [c];
      cur := track[c].previous;
    }
    path := Reverse(result);
    assert ns[0..] == ns;
  }

  /** Unwinding one more node: the reversed list grows at the front. */
  lemma PrependLast(ns: seq<nat>, result: seq<nat>, c: nat)
    requires |result| < |ns| && ns[|ns| - |result| - 1] == c
    requires Reverse(result) == ns[|ns| - |result|..]
    ensures Reverse(result + [c]) == ns[|ns| - |result| - 1..]
  {
    ReverseSnoc(result, c);
    ConsSlice(ns, |ns| - |result|, c);
    Rewrite(Reverse(result + [c]), Reverse(result), ns[|ns| - |result|..], ns[|ns| - |result| - 1..], c);
  }

  /** The equational step of PrependLast, kept apart from Reverse's definition:
      with Reverse's recursive definition in scope the solver unfolds it while
      proving this sequence equality, and PrependLast runs out of resource. */
  lemma Rewrite(a: seq<nat>, r: seq<nat>, tail: seq<nat>, whole: seq<nat>, c: nat)
    requires a == [c] + r && r == tail && whole == [c] + tail
    ensures a == whole
  {
  }

  /** Reversing after appending c puts c in front. */
  lemma ReverseSnoc(s: seq<nat>, c: nat)
    ensures Reverse(s + [c]) == [c] + Reverse(s)
  {
    assert (s + [c])[..|s|] == s;
  }

  /** A suffix is its first element followed by the rest. */
  lemma ConsSlice(ns: seq<nat>, m: nat, c: nat)
    requires 0 < m <= |ns| && ns[m - 1] == c
    ensures ns[m - 1..] == [c] + ns[m..]
  {
  }

  /** The state before the first round: every node waits, only start is priced. */
  lemma InitialState(g: Graph, w: map<Edge, nat>, start: nat, notVisited: seq<nat>)
    requires start < |g.nodes|
    requires notVisited == seq(|g.nodes|, i requires 0 <= i < |g.nodes| => i)
    ensures SearchState(g, w, start, notVisited, map[start := Record(0, None)], map[start := []])
  {
    forall v | 0 <= v < |g.nodes|
      ensures v in notVisited
    {
      assert notVisited[v] == v;
    }
  }

  /** Program.Dijkstra. A result is the node sequence of a directed walk from
      start to end whose cost no other such walk undercuts; no result means
      end cannot be reached from start. */
  method Search(g: Graph, w: map<Edge, nat>, start: nat, end: nat)
    returns (path: Option<seq<nat>>, ghost walk: seq<Edge>, ghost rounds: nat)
    requires Valid(g) && Weighted(g, w)
    requires start < |g.nodes| && end < |g.nodes|
    ensures rounds <= |g.nodes|
    ensures path.None? ==> forall P :: !IsWalk(g, start, end, P)
    ensures path.Some? ==> IsWalk(g, start, end, walk) && path.value == WalkNodes(start, walk)
    ensures path.Some? ==> forall P :: IsWalk(g, start, end, P) ==> Cost(w, walk) <= Cost(w, P)
    ensures path.Some? ==> && PathAlong(g, path.value, walk)
                           && path.value[0] == start && path.value[|path.value| - 1] == end
    ensures start == end ==> path == Some([start])
  {
    var notVisited: seq<nat> := seq(|g.nodes|, i requires 0 <= i < |g.nodes| => i);
    var track: map<nat, Record> := map[start := Record(0, None)];
    ghost var wit: map<nat, seq<Edge>> := map[start := []];
    InitialState(g, w, start, notVisited);
    assert notVisited[end] == end;
    rounds := 0;
    while true
      invariant SearchState(g, w, start, notVisited, track, wit)
      invariant end in notVisited
      invariant rounds + |notVisited| == |g.nodes|
      decreases |notVisited|
    {
      var toOpen := Select(notVisited, track);
      if toOpen.None? {
        ExhaustedUnreachable(g, w, start, notVisited, track, wit, end);
        return None, [], rounds;
      }
      var u := toOpen.value;
      LeastIsFinal(g, w, start, notVisited, track, wit, u);
      if u == end {
        break;
      }
      track, wit := Relax(g, w, start, notVisited, track, wit, u);
      RemoveFirstIncreasing(notVisited, u);
      notVisited := RemoveFirst(notVisited, u);
      rounds := rounds + 1;
    }
    var nodes := Reconstruct(g, w, start, track, wit, notVisited, end);
    walk := wit[end];
    WalkShape(g, start, end, walk);
    path := Some(nodes);
  }
}
