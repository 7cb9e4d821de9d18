# Dijkstra graph store and linked stack, in Dafny

This project models two small C# components and proves properties of the
models.

**Graph store and shortest-path search** (`DijkstraAlgorithm.cs`):

- An `Edge` joins a From node to a To node. A `Node` keeps its incident edges in
  insertion order. A `Graph` is a fixed array of nodes numbered `0..n-1`.
- Edges are added with `Connect`/`GetConnectedEdge` and removed with
  `Disconnect`/`Delete`.
- `Program.Dijkstra` scans `notVisited` linearly for the cheapest tracked node
  and relaxes that node's edges into a `track` map of price and predecessor.
  It then rebuilds the path by following the predecessor links.

**Linked stack** (`linkedstack.cs`): a stack of items, each linked to the item
below it, with a `Count` kept separately. It supports `Push`, `Pop`, `Peek`,
`Clear` and `Clone`.

Modules:

- `Wrappers` (`wrappers.dfy`): `Option` and `Result`. An exception the C# code
  throws is a `Failure` carrying the error.
- `Seqs` (`seqs.dfy`): the list and LINQ operations the code relies on.
  - `List.Remove` is `RemoveFirst`.
  - `Distinct` and `List.Reverse` are modelled as well.
- `Graphs` (`graph.dfy`): edges, nodes, the graph, and every topology operation.
  - A node is its index.
  - An edge is `Edge(id, from, to)`. The id is a counter the graph hands out once
    per `Connect`; it stands in for object identity, so parallel edges stay
    distinct.
  - The invariant `Valid` says:
    - node `i` is numbered `i`;
    - every listed edge is in exactly its endpoints' lists;
    - a self-loop is listed twice at its node, since `Node.Connect` adds it to
      both lists.
- `Dijkstra` (`dijkstra.dfy`): the search.
  - It is an imperative method with the source's loops.
  - Ghost state carries, for every tracked node, a witness walk whose cost is
    the recorded price.
- `DijkstraSample` (`sample.dfy`): the source's `Main` scenario, proved to give
  `[0, 2, 3]`.
- `LinkedStack` (`linkedstack.dfy`): the stack.
  - The chain of items is an immutable cons list, because the stack's own
    methods never change an item once it is linked.
  - `Count` is a 32-bit integer that wraps around.

**Direction of the search.** `IsIncident` and `OtherNode` treat both ends of
an edge alike, and every edge is listed at both of its endpoints. The search,
however, relaxes only the edges whose From end is the node being opened
(`DijkstraAlgorithm.cs:150`). The model follows that line. A walk is therefore
a directed walk that follows edges From → To, and optimality is proved over
such walks.

## Model

| member | source | states |
|---|---|---|
| `Graphs.IsIncident` | DijkstraAlgorithm.cs:16-19 | Holds exactly when the edge belongs in the node's incident list at least once, i.e. the node is its From or its To end. |
| `Graphs.ListedIffIncident` | DijkstraAlgorithm.cs:16-19 | In a valid graph, a live edge (one listed at each endpoint as often as it touches it) is in node v's list iff it is incident to v. |
| `Graphs.OtherNode` | DijkstraAlgorithm.cs:16-25 | Succeeds exactly when the node is the edge's From or To end (`IsIncident`). Otherwise it fails with the ArgumentException (`NotIncident`). On success, the node and the result together are the edge's two endpoints. |
| `Graphs.OtherNodeInvolutive` | DijkstraAlgorithm.cs:20-25 | Taking the opposite endpoint twice gives back the node started from. |
| `Graphs.NewGraph` | DijkstraAlgorithm.cs:71-74 | A non-negative count gives a valid graph of that `Length` whose nodes all have empty incident lists. A negative count fails as `Enumerable.Range` does. |
| `Graphs.At` | DijkstraAlgorithm.cs:76-78 | The indexer succeeds exactly for `0 <= index < Length` and fails with IndexOutOfRange otherwise. On success it returns the graph's node at `index` itself, incident list included; in a valid graph that node is numbered `index`. |
| `Graphs.ListedEdgeIncident` | DijkstraAlgorithm.cs:55-57 | In a valid graph, an edge in node v's list touches v, has both endpoints in the graph, and has an id already handed out. |
| `Graphs.IncidentNodes` | DijkstraAlgorithm.cs:38-44 | One entry per incident edge, in list order. Each entry is a node of the graph at the edge's other end, and `OtherNode` taken from it leads back to v. |
| `Graphs.Link` | DijkstraAlgorithm.cs:52-59 | `Node.Connect`: a node outside the graph gives ArgumentException. Otherwise one fresh edge From=a, To=b is appended to a's list and to b's list, and every other node is unchanged. |
| `Graphs.LinkedValid` | DijkstraAlgorithm.cs:52-59 | Connecting keeps the graph valid. The new edge sits in exactly its endpoints' lists and differs from every edge listed before, so repeated calls make distinct parallel edges. |
| `Graphs.Connect` | DijkstraAlgorithm.cs:88-96 | `Graph.Connect`/`GetConnectedEdge`: an index outside `0..Length-1` gives IndexOutOfRange. Otherwise the result is the same appending of a fresh edge, and that edge is returned. |
| `Graphs.Disconnect` | DijkstraAlgorithm.cs:60-64 | Every node's list loses the first occurrence of e once for each endpoint of e that the node is. Other lists are unchanged, and the id counter is untouched. |
| `Graphs.UnlinkedCounts` | DijkstraAlgorithm.cs:60-64 | When a list holds e as often as the invariant demands, unlinking leaves no copy of e and keeps the count of every other edge. |
| `Graphs.DisconnectValid` | DijkstraAlgorithm.cs:98-101 | `Delete`/`Disconnect` keeps the graph valid and leaves e in no list at all. |
| `Graphs.ConnectDisconnectRoundTrip` | DijkstraAlgorithm.cs:88-101 | Connect followed by Delete of the returned edge restores every node and every incident list exactly. Only the id counter has moved on. |
| `Graphs.FreshNotListed` | DijkstraAlgorithm.cs:55 | An edge whose id has not been handed out yet is in no list. |
| `Graphs.RemoveAppended` | DijkstraAlgorithm.cs:56-62 | Removing the first occurrence of an edge just appended to a list that lacked it gives the list back. |
| `Graphs.Concat` | DijkstraAlgorithm.cs:107 | `SelectMany` over the nodes: an edge is in the result iff some node lists it. |
| `Graphs.Edges` | DijkstraAlgorithm.cs:103-109 | `Graph.Edges` has no duplicates and holds exactly the edges that appear in some node's list. |
| `Graphs.Max` | DijkstraAlgorithm.cs:113 | `Max()` of a non-empty sequence is one of its elements and is no smaller than any of them. |
| `Graphs.MakeGraph` | DijkstraAlgorithm.cs:111-117 | Empty input fails (Max of nothing). A maximum below -1 fails (negative node count). A negative index in a pair fails with IndexOutOfRange. Otherwise the graph is valid, has `Max+1` nodes and `|xs|/2` edges (edge k joins `xs[2k]` to `xs[2k+1]`, and a trailing odd element is ignored), and each node's list holds its pair edges in order. |
| `Graphs.ConnectPairs` | DijkstraAlgorithm.cs:114-115 | The `MakeGraph` loop connects `xs[i]` to `xs[i+1]` for `i = 0, 2, 4, …`. It fails exactly when some pair has a negative index, and otherwise yields the lists of the pair edges. |
| `Graphs.PairStep` | DijkstraAlgorithm.cs:115 | Connecting the next pair appends the next pair edge to the lists of its endpoints, and only to those. |
| `Seqs.RemoveFirst` | DijkstraAlgorithm.cs:62-63 | `List.Remove`: the list is unchanged when x is absent. Otherwise exactly one occurrence of x is gone and nothing else changes (multiset). |
| `Seqs.RemoveFirstOrder` | DijkstraAlgorithm.cs:62-63 | `List.Remove` keeps the order of what remains. It removes the first occurrence of x. |
| `Seqs.IndexOfUnique` | DijkstraAlgorithm.cs:62 | The first occurrence is the only position before which x does not appear. |
| `Seqs.Distinct` | DijkstraAlgorithm.cs:107 | `Distinct()` has no duplicates and the same elements as its input. |
| `Seqs.Reverse` | DijkstraAlgorithm.cs:169 | `List.Reverse` keeps the length. |
| `Seqs.ReverseIndex` | DijkstraAlgorithm.cs:169 | `List.Reverse`: element i of the result is element `n-1-i` of the input, for every i. |
| `Seqs.RemoveFirstIncreasing` | DijkstraAlgorithm.cs:160 | Removing the opened node from the ascending `notVisited` list keeps it ascending and drops exactly that node. |
| `Dijkstra.WalkExtend` | DijkstraAlgorithm.cs:150-153 | A walk to u extended by an edge leaving u is a walk to that edge's To end. Its cost grows by the edge's weight. |
| `Dijkstra.WalkShape` | DijkstraAlgorithm.cs:163-170 | The nodes of a walk from s to t start at s and end at t. Consecutive nodes are joined by the walk's edges, each listed at its From node. |
| `Dijkstra.Select` | DijkstraAlgorithm.cs:135-147 | The frontier scan. No pick iff no node of `notVisited` is tracked. A pick is an unvisited tracked node of least price, and the first such node in list order, since the comparison is strict. |
| `Dijkstra.Frontier` | DijkstraAlgorithm.cs:136-160 | Any walk from start to an unvisited node passes through an unvisited tracked node (one of the walk's nodes) whose price is no more than the walk's cost. |
| `Dijkstra.LeastIsFinal` | DijkstraAlgorithm.cs:136-149 | The node the scan picks already has its final price: no walk to it is cheaper. |
| `Dijkstra.ExhaustedUnreachable` | DijkstraAlgorithm.cs:147 | If no unvisited node is tracked, no walk reaches any unvisited node, so returning null is right. |
| `Dijkstra.TakenIsUnsettled` | DijkstraAlgorithm.cs:154-157 | A node whose record an offer overwrites has not yet been opened. |
| `Dijkstra.Offer` | DijkstraAlgorithm.cs:150-158 | One edge of the opened node u. If the edge leaves u and its To end has no record or a strictly higher price (`>`), that record becomes `{price(u) + weight, previous = u}`. In every other case, an equal price included, the records are unchanged. |
| `Dijkstra.OfferOpening` | DijkstraAlgorithm.cs:150-158 | Making the offer along edge j of u's list keeps the search invariants, and the relaxed prefix of the list grows to j + 1 edges. |
| `Dijkstra.Relax` | DijkstraAlgorithm.cs:150-160 | Opening u keeps every search invariant with u removed from `notVisited`. Records only gain keys, change only to point at u, and every edge leaving u ends up relaxed (`price[to] <= price[u] + w`). |
| `Dijkstra.WalkNodesPrefix` | DijkstraAlgorithm.cs:163-168 | The first k+1 nodes of a walk are the nodes of its first k edges. |
| `Dijkstra.ChainLink` | DijkstraAlgorithm.cs:166 | Each predecessor link shortens the witness walk by its last edge. Only start has no predecessor, so the chain is acyclic and the rebuild loop ends. |
| `Dijkstra.Reconstruct` | DijkstraAlgorithm.cs:163-170 | Following `Previous` links from end and reversing gives the node sequence of end's witness walk, start first. |
| `Dijkstra.InitialState` | DijkstraAlgorithm.cs:130-132 | With every node unvisited and only start tracked at price 0, the search invariants hold. |
| `Dijkstra.Search` | DijkstraAlgorithm.cs:128-171 | A result is the node sequence of a directed walk from start to end: it starts at start, ends at end, each consecutive pair is joined by an edge From→To, and its cost is no more than that of any walk from start to end. Null means no walk exists. `start == end` gives `[start]`. The loop ends because each round removes one node from `notVisited`; a ghost round counter, bounded by `Length`, records this. |
| `DijkstraSample.SampleBuild` | DijkstraAlgorithm.cs:175-182 | `Graph(4)` and the five `GetConnectedEdge` calls yield the expected valid graph and edges. |
| `DijkstraSample.SampleCosts` | DijkstraAlgorithm.cs:177-181 | The three routes from 0 to 3 cost 6, 5 and 4. |
| `DijkstraSample.WalksToThree` | DijkstraAlgorithm.cs:177-181 | The only walks from 0 to 3 are 0→3, 0→1→3 and 0→2→3. |
| `DijkstraSample.SampleOptimum` | DijkstraAlgorithm.cs:183 | A cheapest walk from 0 to 3 is the one through node 2, with nodes `[0, 2, 3]`. |
| `DijkstraSample.SampleRoute` | DijkstraAlgorithm.cs:173-184 | Main's scenario gives `[0, 2, 3]`. This follows from `Search`'s contract and `SampleOptimum`. |
| `LinkedStack.Inc` | linkedstack.cs:29 | `Count++` on a 32-bit int: one up, modulo 2^32 within the int range. |
| `LinkedStack.Dec` | linkedstack.cs:34 | `Count--` on a 32-bit int: one down, modulo 2^32 within the int range. |
| `LinkedStack.IncDec` | linkedstack.cs:29-34 | `++` and `--` undo each other, wrap-around included. |
| `LinkedStack.Empty` | linkedstack.cs:17-20 | A new stack has no items and Count 0, and satisfies the invariant. |
| `LinkedStack.Push` | linkedstack.cs:22-30 | The new value is on top of the old contents, and Count goes up by one. |
| `LinkedStack.Pop` | linkedstack.cs:32-41 | Count always goes down by one. It fails with InvalidOperation exactly when the stack is empty, leaving Last alone. Otherwise it returns the top value and the rest of the contents. |
| `LinkedStack.Peek` | linkedstack.cs:43-46 | The top value of a non-empty stack. |
| `LinkedStack.Clear` | linkedstack.cs:48-52 | No items and Count 0, with the invariant restored. |
| `LinkedStack.Clone` | linkedstack.cs:54-57 | Same contents and Count. The clone satisfies the invariant exactly when the original does. |
| `LinkedStack.PushValid` | linkedstack.cs:19-30 | Push keeps "Count equals the chain length" as long as Count is below int.MaxValue. |
| `LinkedStack.PushWraps` | linkedstack.cs:29 | Pushing onto a stack of int.MaxValue items wraps Count to int.MinValue and breaks the invariant. |
| `LinkedStack.PopValid` | linkedstack.cs:32-41 | A Pop on a non-empty valid stack succeeds and keeps the invariant. |
| `LinkedStack.PopEmptyBreaks` | linkedstack.cs:32-36 | Pop on an empty stack throws InvalidOperation after Count has already become -1, so the invariant no longer holds. |
| `LinkedStack.PushPop` | linkedstack.cs:22-46 | LIFO: Pop right after Push(x) returns x and restores Last and Count, and Peek after Push(x) is x. |
| `LinkedStack.CloneIndependent` | linkedstack.cs:54-57 | The clone has the original's contents, and a Push or Pop on the clone gives the expected contents. In the model stacks are values, so the original is unchanged by construction. In the source the same holds because no stack method modifies an item once linked. |
| `LinkedStack.PushAllPopAll` | linkedstack.cs:22-41 | Pushing a sequence and then popping as many times returns its values last-in first-out and gives back the original stack. |
| `LinkedStack.SampleStack` | linkedstack.cs:62-68 | Push 5, push 4, pop returns 4, and leaves a valid stack holding just 5. |

## Left out

- The `Main` of `linkedstack.cs` prints the popped value with
  `Console.WriteLine`. The `Main` of `DijkstraAlgorithm.cs` prints nothing: it
  assigns the path to a lazy `Select` that is never read. Their scenarios are
  modelled as `SampleRoute` and `SampleStack`; the printing is not.
- Weights and prices are `double` in the source. They are natural numbers here,
  so weights are never negative, and there is no NaN, infinity or rounding.
  - The initial `bestPrice = PositiveInfinity` is reflected by the first tracked
    node always being picked.
  - A node with no record is simply absent from the map.
- `Dijkstra.Search`: a `weights` entry is required for every listed edge
  (`Weighted`). This asks more than the source does. The source reads
  `weights[e]` only at `DijkstraAlgorithm.cs:152`, and only for edges leaving
  a node it opens before reaching end. With a missing entry there it throws
  KeyNotFoundException; elsewhere a missing entry is harmless. Neither case is
  modelled.
- `Dijkstra.Search`: `start` and `end` must be nodes of the graph. A node from
  another graph, or null, is not modelled.
- LINQ's lazy enumeration is not modelled. `IncidentNodes`, `IncidentEdges`,
  `Nodes`, `Edges` and `Distinct` are modelled as snapshots.
  - `Node.IncidentEdges` is a node's `edges` list itself.
  - `Graph.Nodes` is the node sequence itself.
  - `Graph.Length` is the `Length()` member of `Graph`.
- Reference identity and `Dictionary` hashing are replaced by node indices and
  edge ids.
- `Graphs.Disconnect` requires both endpoints to be nodes of the graph. An edge
  in C# always carries its own node objects; the index model has to say so.
- `Graphs.IncidentNodes` requires a valid graph. Only then is every listed edge
  incident, so `OtherNode` cannot throw.
- `Graphs.MakeGraph`: the elements are unbounded integers, so `Max()+1`
  overflowing at int.MaxValue is not modelled.
- `LinkedStack.Peek` requires a non-empty stack. On an empty one the source
  dereferences null.
- Outside code can change the public `Last` field or an item's `Previous`
  setter. This is not modelled; only the stack's own methods change a stack.
