# dag.py — a verified model of the DAG class

The `DAG` class in `dag.py` is a small directed-graph store. Its attribute
`graph` is a dictionary that maps each vertex to its list of out-neighbours.
The class has:

- two mutators, `add_vertex` and `add_edge`;
- two depth-first traversals, each with a recursive helper:
  - `has_cycle` / `_has_cycle_util` finds back edges using a `visited` map and a `rec_stack` map;
  - `topological_sort` / `_topological_sort_util` prepends each vertex to the result once its successors are placed.

This project models that class in Dafny and proves what the traversals are for.

- `graphs.dfy` (module `Graphs`) holds the pure definitions and lemmas.
  - Definitions: adjacency-list graphs, closure of the neighbour lists, walks, cycles, finish orders, topological orders and permutations.
  - The value-level effect of adding a vertex or an edge.
  - Lemmas:
    - a back edge closes a cycle;
    - a finish order that lists every vertex proves the graph acyclic;
    - a repeat-free sequence whose successors all come later is a topological order;
    - two repeat-free sequences with the same elements are permutations of each other.
- `dag.dfy` (module `Dag`) holds the class `DAG<V>`.
  - The dictionary is split into two fields:
    - `keys` is the dictionary's iteration order, which is insertion order. Both traversals iterate in this order (dag.py:47, dag.py:75).
    - `adj` is the dictionary's contents.
  - `Valid()` is the class invariant: every vertex is listed once in `keys`, and every neighbour is itself a vertex. This closure is what makes the lookups `visited[neighbor]` and `rec_stack[neighbor]` safe.
  - The traversal helpers are methods with the source's loops and recursion.
    - Python passes the `visited` and `rec_stack` dictionaries and the result list by reference. They are local to one traversal, so the helpers take them as values and return the updated values.
    - Ghost arguments carry the proof:
      - the current DFS path, which holds exactly the vertices whose stack flag is set;
      - the finish order, which lists the finished vertices, most recently finished first.
    - Recursion terminates because the set of unvisited vertices shrinks.
- `scenarios.dfy` (module `Scenarios`) replays the situations exercised in `test_dag.py`. The labels are any three distinct vertices. Each outcome is derived from the contracts alone.

Vertices have any type with equality whose values are not heap references; Python's dictionary hashing is modelled as Dafny equality.

Two remarks on the relation to the source:

- `add_edge` tests `from_vertex not in self.graph` and `to_vertex not in self.graph` before calling `add_vertex` (dag.py:10-13). `add_vertex` repeats that test itself (dag.py:6), so `AddEdge` calls `AddVertex` unconditionally. The effect is identical.
- `test_dag.py:30` accepts either `[A, B, C]` or `[A, C, B]` for the edges A→B, B→C, A→C. The second is not a topological order, because of the edge B→C. The model proves that `topological_sort` returns exactly `[A, B, C]` there (`Scenarios.SortDiamond`), and that this is the only topological order of that graph (`Scenarios.DiamondHasOneOrder`).

## Model

| member | source | states |
|---|---|---|
| Dag.DAG.constructor | dag.py:2-3 | A new graph has no vertices and satisfies the class invariant. |
| Dag.DAG.AddVertex | dag.py:5-7 | The invariant is kept. The new contents are `WithVertex` of the old contents: an absent vertex gets an empty list, and a present vertex leaves the graph as it was. The new key order is `WithKey` of the old one: an absent vertex is appended last, and a present one changes nothing. |
| Graphs.WithVertex | dag.py:5-7 | The vertex set grows by exactly v. v's list is empty if v is new and unchanged otherwise. Every other vertex keeps its list. |
| Graphs.WithKey | dag.py:5-7 | If keys listed the vertices once each before, the result lists the vertices of the extended graph once each. The old order is kept as a prefix. |
| Dag.DAG.AddEdge | dag.py:9-14 | The invariant is kept, so closure holds after every mutation. The new contents are `WithEdge` of the old contents. Missing endpoints enter the key order source first, then target. |
| Graphs.WithEdge | dag.py:9-14 | The vertex set grows by exactly {source, target}. source's list becomes its old list (empty if it was absent) with target appended, so repeating an edge lists it twice. Every other vertex keeps its list; a new target has an empty list. Closure is preserved. |
| Graphs.EdgeKeys | dag.py:9-13 | Adding an edge appends source to the key order if it was absent, then target if it was absent and differs from source. |
| Graphs.AppendKeepsClosed | dag.py:14 | Appending a vertex to a vertex's list keeps every listed neighbour a vertex. |
| Dag.DAG.HasCycleUtil | dag.py:16-39 | Visited flags only go from false to true. Reporting a cycle implies the graph has one. On a false return: v is visited and finished, the stack flags are back to their values on entry (exactly the current path), and every newly finished vertex was unvisited on entry. The finish order still lists each finished vertex before all its successors. |
| Graphs.BackEdgeCycle | dag.py:35-36 | An edge from the end of the current path to a vertex on it closes a directed cycle. |
| Graphs.PrependFinished | dag.py:38-39 | A vertex whose successors are all finished can be prepended to a finish order, and the result is still a finish order. |
| Dag.DAG.HasCycle | dag.py:41-51 | The result is true exactly when the graph has a directed cycle, self-loops included. |
| Graphs.FinishOrderAcyclic | dag.py:51 | A finish order that covers every vertex proves that no cycle exists. |
| Graphs.OrderedIsAcyclic | dag.py:51 | A graph whose vertices all appear in a topological order has no cycle. |
| Graphs.PathClimbs | dag.py:51 | Along a walk with at least one edge, positions in a topological order strictly increase from the first vertex to the last. |
| Dag.DAG.TopologicalSortUtil | dag.py:53-69 | v is visited and is at the front of the result. Everything already placed is kept. The result has no repeats. Visited means on the current path or placed, and everything newly placed was unvisited on entry. On an acyclic graph, every successor of a placed vertex is placed after it. |
| Dag.DAG.TopologicalSort | dag.py:71-79 | The result lists every vertex exactly once (a permutation of the keys), even on a cyclic graph. Every edge u→w has u before w exactly when the graph is acyclic. |
| Graphs.EdgesForwardIsTopological | dag.py:69 | In a repeat-free sequence, "every successor is listed later" is the position-wise topological condition. |
| Graphs.DistinctSameElements | dag.py:71-79 | Two repeat-free sequences with the same elements are permutations of each other. |
| Graphs.DistinctCount | dag.py:71-79 | In a repeat-free sequence every element occurs exactly once. |
| Scenarios.AddVertexTwice | test_dag.py:4-8 | Adding the same vertex twice to an empty graph leaves one key with an empty list. |
| Scenarios.AddEdgeTwice | test_dag.py:10-15 | After add_edge(a, b) twice on an empty graph, the keys are a then b (just a for a self-loop), and a's list is [b, b]. |
| Scenarios.BuildEdge | test_dag.py:10-15 | add_edge(a, b) on an empty graph gives keys [a, b], with a→b and b's list empty. |
| Scenarios.EmptyGraph | dag.py:41-51 | The empty graph has no cycle and sorts to the empty sequence. |
| Scenarios.SelfLoop | dag.py:31-36 | A self-loop a→a is reported as a cycle. |
| Scenarios.BuildChain | test_dag.py:18-20 | add_edge(a, b) then add_edge(b, c) gives exactly a→b→c, with keys [a, b, c]. |
| Scenarios.ChainIsAcyclic | test_dag.py:21 | a→b→c has no cycle. |
| Scenarios.TriangleIsCyclic | test_dag.py:22-23 | a→b→c→a is a cycle. |
| Scenarios.ChainThenClose | test_dag.py:17-23 | has_cycle is false on a→b→c and true after add_edge(c, a). |
| Scenarios.BuildDiamond | test_dag.py:26-29 | The three add_edge calls give a→b, a→c and b→c with keys [a, b, c]. |
| Scenarios.DiamondIsAcyclic | test_dag.py:26-29 | That graph has no cycle. |
| Scenarios.DiamondHasOneOrder | test_dag.py:30 | Its only topological order of a, b, c is [a, b, c]. |
| Scenarios.SortDiamond | test_dag.py:25-30 | topological_sort on that graph returns exactly [a, b, c]. |

## Left out

- `DAG.draw` (dag.py:81-108) is not modelled. It renders the graph through networkx and matplotlib and writes an image file, which is foreign library code and file I/O.
- `main.py` is not modelled. It is a demo driver that uses random choices, printing and drawing.
- An in-degree (Kahn) topological sort and a cycle-detected error are not modelled, because dag.py contains neither. Only the two depth-first traversals exist in the code.
- Python's recursion-depth limit is not modelled. The recursive helpers can exceed it on very deep graphs and raise there; the model's recursion is unbounded.
- Dafny equality stands in for dictionary hashing.
- Object-valued vertices are not covered. Python also accepts class instances hashed by identity as keys, but the model's vertex type excludes heap references. The cycle and order predicates quantify over walks, and that needs this restriction.
- The in-place updates of `visited`, `rec_stack` and the result list are modelled as values passed in and returned. Those objects are created inside one traversal and never shared, so no aliasing is lost.
- Dag.DAG.TopologicalSortUtil: states that v ends up first and that every entry already on the stack is kept. It does not state that those entries keep their relative order behind v, although `stack.insert(0, vertex)` at dag.py:69 guarantees it. The ordering facts the traversal needs are carried by the finish-order invariant instead.
