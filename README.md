# Greedy graph colouring — a verified model

This project models the colouring engine of a small Python program. The engine is the `Graph` class in `main.py`. A graph has a fixed number of vertices `0 .. vertices-1`. It has an adjacency table (`smezh_list`) that maps each vertex to the ordered list of its stored neighbours. It also has a sticky `directed` flag.

`add_edge` is the only mutator. It appends `v` to the list of `u`. For an undirected edge it also appends `u` to the list of `v`; for a directed edge it sets the flag instead.

There are two greedy first-fit colourers:

- `greedy_coloring` gives vertex 0 colour 0. It then takes the other vertices in increasing order. For each vertex it marks the colours of the already coloured neighbours in a boolean buffer, takes the first unmarked colour of the palette `0 .. vertices-1`, and clears the marks again.
- `greedy_coloring_directed` also marks the colours of the vertices whose lists hold the current vertex (its in-neighbours). It finds them by scanning the whole table. When no directed edge was ever added, it returns what `greedy_coloring` returns.

The Dafny model has three modules:

- `GreedySpec` (`greedy_spec.dfy`) is the specification. It defines the conflict relation (`Conflict`) and the colours blocked for a vertex (`Blocked`). It defines the palette scan (`FirstFree`) and the greedy colouring as a function (`GreedyPrefix`, `Greedy`). It also gives an independent characterisation of that colouring (`IsFirstFit`). A `shadow` flag selects the directed variant, where an edge in either direction is a conflict. The lemmas prove the colouring total and bounded. They prove it first-fit, and prove that first-fit determines it. They also prove it proper, and prove that the shadow makes no difference on a symmetric table.
- `GraphModel` (`graph.dfy`) holds `class Graph`. Its fields are `vertices`, `adj` (the adjacency table as a `seq<seq<nat>>` field that `AddEdge` reassigns) and `directed`. `Valid()` says that every list has a place in the table and every stored id is a vertex. It also says that while `directed` is false the table is symmetric.
  - The colourers fill an `array<int>` result, which starts all `Uncolored` (-1), using an `array<bool>` buffer.
  - The body of the source's per-vertex loop is split into its phases: `MarkConflicts`, `PickColor` and `ClearConflicts`, composed by `ColorVertex`. On a self-loop the reset loops also visit `u` itself, whose new colour was never marked; clearing that slot is harmless. The undirected colourer runs them with `shadow == false`, which skips the in-neighbour scans.
  - Each colourer is proved equal to the specification function. Each also carries the totality, first-fit and properness promises directly.
- `Scenarios` (`scenarios.dfy`) holds the graphs of the unit tests in `test.py` and the directed example in the documentation of `greedy_coloring_directed`. It proves the colouring of each. Two test methods build the first and third test graphs through `AddEdge` and call the colourers on them.

The code and the documentation disagree on one point, and the model follows the code. The docstring at main.py:86-92 says the directed chain 0→1→2→3→4 is coloured `[0, 1, 2, 3, 4]`. The code gives `[0, 1, 0, 1, 0]`: each vertex conflicts only with its predecessor. `Scenarios.DirectedChain` proves the code's value and that it is not the documented one.

## Model

| member | source | states |
|---|---|---|
| `GraphModel.Graph.constructor` | main.py:7-19 | a new graph has the given vertex count, an empty list for every vertex, and `directed` false; the symmetry invariant holds |
| `GraphModel.Graph.AddEdge` | main.py:21-34 | `v` is appended to the end of `adj[u]`; for an undirected edge, `u` is then appended to `adj[v]` (a self-loop lands twice on one list); no other list changes; `directed` becomes `old(directed) || directed`, so it is set by a directed edge, kept by an undirected one and never cleared; an undirected graph stays symmetric |
| `GraphModel.Graph.MarkConflicts` | main.py:103-110 | after the marking loops, a colour is marked exactly when an earlier vertex that conflicts with `u` holds it; in shadow mode the conflicting vertices include those whose list holds `u`, otherwise (main.py:60-63) only `u`'s stored neighbours |
| `GraphModel.PickColor` | main.py:112-116 | the scan returns the first unmarked colour, so every smaller colour is marked; it returns `Uncolored` only when every colour of the palette is marked |
| `GraphModel.Graph.ClearConflicts` | main.py:118-124 | the reset loops (also main.py:71-74) leave every mark of the buffer clear |
| `GraphModel.Graph.ColorVertex` | main.py:103-124 | one loop iteration extends the colouring of `0 .. u-1` by the specified colour of `u`, leaves later vertices `Uncolored`, and returns the buffer all clear |
| `GraphModel.Graph.GreedyColoring` | main.py:53-76 | the result is `Greedy(adj, false)`: one colour per vertex, vertex 0 coloured 0, every colour in `[0, u]` (no `Uncolored` left) and at most the length of `adj[u]`; it is first-fit; vertex `u` differs from every earlier neighbour; on an undirected graph adjacent distinct vertices differ; the graph is not modified |
| `GraphModel.Graph.GreedyColoringDirected` | main.py:94-125 | without a directed edge the result is exactly the undirected colouring; in every case it is the shadow colouring `Greedy(adj, true)`; it is total, bounded by `u`, at most the length of `adj[u]` plus the number of in-neighbours of `u`, and first-fit against in- and out-neighbours; two distinct vertices joined by an edge in either direction differ |
| `GraphModel.Graph.ColorTwice` | main.py:53-125 | neither colourer changes the graph, so calling each one twice in a row gives the same colouring both times |
| `GreedySpec.FirstFree` | main.py:66-69 | the palette scan returns `Uncolored` only when every colour from `from` up to `n` is taken; otherwise it returns a free colour below `n` all of whose predecessors from `from` are taken |
| `GreedySpec.GreedyPrefix` | main.py:53-75 | the greedy pass over vertices `0 .. k-1` gives `k` colours, colour 0 to vertex 0, and each vertex `u` a colour in `[0, u]`: a free colour always exists because at most `u` colours are blocked |
| `GreedySpec.FirstFreeWithin` | main.py:66-69 | with at most `m` colours taken and more than `m` colours in the palette, the scan finds a colour no larger than `m` |
| `GreedySpec.BlockedCard` | main.py:61-63 | the vertices coloured before `u` block at most as many colours as there are of them |
| `GreedySpec.PrefixStable` | main.py:59-75 | colouring later vertices never changes an earlier vertex's colour |
| `GreedySpec.GreedyIsFirstFit` | main.py:59-75 | every vertex `u >= 1` holds a colour that no earlier conflicting vertex holds, and every smaller colour is held by one of them |
| `GreedySpec.FirstFitDeterminesColoring` | main.py:59-75 | any colouring with vertex 0 at colour 0 and every later vertex first-fit is the greedy colouring |
| `GreedySpec.GreedyEarlierConflictsDiffer` | main.py:103-116 | no vertex shares its colour with an earlier conflicting vertex |
| `GreedySpec.GreedyProperOnSymmetric` | main.py:59-75 | on a symmetric table, two distinct vertices with one in the other's list get different colours |
| `GreedySpec.GreedyShadowProper` | main.py:103-116 | in the directed colouring, two distinct vertices joined by a stored edge in either direction get different colours, whichever of them is larger |
| `GreedySpec.GreedyDegreeBound` | main.py:61-69 | a vertex's undirected colour is at most the length of its neighbour list (the degree + 1 bound) |
| `GreedySpec.GreedyShadowDegreeBound` | main.py:105-116 | a vertex's directed colour is at most the length of its own list plus the number of vertices whose lists hold it (the degree + 1 bound, with edges counted in both directions) |
| `GreedySpec.ShadowIrrelevantWhenSymmetric` | main.py:94-95 | on a symmetric table the directed colouring equals the undirected one, so delegating when no directed edge exists does not change the result |
| `Scenarios.CycleWithChord` | test.py:14-22 | the 5-cycle with chord 1-4 is coloured `[0, 1, 0, 1, 2]` |
| `Scenarios.TwoUndirectedEdges` | test.py:31-36 | six vertices with undirected edges 0-1 and 2-3 are coloured `[0, 1, 0, 1, 0, 0]` |
| `Scenarios.DirectedFiveCycle` | test.py:45-52 | the directed 5-cycle is coloured `[0, 1, 0, 1, 2]` |
| `Scenarios.TwoDirectedEdges` | test.py:61-66 | six vertices with directed edges 0→1 and 2→3 are coloured `[0, 1, 0, 1, 0, 0]` |
| `Scenarios.EvenCycle` | test.py:75-83 | the undirected 6-cycle is coloured `[0, 1, 0, 1, 0, 1]` |
| `Scenarios.PathOfFour` | test.py:92-97 | the undirected path 0-1-2-3 is coloured `[0, 1, 0, 1]` |
| `Scenarios.TestUndirectedColoring` | test.py:7-22 | a new five-vertex graph given the undirected edges 0-1, 1-2, 2-3, 3-4, 4-0 and 1-4 through `AddEdge` is coloured `[0, 1, 0, 1, 2]` by the undirected colourer |
| `Scenarios.TestDirectedColoring` | test.py:38-52 | a new five-vertex graph given the directed edges 0→1, 1→2, 2→3, 3→4 and 4→0 through `AddEdge` is coloured `[0, 1, 0, 1, 2]` by the directed colourer |
| `Scenarios.DirectedChain` | main.py:86-92 | the directed chain 0→1→2→3→4 is coloured `[0, 1, 0, 1, 0]`, not the documented `[0, 1, 2, 3, 4]` |

## Left out

- `Graph.visualize` (main.py:127-163) is left out. It only draws the graph through matplotlib and networkx, which are foreign library calls.
- `create_graph_from_user_input` and the `__main__` block (main.py:166-231) are left out. They are interactive console loops. Only their range check (main.py:204-205) is kept, as the precondition of `AddEdge`.
- `test_time.py` is not part of this model. It measures wall-clock time on random graphs and asserts nothing about behaviour.
- Python failure modes are preconditions, not behaviour. `AddEdge` requires both ids to be vertices, and the colourers require at least one vertex. This excludes:
  - a `KeyError` at main.py:30 for a source id outside the table;
  - a directed `add_edge(u, v)` with `v` outside the table, which main.py:30 and main.py:34 accept silently; the colourers fail with an `IndexError` at main.py:62 or main.py:106 once they reach a source vertex `u >= 1`, or, for a negative `v`, read a wrapped-around `result[neighbor]`; an edge out of vertex 0 is never read, because both loops start at vertex 1 (main.py:59, main.py:103) and the in-neighbour scan only tests `u in neighbors` (main.py:108-109), so both colourers ignore it;
  - an undirected `add_edge(u, v)` with `v` outside the table, which raises a `KeyError` at main.py:32 after main.py:30 has already appended `v`, so the graph is left changed;
  - the `IndexError` at main.py:54 for a graph with no vertices; the caller rejects non-positive counts at main.py:176-177.
- `GraphModel.Graph.constructor` takes a `nat`. A negative vertex count, which Python accepts and turns into an empty table, is not modelled.
- The dictionary `smezh_list` is modelled as a sequence indexed by vertex id. Its keys are exactly `0 .. vertices-1` in increasing order, so the directed scan visits vertices in id order. The order does not affect the result.
- The quadratic cost of the in-neighbour scan, and any optimality or chromatic-number claim, are out of scope; the code promises neither.
