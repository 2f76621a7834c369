# BrainSims analytical core in Dafny

BrainSims builds small synthetic directed "toy brain" graphs with cycles embedded in them. It then analyses them in three ways:

- It enumerates bounded simple cycles.
- It simulates threshold activation spreading over discrete time steps.
- It collapses a graph through a node-to-cluster map, then counts bounded walk motifs on the original graph and on the collapsed one.

This project models those algorithms and proves what they compute:

- `analysisTools.py`: `count_active_nodes`, `find_all_cycles`, `cycle_overlap`.
- `simulateCycles.py`: `build_toy_brain`, `activate_cycles`.
- `pcnImplementation.py`: `collapse_graph`, `pcn_analysis`.

Files and modules:

- `graphs.dfy` has two modules.
  - `Outcomes` holds `Result`, the outcome of an operation whose source raises an exception.
  - `Graphs` holds the `Graph` value. This is the part of a networkx `DiGraph` the scripts use:
    - nodes in insertion order;
    - successor lists in insertion order;
    - no parallel edges.

    It also holds `AddEdge`, the edge list `EdgeList` in the order of `G.edges()`, and `Words`, a finite bound used as the termination measure of the searches.
- `analysis_tools.dfy` (`AnalysisTools`):
  - the active-node count;
  - the depth-first cycle search, as a method over an explicit stack. It is proved to return every bounded simple cycle exactly once, and nothing else;
  - rotations of a cycle;
  - the overlap count.
- `simulate_cycles.dfy` (`SimulateCycles`):
  - ring embedding into a graph;
  - the synchronous activation step, with its specification functions `Step` and `Run`, and lemmas about `Run`: monotonicity, fixed points, and threshold 0.
- `pcn_collapse.dfy` (`PcnCollapse`): the collapse as an imperative pass over the edges. It comes with weight conservation, the single-cluster case and the identity clustering.
- `pcn_motifs.dfy` (`PcnMotifs`): the motif walk search, as a method over an explicit stack. It is proved to record every walk of one or two edges exactly once.
- `scenarios.dfy` (`Scenarios`): the triangle 0 -> 1 -> 2 -> 0 worked through every component.

Nodes and cluster identifiers are integers. The random draws of the source are parameters:

- the cycle lengths and node samples of `build_toy_brain`;
- the initial active nodes of `activate_cycles`;
- the clustering produced by `simple_random_clustering`.

Where the documented contract of the system and the code disagree, the model follows the code:

- **Clustering coverage.** The collapse fails only when an endpoint of some edge has no cluster. It is a KeyError at `clustering[u]`, checked for `u` before `v`. A node with no edges and no cluster is accepted. There is no up-front check that the clustering covers every node.
- **Motif length.** `pcn_analysis` records walks of at most 3 nodes, i.e. 1 or 2 edges, not 3 edges (see Findings).
- **Threshold and steps.** `activate_cycles` does not reject a negative threshold or a negative step count. A threshold of 0 or less switches every node on in the first step. A step count of 0 or less leaves the initial state unchanged.
- **Graph building.** `build_toy_brain` does not check its node count up front. It fails only when a round draws a cycle length larger than the node count, because `random.sample` raises ValueError there.
- **Two-edge cycles.** `find_all_cycles` reports two-edge cycles `[a, b, a]` when both `a -> b` and `b -> a` exist.

## Model

| member | source | states |
|---|---|---|
| Graphs.Isolated | simulateCycles.py:19-20 | A new DiGraph with `add_nodes_from` holds exactly the given nodes, in order, and no edge. |
| Graphs.AddEdge | simulateCycles.py:27-30 | `add_edge` between existing nodes adds exactly the edge u -> v: the edge set becomes the old one plus (u, v). Nodes are unchanged and the graph stays well formed. Re-adding an existing edge changes nothing, so there are no parallel edges. |
| Graphs.EdgeListIsEdges | pcnImplementation.py:27 | `G.edges()` lists every edge of the graph exactly once, and nothing else. |
| AnalysisTools.CountActive | analysisTools.py:12-16 | The count of true entries is at most the number of nodes. It is 0 iff every node is off, and equals the number of nodes iff every node is on. |
| AnalysisTools.ScanSuccessors | analysisTools.py:29-34 | Scanning the successors of the popped path's end does two things. It reports `path + [n]` when the path has 2 to `max_length` nodes and the end has an edge back to the seed. It pushes `path + [s]` for every successor `s` not on the path, while the path has fewer than `max_length` nodes. |
| AnalysisTools.SeedCycles | analysisTools.py:25-34 | The stack search from seed `n` terminates. It returns, without repeats, exactly the bounded simple cycles that start at `n`. |
| AnalysisTools.FindAllCycles | analysisTools.py:18-35 | The result holds each closed walk c[0] -> ... -> c[0] exactly once. Each such walk has 2 to `max_length` edges and no repeated node before it closes. Nothing else is in the result, and it is empty when `max_length` < 2. |
| AnalysisTools.RotationsAreCycles | analysisTools.py:25-35 | Every rotation of a reported cycle is itself reported, starting at its own node. Different rotations are different sequences, so a k-edge cycle is reported k times. |
| AnalysisTools.OverlapZero | analysisTools.py:37-47 | The overlap is 0 iff no cycle of the first list occurs in the second. In particular, an empty second list gives 0. |
| AnalysisTools.OverlapFull | analysisTools.py:37-47 | The overlap equals the length of the first list iff every cycle in it occurs in the second. |
| AnalysisTools.OverlapSelf | analysisTools.py:37-47 | A cycle list overlaps itself completely. |
| AnalysisTools.CycleOverlap | analysisTools.py:37-47 | The loop over `cycles_a`, checking membership in the set of `cycles_b`, returns the number of entries of `cycles_a` found in `cycles_b`, with multiplicity. |
| SimulateCycles.Range | simulateCycles.py:20 | `range(n)` is 0 .. n-1 in order, and empty for n <= 0. |
| SimulateCycles.AddRing | simulateCycles.py:26-30 | One embedding round adds exactly the ring edges of the sampled node list to the edges already there. |
| SimulateCycles.BuildToyBrain | simulateCycles.py:14-31 | The build fails iff some round draws a length larger than the node count, and it reports the first such round. Otherwise the graph has nodes 0 .. n-1 and an edge u -> v iff some round's ring contains it. |
| SimulateCycles.EmbeddedRingIsCycle | simulateCycles.py:23-30 | Every sampled node list, closed back to its first node, is a bounded simple cycle of the built graph. |
| SimulateCycles.SynchronousStep | simulateCycles.py:51-60 | Visiting the nodes in any order gives the synchronous step `Step`. A node ends up on iff it was on, or its active predecessors in the pre-step state reach the threshold. |
| SimulateCycles.ActivateCycles | simulateCycles.py:33-62 | The result is the state after exactly `steps` synchronous steps (none when `steps` <= 0). It starts from all nodes off except the drawn ones, and it has an entry for every node. |
| SimulateCycles.ActivationMonotone | simulateCycles.py:50-60 | A node that is on after t steps is on after every t' >= t steps. |
| SimulateCycles.RunKeepsKeys | simulateCycles.py:51 | Every step keeps the same set of nodes in the state. |
| SimulateCycles.ActiveCountNonDecreasing | simulateCycles.py:50-60 | The number of active nodes never decreases from one step count to a larger one. |
| SimulateCycles.FixedPointIsStable | simulateCycles.py:50-60 | Once one step changes nothing, the state stays the same for every later step. |
| SimulateCycles.NonPositiveThresholdActivatesAll | simulateCycles.py:55-58 | With a threshold of 0 or less, every node is on after the first step. |
| SimulateCycles.InitialState | simulateCycles.py:42-48 | The initial state has an entry for every node, and its active nodes are exactly the drawn ones. |
| PcnCollapse.Enumerate | pcnImplementation.py:23-25 | The cluster nodes are added once each, and they are exactly the distinct values of the clustering. |
| PcnCollapse.TallyEdge | pcnImplementation.py:28-35 | Processing one edge keeps the running invariant. An edge a -> b exists iff a != b and a processed edge maps to it, and its weight counts those edges. |
| PcnCollapse.CollapseEdges | pcnImplementation.py:27-35 | The pass over the edges fails iff some edge has an endpoint without a cluster. It then names the first key whose lookup fails, taking the edges in order and `u` before `v`. Otherwise the graph of clusters gets exactly the edges between different clusters that the edges map to, each weighted by the number of edges mapping to it. |
| PcnCollapse.CollapseGraph | pcnImplementation.py:15-37 | It fails iff an endpoint of some edge has no cluster. The node it names is the first key whose lookup fails, taking the edges in `G.edges()` order and `u` before `v`. Otherwise the nodes of H are exactly the cluster identifiers. H has an edge a -> b iff a != b and some edge of G runs from cluster a to cluster b, so there are no self-loops. Each weight is the number of such edges, hence at least 1. |
| PcnCollapse.CountIsCardinality | pcnImplementation.py:31-35 | The weight of a -> b is the number of distinct edges (u, v) of G with clustering[u] = a and clustering[v] = b. |
| PcnCollapse.WeightConservation | pcnImplementation.py:27-35 | The weights of H sum to the number of edges of G whose endpoints lie in different clusters. |
| PcnCollapse.SingleClusterHasNoEdges | pcnImplementation.py:27-30 | With at most one cluster, the collapsed graph has no edge and no weight. |
| PcnCollapse.IdentityCollapse | pcnImplementation.py:27-35 | Under the identity clustering, H's edges are G's edges minus self-loops, and every weight is 1. |
| PcnMotifs.TallyFresh | pcnImplementation.py:68-69 | Counting walks with `get(motif, 0) + 1` adds each of them with count 1 and leaves the other entries alone, provided the walks are distinct and not yet in the table. |
| PcnMotifs.ScanWalkSuccessors | pcnImplementation.py:64-70 | For each successor of the popped path's end, the longer path is counted and pushed iff it has at most the node bound. |
| PcnMotifs.SeedWalks | pcnImplementation.py:58-70 | The stack search from one node terminates. It adds every walk from that node with 2 to `maxNodes` nodes to the table, each with count 1, and keeps what earlier nodes recorded. |
| PcnMotifs.WalkMotifs | pcnImplementation.py:56-72 | Over all start nodes, the table's keys are exactly the walks with 2 to `maxNodes` nodes, nodes may repeat, and every count is 1. |
| PcnMotifs.PcnAnalysis | pcnImplementation.py:50-72 | `pcn_analysis` as written: the keys are exactly the walks of 1 or 2 edges, revisits included, each counted once. |
| PcnMotifs.PcnAnalysisThreeEdges | pcnImplementation.py:52 | The three-edge enumeration described by the doc-comment: the keys are exactly the walks of 1 to 3 edges, each counted once. |
| PcnMotifs.OneEdgeMotifsAreEdges | pcnImplementation.py:64-69 | The one-edge motifs are exactly the edges of G. |
| PcnMotifs.MotifPrefix | pcnImplementation.py:64-70 | Every longer motif extends a shorter recorded one, so the motif set is closed under dropping the last node. |
| PcnMotifs.CyclesAreMotifs | pcnImplementation.py:50-55 | A bounded cycle that fits the node bound is also a motif. These are the "loops" among the path motifs. |
| PcnMotifs.MotifsGrowWithBound | pcnImplementation.py:62-66 | Raising the node bound only adds motifs. |
| Scenarios.TriangleCycles | analysisTools.py:18-35 | On the triangle with a bound of 3, the cycles are exactly its three rotations. |
| Scenarios.TriangleActivation | simulateCycles.py:50-60 | On the triangle with node 0 on and threshold 1, node 1 switches on at step 1 and node 2 at step 2. |
| Scenarios.TriangleCollapse | pcnImplementation.py:27-35 | Collapsing the triangle with {0: 10, 1: 10, 2: 11} drops 0 -> 1 and gives the edges 10 -> 11 and 11 -> 10, with weight 1 each. |
| Scenarios.TriangleMotifs | pcnImplementation.py:56-72 | The triangle's motifs are its three edges and its three two-edge walks. |
| Scenarios.ThreeEdgeWalkDropped | pcnImplementation.py:66 | The three-edge walk 0 -> 1 -> 2 -> 0 of the triangle is a walk that `pcn_analysis` does not record, while the three-edge enumeration does. |

## Left out

- The `main` functions of the three scripts (pcnImplementation.py:74-95, simulateCycles.py:64-76, analysisTools.py:49-61) only print results and are not modelled.
- `simple_random_clustering` (pcnImplementation.py:39-48) is a uniform random draw. The clustering is an input of `CollapseGraph` instead.
- Random draws are not modelled as draws. `random.randint`, `random.sample` and the initial `random.sample` of active nodes become parameters: `BuildToyBrain` takes the drawn lengths and samples, and `ActivateCycles` takes the drawn node list. Their distributions are not modelled.
- ActivateCycles accepts any list of graph nodes as the initial draw, and the properties proved hold for every draw. The source asks `random.sample` for `len(G.nodes()) // 4` distinct nodes of `G.nodes()` (simulateCycles.py:46).
- ActivateCycles does not model the TypeError that this `random.sample(G.nodes(), ...)` call raises on Python 3.11 and later. There a networkx node view is not a sequence, so `activate_cycles` fails before its first step. The model takes the drawn list as a parameter, which is the behaviour of earlier Python versions.
- BuildToyBrain takes the drawn lengths as given, within 3..6, and a node sample only for rounds whose length fits. What `random.sample` returns for the other rounds is never used.
- The search stacks hold paths only. The source's `(current, path)` frames always have `current` equal to the last node of `path`, so the frame's node is not stored separately.
- The iteration order of `set(clustering.values())` is arbitrary in the source. `Enumerate` picks some order, and the model proves nothing about which one.
- The networkx internals beyond node and successor order are not modelled. This includes edge attributes other than `weight`, and predecessor lists: predecessors are derived from successor lists.
- The collapse's edge weights are a separate map keyed by cluster pair, not attributes stored on the graph.

## Findings

| source | as written | input that shows it | evidently intended | confidence | as-written member | corrected member |
|---|---|---|---|---|---|---|
| pcnImplementation.py:66 | `len(new_path) <= 3` records only walks of at most 3 nodes, i.e. 1 or 2 edges | the triangle 0 -> 1 -> 2 -> 0: the three-edge walk [0, 1, 2, 0] is never recorded | walks of up to 3 edges, as the doc-comment at line 52 and the reports at lines 88 and 92 ("<=3 edges") say | medium, not executed | Scenarios.ThreeEdgeWalkDropped | PcnMotifs.PcnAnalysisThreeEdges |
