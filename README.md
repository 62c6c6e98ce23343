# Barabási–Albert generator with a degree bin

This project models, in Dafny, the core of `Functions.py`. That core grows a Barabási–Albert preferential-attachment graph, using a pre-allocated *degree bin*: an array of node identifiers in which every node occurs once per unit of its degree.

- **The seed.** `seed(m)` is the complete graph on the nodes `0 .. m`.
- **The bin.** `make_list(N, m)` allocates a zeroed bin of length `m*(m+1) + 2*m*(N-m-1)`. It then writes `m` copies of each seed node into the first `m*(m+1)` slots, in order.
- **One step.** `BA_step` and `BA_test_step` do the same work for step `t`:
  - They add node `n = m+t+1`.
  - They draw `m` distinct targets from the used prefix `degree_bin[:m*(m+1) + 2*m*t]`. Each draw calls `random.choice` on the current array and then removes every copy of the drawn node.
  - They join `n` to each target.
  - They write the targets, then `m` copies of `n`, into the next `2m` slots. `BA_test_step` also returns the targets.
- **The generator.** `gen_BA(m, N, dist)` performs the step for each `t in range(N-m-1)`. With `dist` it also returns `np.bincount` of the bin.
- **The plain test loop.** `test2_BA(m, N)` performs the same loop as `gen_BA`. Before each step it appends to `mu_k` the mean of `np.bincount` of the used prefix, and it returns `mu_k`. The model returns each mean as its numerator and denominator.
- **The instrumented loop.** `test_BA(m, N)` performs the same loop and records series along the way. Only its integer series are modelled:
  - the node and edge counts before the first step and after each step;
  - for each step, the count sum of the used prefix and how often each drawn node occurs in that prefix.

The modules:
- `Seqs` (`seqs.dfy`): sequence and set helpers.
- `Graphs` (`graphs.dfy`): the graph as a class with a node set and an edge set. It stands in for the networkx object and provides `add_node`, `add_edge` and the complete seed graph.
- `DegreeBin` (`degree_bin.dfy`): the bin as values. This covers the seed layout, the sampling specification `Draw`, numpy's mask filter `Filter`, and `np.bincount`.
- `BarabasiAlbert` (`barabasi_albert.dfy`): `make_list`, the steps, `gen_BA`, `test_BA` and `test2_BA`, written as methods over a `Graph` object and an `array<nat>` bin.

How the model is built:
- **Randomness.** It is an input. Each call to `random.choice(arr)` consumes one caller-supplied number `r` and picks `arr[r % |arr|]`, so every element can be the outcome. `gen_BA`, `test_BA` and `test2_BA` take one sequence of `m` numbers per step.
- **The central fact.** `Invariant` holds before every step: each node's count in the used prefix equals its degree. `StepPreserves` proves that a step keeps it. From it follow three results:
  - sampling always finds `m` distinct targets;
  - the bin is filled exactly at the end;
  - the final histogram holds the degrees.

The code does not validate its parameters. The docstrings speak of `m` edges per new node and `N` nodes in all, but nothing rejects other values, and the model follows what the code does with them:
- **No parameter check.** The code never checks `m >= 1` or `N > m+1`.
- **m = 0.** With `m = 0` it builds a graph with no edges and does not fail.
- **N = m+1.** With `N = m+1` it returns the seed.
- **N ≤ m.** With `m >= 1` and `N <= m`, `make_list` fails in one of two ways:
  - `np.zeros` rejects a negative length: `NegativeLength`;
  - otherwise the seed loop writes past the end of the array: `IndexOutOfRange`.
- **Empty pool.** `random.choice` on an empty array fails: `EmptyChoice`. The step is proved never to reach this case from a consistent state.

## Model

| member | source | states |
|---|---|---|
| DegreeBin.Filter | Functions.py:65 | `trimmed[trimmed != node]` keeps every other element: the multiset is the input's with the node's count set to 0, and an element remains exactly when it was present and differs from the node |
| DegreeBin.Draw | Functions.py:59-65 | a successful sampling gives one target per draw; the targets are pairwise distinct and each is taken from the pool |
| DegreeBin.DrawSucceeds | Functions.py:62-65 | sampling succeeds exactly when the pool holds at least as many distinct nodes as there are draws |
| DegreeBin.SeedLayoutCounts | Functions.py:35-37 | the seed layout of k nodes has k*m slots; each node below k occurs m times and no other value occurs |
| DegreeBin.SeedLayoutSlots | Functions.py:35-37 | slot p of the seed layout holds the node i with i*m <= p < i*m + m, i.e. slot i*m + j holds i |
| DegreeBin.BinCount | Functions.py:88 | `np.bincount`: the length is the largest value plus one (0 for an empty input), and entry v is the number of copies of v |
| DegreeBin.SumBinCount | Functions.py:115-116 | the counts of `np.bincount` add up to the length of the counted sequence |
| Graphs.Graph.Complete | Functions.py:16-17 | the seed has the nodes 0 .. m and the edges of the complete graph on them |
| Graphs.Graph.AddNode | Functions.py:51 | `add_node` adds the node and leaves the edges unchanged |
| Graphs.Graph.AddEdge | Functions.py:68 | `add_edge` adds both ends as nodes and the undirected edge between them |
| Graphs.CompleteEdgesAre | Functions.py:16-17 | the complete graph on 0 .. k-1 holds exactly the pairs lo < hi < k |
| Graphs.CompleteDegrees | Functions.py:16-17 | in the complete graph on 0 .. k-1 every node has degree k-1 and there are k(k-1)/2 edges |
| Graphs.StarBelow | Functions.py:67-68 | joining a node to distinct targets below it adds one edge per target, each with the node as its upper end |
| Graphs.StarDegrees | Functions.py:67-68 | joining a new node to distinct old targets adds that many new edges; each target's degree rises by one, the new node gets degree equal to the number of targets, and every other degree is unchanged |
| BarabasiAlbert.BinLengthCoversSeed | Functions.py:33-37 | the bin's length covers the seed's m*(m+1) slots exactly when m = 0 or N >= m+1 |
| BarabasiAlbert.MakeList | Functions.py:32-39 | fails exactly when 1 <= m and N <= m (negative length, else a write past the end); otherwise the bin is a fresh array of the stated length whose first m*(m+1) slots are the seed layout and whose other slots are 0 |
| BarabasiAlbert.FillSeed | Functions.py:35-37 | the seed loop turns a zeroed bin into the seed layout in its first m*(m+1) slots and leaves the rest zero |
| BarabasiAlbert.UsedValue | Functions.py:50 | the used prefix before step t has m*(m+1) + 2*m*t slots |
| BarabasiAlbert.UsedEdges | Functions.py:50 | the used prefix before step t has two slots per edge of the graph then |
| BarabasiAlbert.FinalStepFillsBin | Functions.py:33 | the used prefix after the last of the N-m-1 steps is the whole bin |
| BarabasiAlbert.SeedInvariant | Functions.py:16-39 | the seed graph and the seed layout satisfy the invariant before step 0: nodes 0 .. m, no loops, each node's count in the prefix is its degree, two slots per edge, every degree at least m |
| BarabasiAlbert.SeedEntries | Functions.py:35-37 | every slot of the seed layout of k nodes holds one of the nodes 0 .. k-1 |
| BarabasiAlbert.EnoughValues | Functions.py:60-65 | under the invariant the used prefix holds at least m distinct nodes |
| BarabasiAlbert.DrawnTargets | Functions.py:59-65 | under the invariant sampling succeeds and gives m distinct old nodes taken from the used prefix |
| BarabasiAlbert.StepPreserves | Functions.py:48-72 | a step keeps the invariant: the m new edges from node m+t+1 are new and not loops, the nodes become 0 .. m+t+1, and after the 2m appended slots each count is again the degree |
| BarabasiAlbert.StepConsistent | Functions.py:60-72 | the same for the whole bin: after the writes into slots used .. used+2m-1, the new used prefix and the grown graph satisfy the invariant before step t+1 |
| BarabasiAlbert.Sample | Functions.py:59-65 | the sampling loop returns exactly the targets `Draw` specifies, or fails when the array runs empty |
| BarabasiAlbert.JoinTargets | Functions.py:67-69 | the edge loop adds the targets as nodes and the edges to them, and writes the targets into the slots from the used length on; nothing else changes |
| BarabasiAlbert.WriteCopies | Functions.py:71-72 | writes m copies of the new node into the m slots after the targets; the other slots are unchanged |
| BarabasiAlbert.AttachStep | Functions.py:48-72 | the step adds node m+t+1 and, with the drawn targets, the star of edges to them; the bin becomes the old used prefix, the targets, m copies of the new node, and the old rest. On an empty choice only the node has been added |
| BarabasiAlbert.TestStep | Functions.py:132-158 | `BA_test_step`: the same new state, and the targets are returned; from a consistent graph and bin it succeeds, adds m new edges and leaves them consistent before step t+1 |
| BarabasiAlbert.Step | Functions.py:48-72 | `BA_step`: the same new state, with no targets returned; from a consistent state it succeeds and keeps consistency |
| BarabasiAlbert.GenBA | Functions.py:79-91 | fails exactly when make_list does, with its error; otherwise the graph has the nodes 0 .. N-1 (for N >= m+1) and m(m+1)/2 + m(N-m-1) edges, each joining two different nodes of the graph; it contains the complete graph on 0 .. m, every later node has exactly m edges to older nodes, and every degree is at least m. With dist the histogram exists and lists each node's degree |
| BarabasiAlbert.FinalState | Functions.py:84-89 | after all steps the graph has m+steps+1 nodes and is as GenBA promises; with dist the full bin's `np.bincount` lists exactly the degrees of the nodes, and each is at least m |
| BarabasiAlbert.FinalGraph | Functions.py:84-85 | under the invariant after all steps, with the seed graph present and m lower edges at each later node, the nodes are 0 .. m+steps, there are m(m+1)/2 + m*steps edges, each edge joins two of the nodes, and every degree is at least m |
| BarabasiAlbert.StepAttaches | Functions.py:48-72 | a step keeps the attachment shape: the seed's complete graph stays, the new node m+t+1 gets exactly m edges to older nodes, and no earlier node gains a lower edge |
| BarabasiAlbert.LowerEdgesGrow | Functions.py:67-68 | adding m edges whose upper end is the new node n to edges that lie below n gives n exactly m lower edges, keeps every other node's lower edges and keeps the seed graph |
| BarabasiAlbert.HistogramLength | Functions.py:88 | under the invariant `np.bincount` of the used prefix has one entry per node (none when m = 0, where the prefix is empty) |
| BarabasiAlbert.PrefixMax | Functions.py:88 | for m >= 1 the newest node is the largest entry of the used prefix |
| BarabasiAlbert.PrefixHistogram | Functions.py:88 | under the invariant entry v of `np.bincount` of the used prefix is the degree of node v, and at least m |
| BarabasiAlbert.EdgeCount | Functions.py:84-85 | under the invariant before step t there are the seed's edges plus m per step |
| BarabasiAlbert.EdgesAtValue | Functions.py:84-85 | that count is m(m+1)/2 + m*t |
| BarabasiAlbert.OccurrencesAreDegrees | Functions.py:120-121 | under the invariant `[t.count(l) for l in lucky_nodes]` has one entry per drawn node, and that entry is the node's degree |
| BarabasiAlbert.PrefixSum | Functions.py:113-116 | the counts of the used prefix add up to twice the edge count, the numerator and denominator of `norm` |
| BarabasiAlbert.LuckyOccurrences | Functions.py:119-121 | sampling succeeds, and each drawn node occurs in the used prefix once per unit of its degree, so at least m times |
| BarabasiAlbert.RoundFacts | Functions.py:113-124 | what one iteration records: the edge count before the step, a prefix count sum equal to twice it, the bound on the drawn nodes' counts, and the node and edge counts after the step |
| BarabasiAlbert.TestRound | Functions.py:113-124 | one iteration of test_BA's loop: the count sum of the used prefix is twice the edge count; the counts are `t.count` of the drawn nodes in the prefix before the step, each at least m; the step adds node m+t+1, the drawn nodes and the star of edges to them, and writes the targets and m copies of the new node after the used prefix; afterwards there are m+t+2 nodes and m more edges, with the graph and bin consistent for step t+1 |
| BarabasiAlbert.RecordNext | Functions.py:121-124 | appending one iteration's entries to the four series of t steps gives the series of t+1 steps |
| BarabasiAlbert.TestBA | Functions.py:98-126 | fails exactly when make_list does, with its error; otherwise after s steps the recorded node count is m+1+s, the edge count is m(m+1)/2 + m*s, each recorded count sum is twice the edge count then, and each step's drawn-node counts are m values, each at least m |
| BarabasiAlbert.Mean | Functions.py:171-174 | the mean recorded before step t: the counts of the used prefix add up to twice the edge count then, m(m+1) + 2mt, and there is one count per node, m+t+1 (none when m = 0) |
| BarabasiAlbert.MeansNext | Functions.py:174 | appending the mean before step s to the means of steps 0 .. s-1 gives the means of steps 0 .. s |
| BarabasiAlbert.Test2BA | Functions.py:164-177 | `test2_BA` fails exactly when make_list does, with its error; otherwise every step succeeds and `mu_k` has one entry per step, entry s being the degree sum 2(m(m+1)/2 + ms) over the m+s+1 nodes (over 0 when m = 0) |

## Left out

- The floating-point series of `test_BA` (`norm`, `k_predict`, `k_meas`, lines 116-118 and 122) are left out. The model records the integer inputs of `norm` and `k_meas` instead: the count sum, twice the edge count, and the drawn nodes' counts. For m = 0 those Python divisions divide by zero and give nan; this is also not modelled.
- The sum of squared counts `k_squared` (line 117), the numerator of `k_predict`, is not recorded.
- The probability distribution of `random.choice` is not modelled: each draw is a caller-supplied number, and the model proves what holds for every outcome.
- The bin's `uint16` element type is not modelled: the bin holds naturals, and `GenBA`, `TestBA` and `Test2BA` require N <= 65536, so every node identifier fits the element type and no entry wraps around.
- networkx internals are not modelled: the graph is a node set and an edge set, and `len(G.nodes)` and `len(G.edges)` are their sizes.
- The commented-out index-sampling variant (lines 53-58 and 137-142) is not modelled.
- Test2BA: each entry of `mu_k` is returned as its numerator and denominator, not as the floating-point quotient `np.mean` computes (line 174), because floating point is not modelled. For m = 0 the counted prefix is empty and `np.mean` gives nan; the model returns the pair (0, 0) there.
- Negative m is not modelled: m is a natural number. For such m every loop that writes the bin (lines 35-37, 62, 67 and 71) runs zero times. For m = -1 the length is -2N: with N >= 1 `np.zeros` rejects it before any step, and with N <= 0 no step runs and the result is `nx.complete_graph(0)` with an all-zero bin. For m <= -2 the result depends on what `nx.complete_graph` does with a negative node count, which is not part of this model.
- MakeList: neither m nor N is bounded. For m >= 65536 some seed node identifiers would not fit the `uint16` bin and would wrap around; the model keeps them as naturals. In GenBA, TestBA and Test2BA the bound N <= 65536 makes such an m a failure case of make_list, so no wrap-around is reached there.
- MakeList: an `IndexError` in the seed loop happens after some slots have been written, but the array is then lost with the exception, so the model fails before allocating.
- MakeList: the slot-by-slot form of the seed layout (slot i*m + j holds i) is not part of its contract; it is proved separately as `DegreeBin.SeedLayoutSlots` about the function the contract names.
- Line 120 of `test_BA` rebinds the loop variable `t`. The next iteration takes `t` from `range` again, so this has no effect and gets no counterpart.
