# SSG index model

A Dafny model of the core of `IndexSSG`, the satellite-system-graph index of
an approximate-nearest-neighbour library (`src/index_ssg.cpp`). The index
takes a precomputed k-NN candidate graph and refines it into a sparse,
degree-bounded, angularly diversified graph. It then repairs the graph's
connectivity from a few entry points, optionally repacks it into one buffer
per node, and answers top-K queries with a best-first search.

The model is imperative where the source is. The index is a class
(`Index.IndexSSG`) whose methods update its adjacency lists, entry points
and packed buffer. The edge-row buffer `cut_graph_` is an `array2` of
`SimpleNeighbor` slots. The search pool `retset` and the visited bitsets are
arrays. Every loop of the source is a `while` loop with its invariants. Each
method is proved against a specification function, and the properties the
source relies on are proved about those functions as lemmas:

- `Pool`: the `Neighbor`/`SimpleNeighbor` records, the `-1` sentinel,
  ascending sort, and the rank-returning ordered insertion `InsertIntoPool`.
- `Graphs`: adjacency lists, the two-hop candidate list, and paths and
  reachability.
- `Prune`: the greedy diversified selection shared by `sync_prune` and
  `InterInsert`, and edge rows and their valid prefix. It also holds the
  pruning and reciprocation passes written as functions of the rows.
- `EdgeRows`: the loops over `cut_graph_`, meaning the selection scan, the
  row write, the duplicate scan, the append at the sentinel, `InterInsert`,
  and the row-to-list copy of `Build`.
- `BestFirst`: the best-first loop shared by `Search`, `SearchWithOptGraph`
  and the query overload of `get_neighbors`.
- `Expand`: one root of the connectivity repair `DFS_expand`.
- `Formats`: the index file, the k-NN input file and the packed node layout
  of `OptimizeGraph`, as sequences of 32-bit words.
- `Index`: the class and the two-hop `get_neighbors`, plus the packing loop
  and the helpers of the search entry points.

Distances are opaque. `dist(a, b)` is the distance between two stored
points, and `qdist(v)` is a stored point's distance to the current query or
centroid. Both are natural numbers, because squared L2 distances are never
negative, so the `-1` sentinel can never be a real distance. The cosine test
of the pruner is an opaque predicate `occludes(d(q,p), d(q,r), d(r,p))`
applied to the three numbers the source feeds it. Random seeds and the
shuffled id permutation are inputs.

## Model

| member | source | states |
|---|---|---|
| `Pool.SortBy` | src/index_ssg.cpp:198 | the sorted candidates are ascending by distance and a permutation of the input (same multiset, same length, same members) |
| `Pool.SortByIds` | src/index_ssg.cpp:433 | sorting the scored seeds keeps their ids, each exactly as often as before |
| `Pool.InsertIntoPool` | src/index_ssg.cpp:448-452 | inserting a candidate strictly closer than the L-th keeps the first L slots sorted; the returned rank is below L; entries before the rank are unchanged and no farther; the candidate sits at the rank; the tail shifts up one slot |
| `Graphs.TwoHopMembers` | src/index_ssg.cpp:85-103 | the two-hop list of q has no repeats and holds x exactly when x is not q and some neighbour of q lists x |
| `Graphs.FirstHopFirst` | src/index_ssg.cpp:92-101 | x heads the de-duplicated list of q's first neighbour exactly when q has a neighbour, x is not q, and x occurs in that list with only copies of q before it |
| `Graphs.ReachableMonotone` | src/index_ssg.cpp:899-905 | appending ids to adjacency lists preserves every reachability fact |
| `Prune.Select` | src/index_ssg.cpp:199-222 | the selection starts with the chosen first candidate, has at least one and at most R entries, and is a subsequence of the sorted pool; its ids are distinct and no kept entry is occluded by an earlier one; if it holds fewer than R, every skipped candidate is occluded by a kept entry |
| `Prune.GreedySubsequence` | src/index_ssg.cpp:203-222 | what the scan accepts is a subsequence of the candidates it examined |
| `Prune.GreedyDiversified` | src/index_ssg.cpp:205-221 | every accepted candidate passes the id and occlusion tests against every entry accepted before it |
| `Prune.GreedyComplete` | src/index_ssg.cpp:203-222 | a scan that stops below R has rejected only occluded candidates |
| `Prune.WriteRow` | src/index_ssg.cpp:224-231 | after writing a sentinel-free result into a row, the row's valid prefix is exactly that result |
| `Prune.RowListLength` | src/index_ssg.cpp:359-373 | the list a row stands for has one id per slot before the first sentinel: none if slot 0 is the sentinel, all slots if there is no sentinel |
| `Prune.BuiltListOfEmptyRow` | src/index_ssg.cpp:359-373 | as written, a row whose slot 0 is the sentinel still yields one id, where the row holds no edge |
| `Prune.BuiltListAgrees` | src/index_ssg.cpp:359-373 | as written, the copy loop returns exactly the row's list whenever the row holds at least one edge |
| `Prune.MissingNeighbors` | src/index_ssg.cpp:185-196 | the pool is extended only with q's neighbours whose ids are not already in the pool, each scored by its distance to q; every such neighbour is added |
| `Prune.PruneSelectionShape` | src/index_ssg.cpp:178-222 | sync_prune's result has between 1 and R entries and skips a leading q; it is a subsequence of the sorted extended pool, with distinct and mutually non-occluding ids, each from the pool or q's neighbours |
| `Prune.PruneRowOk` | src/index_ssg.cpp:224-231 | the row sync_prune writes has the selection as its valid prefix (sentinel right after it when shorter than R), non-empty, with distinct ids below nd |
| `Prune.ReciprocatedShape` | src/index_ssg.cpp:241-304 | offering (n, d) to a row: unchanged when n is already in the valid prefix; appended at the first sentinel with the sentinel moved one slot right when the row has room, earlier entries unchanged; otherwise re-selected from the prefix plus the new edge, at most R entries drawn from them; the row stays non-empty with distinct ids |
| `Prune.ReciprocateAll` | src/index_ssg.cpp:237-305 | InterInsert(n), as a fold over n's valid edges in slot order, keeps every row pruned |
| `Prune.ReciprocateKeepsSource` | src/index_ssg.cpp:238-258 | reciprocating n's edges never changes n's own row |
| `Prune.InsertAll` | src/index_ssg.cpp:341-344 | the reciprocation pass over nodes 0..m-1 keeps every row pruned |
| `EdgeRows.OccludedScan` | src/index_ssg.cpp:205-220 | the occlusion loop reports true exactly when some accepted entry has the same id or occludes the candidate |
| `EdgeRows.SelectScan` | src/index_ssg.cpp:199-222 | the selection loop computes `Select` |
| `EdgeRows.WriteRowAt` | src/index_ssg.cpp:224-231 | row q becomes `WriteRow` of its old contents; no other row changes |
| `EdgeRows.DuplicateScan` | src/index_ssg.cpp:245-257 | reports a duplicate exactly when n is in the row's valid prefix, and otherwise returns that prefix |
| `EdgeRows.AppendAtSentinel` | src/index_ssg.cpp:295-304 | the new edge replaces the first sentinel and the sentinel moves one slot right; no other row changes |
| `EdgeRows.ReciprocateRow` | src/index_ssg.cpp:241-304 | row des becomes `Reciprocated` of its old contents and every other row is unchanged |
| `EdgeRows.ReciprocateEdge` | src/index_ssg.cpp:241-304 | the whole buffer changes only at row des |
| `EdgeRows.RowToList` | src/index_ssg.cpp:359-373 | the copy loop of Build returns `BuiltListAsWritten` of the row |
| `EdgeRows.InterInsert` | src/index_ssg.cpp:234-306 | the rows become the fold `ReciprocateAll` over n's valid edges |
| `EdgeRows.InsertAllRows` | src/index_ssg.cpp:341-344 | the second loop of Link leaves the rows equal to `InsertAll` over all nodes |
| `Expand.PushChildren` | src/index_ssg.cpp:885-890 | every child of the popped node ends up flagged; the old queue stays queued and every newly flagged child is enqueued and reachable from the root |
| `Expand.Traverse` | src/index_ssg.cpp:881-891 | the BFS terminates; the flags only grow, every flagged node stays reachable from the root, and at the end every flagged node lists only flagged nodes |
| `Expand.CollectUnflagged` | src/index_ssg.cpp:893-897 | the uncheck set is exactly the unflagged ids, and its first element is the smallest of them |
| `Expand.Attach` | src/index_ssg.cpp:900-905 | the unvisited id is appended to the lowest-numbered flagged node with degree below R; if there is none, nothing changes |
| `Expand.ClosedReach` | src/index_ssg.cpp:881-897 | a set of nodes that list only one another holds every node its members reach, so once the BFS ends, the unflagged nodes are exactly those the root does not reach |
| `Expand.Patch` | src/index_ssg.cpp:899-908 | the patch attaches u exactly as `Attach` does and returns the host (the lowest-numbered flagged node with room, or none); lists only grow and never past R; while every patch so far found a host, u becomes reachable; when one did not, every node the root reaches is full, and that survives later patches; the flagged nodes stay closed under edges except u |
| `Expand.Round` | src/index_ssg.cpp:881-908 | one pass of the outer loop keeps the repair state (grown within R, flagged set closed except for the queue, all reached or the reach full); it flags at least one new node when some node was unflagged, and when none was, every node is flagged |
| `Expand.ExpandFromRoot` | src/index_ssg.cpp:872-909 | one root's repair terminates, only appends ids, and never exceeds R in a grown list; at the end the root reaches every node, or every node it reaches has a full list; in particular a root whose list has room reaches every node |
| `Expand.FullFromGrown` | src/index_ssg.cpp:899-907 | appending within R never touches a full list, so if every node r reaches is full, that stays true after any later patches |
| `Expand.RepairedGrown` | src/index_ssg.cpp:872-909 | what one root's repair leaves behind (it reaches everything, or its reach is full) survives the repairs from later roots |
| `Expand.RepairedRoom` | src/index_ssg.cpp:899-907 | a root whose list still has room after its repair reaches every node |
| `BestFirst.VisitOne` | src/index_ssg.cpp:443-452 | the id is flagged before it is scored; a candidate no closer than `retset[L-1]` leaves the pool as it was (rank L); a closer one is spliced in at the returned rank, after every entry no farther and before the first farther one, with the later entries shifted down and the last dropped |
| `BestFirst.InsertedIds` | src/index_ssg.cpp:448-452 | one visit adds at most the visited id to the pool's ids: the entry pushed off the end is the only one lost |
| `BestFirst.FlagInserted` | src/index_ssg.cpp:448-452 | splicing a closer candidate into the pool keeps it sorted, scored and flagged; every visited node is pooled or no closer than the last entry |
| `BestFirst.VisitAll` | src/index_ssg.cpp:438-454 | after visiting every neighbour of n in list order, the expansion state holds for all of them: each is flagged, the visits form a trace from the old pool, and the pool invariant still holds for n |
| `BestFirst.ExpandNode` | src/index_ssg.cpp:438-454 | expanding a node flags all its neighbours and scores each newly visited one exactly once; the pools it went through form a trace of visits with their ranks, and nk is the smallest rank (L when nothing was inserted); entries before nk are unchanged; the pool's ids come from the old pool or the scored nodes |
| `BestFirst.MinRank` | src/index_ssg.cpp:436-452 | nk starts at L and is lowered to each insertion rank below it: it is at most L and every rank, and it is L or one of the ranks |
| `BestFirst.VisitsSnoc` | src/index_ssg.cpp:443-452 | one more visit extends the trace, lowers nk to its rank when smaller, keeps the entries before the new nk, and adds at most its id to the pool |
| `BestFirst.Seed` | src/index_ssg.cpp:425-433 | the pool is exactly the seeds scored in slot order and sorted by distance, so its ids are the seeds, each as often as it occurs; all are flagged and unexpanded |
| `BestFirst.Step` | src/index_ssg.cpp:435-458 | nk is L when the entry at the cursor was already expanded, and otherwise the smallest rank of that expansion's visits, whose trace is returned; the cursor becomes nk when `nk <= k` and k+1 otherwise; the scored set grows or the cursor moves right; the pool's ids stay drawn from the seeds and the scored nodes |
| `BestFirst.Search` | src/index_ssg.cpp:130-158 | the loop terminates; the final pool is sorted, scored, fully expanded and locally optimal (every neighbour of a pooled node is pooled or no closer than the last entry); its ids are seeds or scored nodes, none more often than it was seeded plus scored; every seed and every scored node is pooled or no closer than the last entry; the scored set has no repeats and no seeds |
| `BestFirst.Finished` | src/index_ssg.cpp:431-458 | with every entry expanded, the pool is locally optimal and every seed and every scored node is pooled or no closer than its last entry |
| `Formats.ListsRoundTrip` | src/index_ssg.cpp:33-58 | reading the per-node records back gives the lists that were written |
| `Formats.SaveLoadRoundTrip` | src/index_ssg.cpp:25-58 | Load applied to Save's words restores width, the entry points in order and every list in order |
| `Formats.DecodeListsAt` | src/index_ssg.cpp:50-58 | one record at word pos is a degree k followed by k ids, or a short last record zero-filled |
| `Formats.KnnCountWhole` | src/index_ssg.cpp:67-70 | `fsize/(k+1)/4` is the number of whole (k+1)-word records in the file |
| `Formats.DecodeKnn` | src/index_ssg.cpp:73-81 | Load_nn_graph yields `floor(words/(k+1))` lists of exactly k ids |
| `Formats.KnnRoundTrip` | src/index_ssg.cpp:63-83 | reading a k-NN file yields its lists, each with the leading word of its record skipped |
| `Formats.RecordsDisjoint` | src/index_ssg.cpp:712-713 | node blocks at different indices do not overlap |
| `Formats.OffsetProduct` | src/index_ssg.cpp:713 | block i starts at `i * node_size` |
| `Formats.DegreeOffsetInBytes` | src/index_ssg.cpp:552-554 | the byte address `node_size * n + data_len` is the degree word of node n, with `node_size = (dim+1)*4 + (width+1)*4` |
| `Formats.PackedReadBack` | src/index_ssg.cpp:712-725 | in the packed buffer, node n's block holds its vector words, then its degree at `+data_len`, then its ids in order |
| `Formats.PackedGraphValid` | src/index_ssg.cpp:697-727 | packing a valid graph with degrees at most width gives a buffer from which search reads back valid lists |
| `Index.CandidatePoolShape` | src/index_ssg.cpp:85-103 | the two-hop pool has distinct ids, never q; each is listed by a neighbour of q and scored by its distance to q; a pool shorter than L holds every such id; with L = 0 it is exactly the first id other than q in the list of q's first neighbour, or empty when there is none |
| `Index.CandidatePoolFirst` | src/index_ssg.cpp:92-101 | with L = 0 both `pool.size() >= L` tests pass at once: the pool holds at most one id, and that id is the first one other than q in the list of q's first neighbour |
| `Index.Candidates` | src/index_ssg.cpp:85-103 | the scan of get_neighbors(q), with both break tests and any L including 0, computes `CandidatePool` |
| `Index.ScanList` | src/index_ssg.cpp:92-100 | the inner scan flags each new id, appends it to the pool, and stops once the pool holds L entries, or one entry when L = 0; when it does not stop early it has read the whole list |
| `Index.ReadRecords` | src/index_ssg.cpp:49-58 | the record loop of Load appends exactly `DecodeLists` of the remaining words |
| `Index.ExtendCandidates` | src/index_ssg.cpp:185-196 | the pool becomes `ExtendedPool`, the pool followed by q's missing neighbours |
| `Index.MarkPool` | src/index_ssg.cpp:185-188 | the bitset marks exactly the pool's ids |
| `Index.PruneInto` | src/index_ssg.cpp:178-232 | row q becomes the written selection and is pruned; no other row changes |
| `Index.PruneRows` | src/index_ssg.cpp:326-339 | the first loop of Link leaves every row equal to its pruned row |
| `Index.PrunedRow` | src/index_ssg.cpp:330-331 | a node with a neighbour other than itself always gets a pruned row |
| `Index.RowListsShape` | src/index_ssg.cpp:359-373 | pruned rows become a valid graph with non-empty, repeat-free lists of at most R ids |
| `Index.SearchSeeds` | src/index_ssg.cpp:419-423 | the seeds are the entry points followed by the remaining random ids |
| `Index.FirstIds` | src/index_ssg.cpp:460-462 | the output is the ids of `retset[0..K)` |
| `Index.AnswerOfResult` | src/index_ssg.cpp:460-462 | the first K ids of a finished pool are stored ids in ascending distance to the query, each a seed or a scored node and none more often than it was seeded plus scored; every seed and scored node is among them or no closer than the K-th; the first is no farther than any seed or any of its own neighbours |
| `Index.TopKAll` | src/index_ssg.cpp:460-462 | every seed and every scored node is among the first K ids of a finished pool or no closer than the K-th |
| `Index.ClosestFound` | src/index_ssg.cpp:174-175 | the first entry of a finished search is no farther than any seed and no farther than any of its own neighbours |
| `Index.PackNodes` | src/index_ssg.cpp:708-725 | the copy loop of OptimizeGraph produces `Pack` of the vectors and lists |
| `Index.IndexSSG.Save` | src/index_ssg.cpp:25-39 | Save emits `width`, `n_ep`, the entry points, then each node's degree and ids |
| `Formats.LoadIndex` | src/index_ssg.cpp:41-58 | a stream that ends inside the header keeps the old width when it holds no word, reads n_ep as 0 when it holds one, and resizes eps_ to n_ep and overwrites only the entry points it holds, appending no record; a complete header decodes as `DecodeIndex` |
| `Index.IndexSSG.Load` | src/index_ssg.cpp:41-58 | Load sets width and eps_ as `LoadIndex` says from the old values and the stream, and appends the decoded lists to the graph; a short stream appends nothing |
| `Index.IndexSSG.LoadNNGraph` | src/index_ssg.cpp:63-83 | the graph becomes the decoded k-NN lists |
| `Index.IndexSSG.GetNeighbors` | src/index_ssg.cpp:85-103 | returns the two-hop candidate pool of q, for every L including 0 |
| `Index.IndexSSG.InitGraph` | src/index_ssg.cpp:161-176 | the navigating node is the first entry of the final pool of a search from the seeds towards the centroid: that pool has L entries and meets `Outcome` (sorted, expanded, locally optimal, drawn from the seeds and scored nodes, no closer node left out), so the node is no farther than any seed, scored node or neighbour of its own |
| `Index.IndexSSG.Search` | src/index_ssg.cpp:411-463 | requires `eps_.size() < L`; the seeds start with the entry points; the final pool is sorted, expanded, locally optimal and drawn from the seeds and the scored nodes; the answer is its first K ids: K stored ids in ascending distance, none more often than seeded plus scored, every seed and scored node among them or no closer than the K-th, the first no farther than any seed or any of its neighbours |
| `Index.IndexSSG.SearchWithOptGraph` | src/index_ssg.cpp:465-695 | the same search and the same guarantees on the answer, over the neighbour lists read from the packed buffer's degree and id words |
| `Index.IndexSSG.OptimizeGraph` | src/index_ssg.cpp:697-727 | the buffer is the packed layout of the old lists and a valid packed graph; every adjacency list is released |
| `Index.IndexSSG.SyncPrune` | src/index_ssg.cpp:178-232 | row q gets the written selection and is pruned, width becomes R, and no other row changes |
| `Index.IndexSSG.Link` | src/index_ssg.cpp:308-346 | prune every node, then reciprocate every node, sequentially; the rows equal `LinkRows` and every row is pruned |
| `Index.IndexSSG.ListsFromRows` | src/index_ssg.cpp:357-373 | list i is the as-written copy of row i |
| `Index.IndexSSG.Finish` | src/index_ssg.cpp:357-375 | the lists grow from the rows' lists, stay valid, within R, and non-empty; every entry point used as a root reaches every node or has a full reach; one whose list has room reaches every node |
| `Index.IndexSSG.DfsExpand` | src/index_ssg.cpp:857-911 | `eps_` gains the first n_try ids of the permutation (distinct if the permutation is); lists only grow and never past R; every root reaches every node or has a full reach, later roots' patches keep that for earlier ones, and a root whose list has room reaches every node |
| `Index.IndexSSG.Build` | src/index_ssg.cpp:348-409 | the whole build: the navigating node is the first entry of init_graph's final search pool over the k-NN lists, a pool meeting `Outcome`; pruned and reciprocated rows, lists, connectivity repair; the degree bound R and valid ids; every root reaches every node or has a full reach, and a root with room reaches every node |

## Left out

- Floating point: the cosine threshold, `cos_ij`, the centroid, `norm` and `compare` are left out. Distances are opaque natural numbers and occlusion is an opaque predicate.
- The hash-guided search accelerator (`GenerateHashFunction`, `GenerateHashValue`, `LoadHash*` and the `THETA_GUIDED_SEARCH` blocks): it is feature-gated and uses SIMD intrinsics. `SearchWithOptGraph` is modelled without it.
- OpenMP parallelism and locks: Link runs phase 1 over all nodes and then phase 2 over all nodes, sequentially, with locks as no-ops. The lost-update race between InterInsert's unlocked read and its locked write cannot arise in this model. The parallel roots of `DFS_expand` run one after another.
- `strong_connect`, `DFS`, `findroot` and `check_edge`: the source disables this path as buggy.
- Profiling counters, prefetch hints and statistics printing: they are observability only, apart from the fault in the Load line below.
- Index.IndexSSG.Load: the average degree it prints divides by nd_ (src/index_ssg.cpp:59). With nd_ = 0 that is a division by zero, a fault the model does not reproduce: its Load completes.
- Stream mechanics: files are sequences of whole 32-bit words, so a byte count that is not a multiple of four is not modelled.
- Randomness: `GenRandom`, `rand` and `random_shuffle` are replaced by input sequences.
- Index.IndexSSG.Search: the seeds are assumed to be below nd, as `GenRandom` produces. In the query overload of `get_neighbors` (src/index_ssg.cpp:130-158), the `id >= nd_` skip and the `++L` that depends on it are therefore dead code and are not modelled.
- Index.IndexSSG.SearchWithOptGraph: the same assumption on the seeds, so the `id >= nd_` skip and the recount of L (src/index_ssg.cpp:488-503) are not modelled either.
- Pool.InsertIntoPool: its definition is not part of this model, because it lives in a header outside `src/index_ssg.cpp`. It is modelled by its contract (linear rank search, tail shift, rank returned) and does not check for duplicate ids.
- Pool.SortBy: `std::sort` leaves the order of equal distances unspecified. The model keeps input order among them.
- Index.IndexSSG.OptimizeGraph: vector words are inputs, and the unused id slots of a block are zero here where the source leaves them uninitialised.
- Expand.ExpandFromRoot: after a failed patch the source moves on regardless. For that case the contract claims only that every node the root reaches has a full list, not which of the later patches make nodes reachable.
- Index.IndexSSG.InitGraph: it requires L >= 1, and so do Build and `BestFirst.Search`, whose search needs a non-empty pool. With L = 0, init_graph searches from an empty pool and reads `tmp[0]`, the one default-constructed entry of `retset`. That entry's id is set by the Neighbor type, which is not part of this model. The two query searches need L >= 1 anyway, because they assert `eps_.size() < L` (src/index_ssg.cpp:420, 482).
- Index.IndexSSG.Build: it requires every node of the k-NN graph to list some node other than itself. The source is undefined only when a candidate pool is empty or holds q alone, since `pool[start]` then reads past the end. A list made only of copies of q, such as `[q, q]`, is also excluded, although the source handles it: the pool becomes `[q, q]`, `start` becomes 1, and q is written as its own neighbour.

## Findings

| source | as written | input that shows it | evidently intended | confidence | as-written member | corrected member |
|---|---|---|---|---|---|---|
| src/index_ssg.cpp:359-373 | `pool_size` keeps the index of the last valid slot and then adds one, so a row whose slot 0 is the sentinel yields one stale id | a row `[(5, -1), (2, 0)]` yields `[5]` instead of `[]` | the list holds exactly the ids before the first sentinel | not executed; unreachable after Link, because every pruned row is non-empty (`Prune.BuiltListAgrees`) | `Prune.BuiltListOfEmptyRow` | `Prune.RowListLength` |
