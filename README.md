# Dijkstra's shortest paths over an indexed min-heap, in Dafny

This project models the two cooperating parts of a small shortest-path program.

- **The indexed binary min-heap `MinPQ`** (`min_pq_special.py`). It keeps item keys in a bounded array `arr` in heap order. A reverse index `keys` maps a key to its slot, or to `None`. That index gives a constant-time `contains` and lets `change_key` sift up from a known slot once the caller has lowered the item's priority.
- **The engine `DijkstraSP` with its `Vertex` records** (`dijkstra_sp.py`). It keeps one adjacency row per vertex, indexed by neighbour key. It also keeps run state per vertex: `dist`, which starts at `sys.maxsize`, and `predecessor`, which starts at `None`. The engine covers the relaxation loop `dijkstra_sp`/`relax` and `shortest_path`, which walks the predecessor chain from the destination back to the source.

## How it is modelled

A vertex is identified with its key. The engine is a class with one array per vertex field:

- `present` says whether `vertices[k]` is set;
- `vals` holds `val`;
- `edges` holds the row of optional weights;
- `dist` holds the distance, with `INF` standing for `sys.maxsize`;
- `pred` holds the predecessor key, with `NIL` (-1) standing for `None`.

The heap stores vertex keys, and its `keys` index uses `NONE` (-1) for `None`. Python compares vertices by `dist` (`Vertex.__lt__`). Here every heap operation that compares instead receives the engine's `dist` array and reads priorities from it. The engine lowers `dist[v]` in place before it calls `change_key`, exactly as the Python code does.

The modules are:

- `Outcomes` holds the error cases and the result types.
- `HeapIndex` holds the slot arithmetic: `index_parent`, `index_left`, `index_right`, `index_smaller`.
- `HeapOrder` defines heap order and the states in the middle of a sift.
- `HeapKeys` holds the invariant of the reverse index.
- `MinPriorityQueue` is the queue class.
- `Graph` covers rows, paths, path weights and the hop list of `shortest_path`.
- `Dijkstra` is the engine class and the invariants of a run.

These are the main results:

- **Every queue operation.** Each one keeps heap order and the index invariant. It changes the multiset of queued keys exactly as intended, Within the key range the model admits (see "## Left out"), each one fails exactly when the code raises. `Full`, `Empty` and `KeyAbsent` cover the cases the methods' docstrings name. `IndexOutOfRange` covers `contains` and `change_key` given the key one past the index's end, and `insert` given a key past it.
- **Whatever state a run starts from,** `dijkstra_sp`:
  - terminates;
  - never hits a queue error, so the `insert` never overflows and `change_key` always finds its key;
  - only ever lowers distances;
  - leaves no edge out of a settled vertex that could still lower a distance.
- **From the reset state,** a run leaves every edge relaxed. Every reached vertex other than the source is also linked to a predecessor that was settled before it.
- **The result of `shortest_path`, from the reset state (as `Query` does).** Its distance is at most the weight of every path from the source to the destination. When the distance is finite, it is the weight of a concrete path. The hops returned are that path's edges in destination-to-source order, and their weights add up to the distance.
- **Repeated queries.** Two reset-then-query rounds for the same pair give the same distance.

Behaviour of the code worth noting:

- `contains` can fail. Its guard admits one key past the end of the index. `change_key` calls it, and fails the same way on that key.
- `heapify` does not index every key.
- `shortest_path` returns its hops in destination-to-source order: the walk appends each hop as it steps back from the destination.
- Item keys range over `[0, capacity]`, because the index has `capacity + 1` entries.

## Model

| member | source | states |
|---|---|---|
| HeapIndex.Parent | min_pq_special.py:166-173 | The parent of slot i > 0 lies in [0, i); the root's parent is -1 because `//` floors. |
| HeapIndex.Left | min_pq_special.py:175-182 | The left child of slot i >= 0 lies after i, and its parent is i. |
| HeapIndex.Right | min_pq_special.py:184-191 | The right child is the left child plus one, and its parent is i. |
| HeapIndex.ChildOfParent | min_pq_special.py:166-191 | A slot whose parent is p is p's left or right child. |
| HeapIndex.AncestorBounds | min_pq_special.py:136-144 | Slots on the path from i to the root lie in [0, i], and the root is on every such path. |
| HeapIndex.AncestorParent | min_pq_special.py:143-144 | When sift-up moves to the parent, the new slot stays on the root path of the start slot. |
| HeapIndex.AncestorChild | min_pq_special.py:153-163 | When sift-down moves to a child, the new slot stays in the subtree of the start slot. |
| HeapIndex.IndexSmaller | min_pq_special.py:193-207 | Returns left or right. The result is past `end` exactly when left is. It is left when only the right child is past `end`. Otherwise it has the least priority of the two, and a tie goes to the right. |
| HeapOrder.Swap | min_pq_special.py:138 | Swapping two slots exchanges their contents and leaves every other slot alone. |
| HeapOrder.SwapPermutes | min_pq_special.py:138 | A swap inside the occupied slots permutes them and leaves the rest unchanged. |
| HeapOrder.RootIsLeast | min_pq_special.py:90 | In heap order the root's priority is at most that of any occupied slot. |
| HeapOrder.RootIsLeastAll | min_pq_special.py:99-108 | The root's priority is at most every queued priority. |
| HeapOrder.SiftUpStep | min_pq_special.py:137-144 | Swapping a slot that is smaller than its parent moves the sift-up state one level up. |
| HeapOrder.SiftUpDone | min_pq_special.py:137 | When the loop guard fails (root reached, or not smaller than the parent), full heap order holds. |
| HeapOrder.SiftDownStep | min_pq_special.py:155-163 | Swapping with the chosen child (ties included) moves the sift-down state one level down. |
| HeapOrder.SiftDownDone | min_pq_special.py:152-157 | When there is no child, or the slot is strictly below the chosen child, the subtree is in heap order. |
| HeapOrder.LowerPriority | min_pq_special.py:69-79 | Lowering the priority of the key in slot j of a heap leaves exactly the state `shift_up(j)` repairs. |
| HeapOrder.PriorityOfAbsent | min_pq_special.py:46-58 | Changing the priority of a key that is not queued keeps heap order. |
| HeapOrder.AppendOrdered | min_pq_special.py:55-58 | Appending a key to a heap gives the state `shift_up` starts from at the new slot. |
| HeapOrder.RemoveRootOrdered | min_pq_special.py:93-96 | Moving the last key to the root gives the state `shift_down(0, n-2)` starts from. |
| HeapOrder.LeavesOrdered | min_pq_special.py:39-40 | Every slot past `index_parent(end)` is a leaf, so the subtrees heapify starts from are in order. |
| HeapOrder.StartSiftDown | min_pq_special.py:42-43 | With the subtrees below it in order, slot idx is in the state `shift_down` starts from. |
| HeapOrder.SwapOnPath | min_pq_special.py:138 | A sift-up swap changes only slots on the root path of the start slot. |
| HeapOrder.SwapInSubtree | min_pq_special.py:158 | A sift-down swap changes only slots in the subtree of the start slot. |
| HeapKeys.EmptyIndex | min_pq_special.py:21 | An all-`None` index is valid for any distinct in-range keys and marks nothing stale. |
| HeapKeys.SwapMembers | min_pq_special.py:138 | A swap queues the same keys. |
| HeapKeys.SwapDistinct | min_pq_special.py:138 | A swap keeps the queued keys distinct. |
| HeapKeys.SwapSlots | min_pq_special.py:139-142 | Re-indexing both swapped keys keeps every queued key indexed at its slot or unindexed, and keeps a complete index complete. |
| HeapKeys.SwapAbsent | min_pq_special.py:139-142 | A swap with re-indexing keeps unqueued keys unindexed or at 0, and keeps the same stale keys. |
| HeapKeys.SwapIndexing | min_pq_special.py:138-142 | The swap-and-reindex of a sift step keeps the index invariant and the stale keys, and keeps a complete index complete. |
| HeapKeys.IndexSlot | min_pq_special.py:42 | Indexing the key of one occupied slot keeps the invariant and the stale keys, and touches no other slot's entry. |
| HeapKeys.IndexSlotKeeps | min_pq_special.py:42 | Indexing a non-leaf slot leaves the entries of the leaf keys as they were. |
| HeapKeys.AppendIndexing | min_pq_special.py:55-57 | Appending key x with `keys[x] = n` gives a valid index over n+1 slots with x no longer stale. |
| HeapKeys.RemoveOnlyIndexing | min_pq_special.py:90-95 | Removing the only item leaves its key indexed at slot 0, so it becomes stale. |
| HeapKeys.RemoveRootSlots | min_pq_special.py:93 | Moving the last key to the root removes exactly one copy of the old root from the queued keys. |
| HeapKeys.RemoveRootIndexing | min_pq_special.py:90-95 | del_min's index updates on a queue of two or more items keep the index invariant and the stale keys, and unqueue the old root. |
| MinPriorityQueue.StrictChild | min_pq_special.py:156 | In a strictly ordered array every child's priority is strictly above its parent's. |
| MinPriorityQueue.MinPQ.constructor | min_pq_special.py:16-21 | A new queue is empty, its index is all `None`, and nothing is stale. |
| MinPriorityQueue.MinPQ.FromArray | min_pq_special.py:22-27 | The queue takes over the array, full to capacity, with the same keys in heap order. On an already strictly ordered array nothing moves and the keys in leaf slots stay unindexed. |
| MinPriorityQueue.MinPQ.FromArrayIndexed | min_pq_special.py:22-27 | Corrected bulk construction: the same keys in heap order, with every queued key indexed at its slot. |
| MinPriorityQueue.MinPQ.IndexAll | min_pq_special.py:22-27 | Afterwards every queued key is indexed at its slot. |
| MinPriorityQueue.MinPQ.Exchange | min_pq_special.py:138-142 | Swaps two slots and points both keys' index entries at their new slots. The queued multiset and a complete index are kept. |
| MinPriorityQueue.MinPQ.ShiftUp | min_pq_special.py:131-144 | From the sift-up state at idx it restores heap order. It keeps the queued multiset and changes only slots on the path from idx to the root. |
| MinPriorityQueue.MinPQ.ShiftDown | min_pq_special.py:146-164 | From the sift-down state at idx it orders the subtree of idx within [0, end]. It keeps the multiset and changes only that subtree. A strictly ordered queue is left untouched. |
| MinPriorityQueue.MinPQ.Heapify | min_pq_special.py:36-44 | Puts the queued keys in heap order, keeping their multiset. On a strictly ordered array nothing moves and the leaf keys' index entries are unchanged. |
| MinPriorityQueue.MinPQ.IndexAndSiftDown | min_pq_special.py:42-43 | One heapify round extends heap order to slot idx and keeps the multiset and the leaf entries. |
| MinPriorityQueue.MinPQ.Insert | min_pq_special.py:46-58 | Fails with Full exactly when the queue is full, changing nothing. Fails with IndexOutOfRange exactly when there is room but the key lies past the index; the key is then left in the next free slot, and the queued keys and the index are unchanged. Otherwise the size grows by one and the multiset gains exactly x. Heap order and the index are kept, and x is no longer stale. |
| MinPriorityQueue.MinPQ.Push | min_pq_special.py:55-58 | On a queue with room, x is appended and sifted up: heap order is kept, the size grows by one and the multiset gains x. |
| MinPriorityQueue.MinPQ.Contains | min_pq_special.py:60-67 | Corrected guard: a key past the index is absent. A queued key is present exactly when indexed at its slot, and an unqueued key exactly when stale. With a complete index every queued key is present. |
| MinPriorityQueue.MinPQ.ContainsAsWritten | min_pq_special.py:67 | As written: fails with IndexOutOfRange exactly for key == capacity + 1. Otherwise the answer is false past the index; for a queued key it says whether the index points at its slot; for any other key it says whether that key is stale. With a complete index every queued key is found. |
| MinPriorityQueue.MinPQ.ChangeKey | min_pq_special.py:67-79 | Goes through `contains` as written: fails with IndexOutOfRange exactly on key capacity + 1, and with KeyAbsent exactly when a key in range is not marked present or the key lies beyond capacity + 1, changing nothing in either case. Otherwise it restores heap order, changing only the path from the key's slot to the root, and keeps the multiset and the stale keys. |
| MinPriorityQueue.MinPQ.TakeRoot | min_pq_special.py:90-95 | Removes the root key, moves the last key to the root, and shrinks the multiset by the root. When the queue empties, the removed key becomes stale. |
| MinPriorityQueue.MinPQ.DelMin | min_pq_special.py:81-97 | Fails with Empty exactly on an empty queue. Otherwise it returns the old root, whose priority is at most every queued one. The multiset loses exactly that key and heap order is kept. Removing the last item leaves its key stale. |
| MinPriorityQueue.MinPQ.DelMinTwice | min_pq_special.py:81-97 | Two del_min calls in a row return keys of the old queue with non-decreasing priorities. |
| MinPriorityQueue.MinPQ.RemoveRoot | min_pq_special.py:90-96 | On a non-empty queue, takes out the root and sifts the moved key down, keeping heap order. |
| MinPriorityQueue.MinPQ.Min | min_pq_special.py:99-108 | Fails with Empty exactly on an empty queue. Otherwise it returns the root `arr[0]`, a queued key of least priority, and changes nothing. |
| MinPriorityQueue.MinPQ.MinThenDelMin | min_pq_special.py:81-108 | min and then del_min report the same outcome: the same key, even when priorities tie, or Empty for both. |
| MinPriorityQueue.MinPQ.IsEmpty | min_pq_special.py:110-115 | True exactly when nothing is queued. |
| MinPriorityQueue.MinPQ.IsFull | min_pq_special.py:117-122 | True exactly when the number queued equals the capacity. |
| MinPriorityQueue.MinPQ.Size | min_pq_special.py:124-129 | The number of queued keys, at most the capacity. |
| MinPriorityQueue.ContainsPastIndex | min_pq_special.py:67 | On a queue of capacity 2, `contains(3)` as written fails with IndexOutOfRange. |
| MinPriorityQueue.HeapifyMissesLeaf | min_pq_special.py:36-44 | Heapify on keys [0, 1] with priorities [0, 1] gives a two-item queue whose leaf slot holds key 1, yet `contains(1)` as written answers false. |
| Graph.Edges | dijkstra_sp.py:51-56 | Each pair (k, w) has `edges[k]` holding w. Keys strictly increase, and every non-empty entry is listed. |
| Graph.PathWeightNonNegative | dijkstra_sp.py:186-198 | With non-negative weights every path weighs at least zero. |
| Graph.PathBound | dijkstra_sp.py:186-198 | When no edge can lower a distance, the distance at a path's end is at most its start's distance plus the path's weight. |
| Graph.Trail | dijkstra_sp.py:210-216 | The hop list of a path has one hop per edge. |
| Graph.Prepend | dijkstra_sp.py:212-215 | Stepping back to the predecessor extends the path by one edge, adds that edge's weight, and appends one hop, as the walk in shortest_path does. |
| Graph.TrailWeight | dijkstra_sp.py:210-217 | The weights of a path's hops add up to the path's weight. |
| Graph.TrailHops | dijkstra_sp.py:210-216 | Hop i joins the vertices m-1-i and m-i of the path: the destination's edge first, the source's last. |
| HeapKeys.Fits | dijkstra_sp.py:195-198 | A repetition-free list of keys from [0, m) has at most m entries. |
| HeapKeys.RoomFor | dijkstra_sp.py:198 | A queue of capacity n holding distinct keys from [0, n) and missing key x has room for x, so the `insert` in relax never overflows. |
| Graph.SetFits | dijkstra_sp.py:182-183 | At most n+1 vertices can be settled, which bounds the run's loop. |
| Dijkstra.Once | dijkstra_sp.py:183 | A key occurs at most once among distinct queued keys. |
| Dijkstra.LoweredTrans | dijkstra_sp.py:186-198 | "Distances only fell, and a vertex whose distance stayed kept its predecessor" composes across steps. |
| Dijkstra.TakenOut | dijkstra_sp.py:183 | After del_min the queued keys are the old ones without the returned key. |
| Dijkstra.SettleFrontier | dijkstra_sp.py:182-198 | Settling the least queued vertex and relaxing its edges keeps the frontier invariant. Settled distances stay at most the queued ones, and no edge out of a settled vertex can lower a distance. Settled vertices do not change. |
| Dijkstra.SettleTree | dijkstra_sp.py:182-198 | From the reset state, the same step keeps every finite vertex settled or queued, and every finite vertex other than the source linked to an earlier-settled predecessor. |
| Dijkstra.Drained | dijkstra_sp.py:182-184 | When the queue drains after a run from the reset state, every edge is relaxed and every finite vertex is settled and linked. |
| Dijkstra.StepBack | dijkstra_sp.py:212-215 | After a solved run, a finite vertex other than the source is settled and has a predecessor settled before it, joined by an edge whose weight is the difference of their distances. |
| Dijkstra.Arrived | dijkstra_sp.py:209-217 | When the walk stops at a vertex without predecessor on a path to a finite vertex, that vertex is the source, and the hops add up to the path's weight. |
| Dijkstra.RelaxStep | dijkstra_sp.py:191-198 | Handling one more neighbour keeps the partial-relax invariant. |
| Dijkstra.SeenNext | dijkstra_sp.py:191 | Because `get_edges` is sorted, the next neighbour has not been handled yet. |
| Dijkstra.RelaxDone | dijkstra_sp.py:186-198 | Once every neighbour has been handled, relax is complete: improved neighbours go through the current vertex, nothing else changed, and exactly the improved ones were added to the queue. |
| Dijkstra.DijkstraSP.constructor | dijkstra_sp.py:71-82 | A graph of num_vertices + 1 empty slots, all in the reset state, with no edges, held in newly allocated arrays that the caller may then fill. |
| Dijkstra.DijkstraSP.AddVertex | dijkstra_sp.py:135-142 | The key now holds a fresh vertex with the given value, no edges and reset state. Every other key is unchanged, and the graph is reset exactly when it was before. |
| Dijkstra.DijkstraSP.GetVertex | dijkstra_sp.py:144-151 | None exactly when no vertex is at the key. Otherwise its value, row, distance and predecessor are the key's entries, with the distance in [0, INF], no predecessor at INF, and each of its edges recorded in the neighbour's row too. |
| Dijkstra.DijkstraSP.GetEdge | dijkstra_sp.py:41-49 | The weight stored for key k in u's row, which is k's entry for u. An edge implies both endpoints exist. |
| Dijkstra.DijkstraSP.GetEdges | dijkstra_sp.py:51-56 | Every non-empty entry of u's row, in increasing key order. Each pair is an edge of both endpoints, whose weight `get_edge` returns. |
| Dijkstra.DijkstraSP.AddEdge | dijkstra_sp.py:153-164 | Both endpoints' rows get the weight, replacing any old one, and no other entry changes. num_edges grows by one even when an edge is replaced. |
| Dijkstra.DijkstraSP.ResetVertices | dijkstra_sp.py:166-171 | Every vertex is back at distance INF with no predecessor. |
| Dijkstra.DijkstraSP.DijkstraSp | dijkstra_sp.py:173-184 | The source is at 0 with no predecessor. Distances only fell, and a vertex whose distance stayed kept its predecessor. No edge out of a settled vertex can lower a distance. From the reset state every edge is relaxed, every finite vertex is settled, and each finite vertex other than the source is linked to an earlier-settled predecessor. |
| Dijkstra.DijkstraSP.Start | dijkstra_sp.py:177-181 | A fresh queue of capacity num_vertices + 1 holding only the source, which is at 0 with no predecessor. |
| Dijkstra.DijkstraSP.Settle | dijkstra_sp.py:182-183 | One del_min-and-relax round keeps the run invariant and settles one more vertex. |
| Dijkstra.DijkstraSP.Relax | dijkstra_sp.py:186-198 | Exactly the neighbours the edge from c improves take distance dist[c] + w and predecessor c; nothing else changes. Exactly they are added to the queue, and no queue error occurs. |
| Dijkstra.DijkstraSP.RelaxEdge | dijkstra_sp.py:191-198 | One neighbour of relax: the partial-relax invariant is extended to that neighbour. |
| Dijkstra.DijkstraSP.RelaxOne | dijkstra_sp.py:193-198 | An improved neighbour takes distance dist[c] + w and predecessor c, and is queued. |
| Dijkstra.DijkstraSP.ShortestPath | dijkstra_sp.py:200-217 | From the reset state the distance is at most the weight of every path from source to destination. When finite, it is the weight of a path whose hops are returned destination-first and add up to it. No hops are returned when the destination is unreached or is the source. |
| Dijkstra.DijkstraSP.WalkBack | dijkstra_sp.py:209-216 | After a finished run, the predecessor walk from t ends at the source along a path of weight dist[t], and reports its hops. |
| Dijkstra.DijkstraSP.Query | dijkstra_sp.py:256-261 | reset_vertices then shortest_path gives the least path weight and, when it is finite, a witnessing path whose hops, destination first, are exactly the ones returned, whatever earlier queries left behind. |
| Dijkstra.DijkstraSP.RepeatQuery | dijkstra_sp.py:250-261 | Two reset-then-query rounds for the same pair return the same distance. |
| Dijkstra.Pop | dijkstra_sp.py:183 | del_min on the run's queue returns a queued vertex of least distance, which then leaves the queue. |
| Dijkstra.Requeue | dijkstra_sp.py:195-198 | Goes through `contains` as written, which answers for every vertex key. After lowering v's distance, v ends up in the queue, heap order is kept, and nothing else is added. |
| Dijkstra.Lower | dijkstra_sp.py:195-196 | change_key on a queued vertex whose distance was lowered succeeds and restores heap order. |
| Dijkstra.Add | dijkstra_sp.py:197-198 | insert of an unqueued vertex succeeds: the queue has room. |
| Dijkstra.RoadRows | dijkstra_sp.py:153-164 | The rows of a three-place road map are square, symmetric and non-negative, with entry (u, v) the road between u and v. |
| Dijkstra.BuildRoadMap | dijkstra_sp.py:135-164 | A new graph, three add_vertex calls and three add_edge calls give exactly the road map's rows, in arrays the caller owns. |
| Dijkstra.RoadVia | dijkstra_sp.py:200-217 | The path from 1 to 3 through 2 weighs 300. |
| Dijkstra.RoadBound | dijkstra_sp.py:200-217 | Every path from 1 to 3 on the road map weighs at least 300. |
| Dijkstra.RoadAnswer | dijkstra_sp.py:200-217 | A distance that is at most every path weight from 1 to 3, and is the weight of one such path when finite, is 300. |
| Dijkstra.RoadMap | dijkstra_sp.py:250-261 | One query round from Los Angeles to San Francisco on the road map answers 300. |

## Left out

- Reading a graph from a file (`read_file`, `create_vertices`, `create_edges` and the `filename` branch of the constructor) is not modelled. Graphs are built with `AddVertex` and `AddEdge`.
- Console output and the interactive loop (`print_path`, `print_vertices`, `main`, the `__repr__` methods) are left out. Only one query round of `main` is modelled, as `Query`.
- `Vertex.__eq__` and `MinPQ.__eq__` are left out, since the algorithm never uses them.
- `Vertex.__lt__` has no member of its own. The queue reads each key's priority from the distance array.
- Negative edge weights are excluded. `DijkstraSp`, `ShortestPath` and `Query` require every weight to be non-negative; with a negative edge the Python loop need not terminate.
- Python object identity is not modelled. A vertex is its key.
- AddVertex: requires the key to be unused. Replacing a vertex in Python leaves the other vertices' rows pointing at the old object, which a key-based model cannot express.
- AddEdge: requires both endpoints to exist. Python raises AttributeError on a missing endpoint.
- DijkstraSp: requires the source to exist. Python raises AttributeError at `source.dist = 0` on a missing source.
- Insert: requires a non-negative key that is not already queued. Python would index a negative key from the end of the index, and a second insert of a queued key would corrupt the index. Neither case can arise in a run.
- FromArray: requires distinct keys in [0, len(arr)]. Python raises IndexError in `heapify` when it indexes a larger key, and duplicate keys would corrupt the index.
- Keys outside [0, num_vertices] are excluded throughout, so Python's negative list indexing is not modelled.
- Key `None` is not modelled.
- ShortestPath: requires the reset state. `dijkstra_sp` does not reset the other vertices, so distances left by an earlier run block relaxation, and the answer need not be the least path weight. The model states nothing about such a call. `Query` resets first, as the interactive loop does.
- ShortestPath: requires source and destination to exist. Python raises on a missing vertex.
- RepeatQuery: states that the distances agree, not that the two hop lists are identical. The paths do coincide in Python, because both runs are deterministic from the same reset state.
- The queue is not a field `pq`. Only `dijkstra_sp` and `relax` use it, so the model creates it in `DijkstraSp` and passes it to `Relax` as a parameter.
- A vertex's `val` is modelled as a string.
- The optional `weight=1` and `val=None` defaults are not modelled.
- Queue items are vertex keys; the item objects are not modelled.
- The default capacity 16 of `MinPQ` is not modelled; the capacity is always passed.

## Findings

| source | as written | input that shows it | evidently intended | confidence | as-written member | corrected member |
|---|---|---|---|---|---|---|
| min_pq_special.py:67 | `contains` accepts `key <= capacity + 1`, but `keys` has only `capacity + 1` entries | a queue of capacity 2 and `contains(3)`: the lookup raises IndexError | the guard `key <= capacity`, so that a key past the index is simply absent | not executed | MinPriorityQueue.ContainsPastIndex | MinPriorityQueue.MinPQ.Contains |
| min_pq_special.py:36-44 | `heapify` indexes only the non-leaf slots it visits and the slots that swaps touch, so keys that stay in leaf slots keep `None` | `MinPQ(arr=[item 0, item 1])` with priorities 0 and 1: item 1 stays queued in slot 1, `contains(1)` is False and `change_key(1)` raises KeyError | every queued key is indexed at its slot, as after `insert` | not executed | MinPriorityQueue.HeapifyMissesLeaf | MinPriorityQueue.MinPQ.FromArrayIndexed |
