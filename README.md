# Coding-test algorithms, modelled and proved in Dafny

This project models the library of small algorithm routines in the Java
classes `Graph`, `StackAndQueue`, `SearchingAndSorting`,
`DynamicProgramming`, `Array`, `String` and `Math`, and proves what each
routine computes. Each Java class has one Dafny module:

| Java class | Dafny module | file |
|---|---|---|
| `Graph` | `Graph` | graph.dfy |
| `StackAndQueue` | `StackAndQueue` | stack_and_queue.dfy |
| `SearchingAndSorting` | `SearchingAndSorting` | searching_and_sorting.dfy |
| `DynamicProgramming` | `DynamicProgramming` | dynamic_programming.dfy |
| `Array` | `ArrayUtil` | array_util.dfy |
| `String` | `StringUtil` | string_util.dfy |
| `Math` | `MathUtil` | math_util.dfy |

Four more modules hold the shared vocabulary:

- `Seqs` defines sortedness, counting, reversal, the two-run merge and order-preserving deduplication.
- `Paths` defines adjacency-list graphs, paths, reachability avoiding a set of vertices, and closure under edges.
- `JavaInt` defines Java's truncating `/` and `%`.
- `Wrappers` defines `Option`.

**How the Java is modelled**

- Routines that update state step by step are methods with loops and invariants:
  - the sorts work in place on an `array<int>`, and `merge` fills a temporary buffer and copies it back;
  - the graph searches keep their visited sets, stacks and queues as local `set`s and `seq`s.
- Each method is proved against an independent definition: a recursive function, or a predicate over all inputs. Separate lemmas prove what that definition means (optimality, round trips, characterisations).
- `StackFromQueues` and `QueueFromStacks` are classes with the two Java containers as `seq` fields.
- Routines that print their traversal return the printed sequence instead.
- A `GraphNode` graph is an adjacency list `seq<seq<nat>>`, with the node's value as its index.
- The graphs given by edge arrays are `n` plus a `seq<(nat, nat)>` of edges, turned into adjacency lists exactly as the Java loops build them.
- Java `int` and `long` are unbounded integers. The overflow cases are listed under "Left out".

## Model

| member | source | states |
|---|---|---|
| Graph.Dfs | Graph.java:20-29 | A null node or an already visited one changes nothing. Otherwise the newly visited vertices, printed once each with the start first, are exactly those reachable from the node without passing through a vertex visited before; afterwards no edge leaves the new vertices to an unvisited one. |
| Graph.DfsIterative | Graph.java:32-52 | A null start prints nothing. Otherwise the start is printed first, no vertex twice, and a vertex is printed exactly when it is reachable from the start. |
| Graph.DfsVisitStep | Graph.java:40-50 | Popping an unvisited vertex, printing it and pushing its unvisited neighbours keeps the loop invariant: printed = visited, everything on the stack or printed is reachable, and every neighbour of a visited vertex is visited or on the stack. |
| Graph.DfsStateComplete | Graph.java:39-51 | When the stack runs empty, the printed vertices are exactly the reachable ones. |
| Graph.Bfs | Graph.java:55-74 | A null start prints nothing. Otherwise the start is printed first, no vertex twice, a vertex is printed exactly when it is reachable from the start, and in breadth-first order: no vertex is printed after one that is closer to the start. |
| Graph.BfsStep | Graph.java:63-72 | Dequeuing a vertex and enqueuing its unmarked neighbours, marking them at enqueue time, keeps the invariant: marked = printed + queued, with no vertex queued twice. |
| Graph.BfsStateComplete | Graph.java:63-73 | When the queue runs empty, the printed vertices are exactly the reachable ones, the start first. |
| Graph.BfsLevelsStep | Graph.java:63-72 | Dequeuing the head at distance D and queueing its unmarked neighbours at distance D + 1 keeps the distance invariant: every printed or queued vertex carries its exact distance from the start, distances never decrease along print-then-queue order, the queue spans at most D and D + 1, and every vertex closer than the head of the queue is already printed. |
| Graph.BfsLevelsFresh | Graph.java:67-70 | A neighbour of the head that is not yet marked is exactly one step farther from the start than the head. |
| Graph.BfsLevelsFront | Graph.java:63-72 | Once the head of the queue is farther than the vertex just dequeued, every vertex at the dequeued vertex's distance has been printed. |
| Graph.BfsLevelsNear | Graph.java:63-72 | After a dequeue, every vertex closer than the new head of the queue has been printed. |
| Graph.LevelsExtend | Graph.java:67-72 | Appending vertices one step beyond the head and advancing past the head keeps the distance invariant. |
| Graph.BfsLevelsOrder | Graph.java:63-73 | With the queue empty, the exact distances along the printed order never decrease, so no vertex is printed after a closer one. |
| Graph.BfsAdvance | Graph.java:63-72 | One round of the loop keeps both the queue state and the distance invariant. |
| Graph.BfsInvDone | Graph.java:63-74 | When the queue runs empty, the printed vertices are the reachable ones, the start first, each once, in breadth-first order. |
| Graph.PushUnvisited | Graph.java:45-49 | Pushes exactly the neighbours not yet visited, in list order, onto the stack. |
| Graph.EnqueueUnvisited | Graph.java:67-72 | Queues, in list order, each neighbour not yet marked, once, and marks every neighbour. |
| Graph.DirectedCount | Graph.java:84-87 | The adjacency list of `u` that the edge loop builds holds `v` exactly as often as the edge (u, v) occurs. |
| Graph.BuildDirected | Graph.java:78-87 | Builds that adjacency list and `indegree[v]` = the number of edges into `v`. |
| Graph.InDegreeZero | Graph.java:101-105 | A vertex's remaining in-degree is zero exactly when every edge into it comes from an emitted vertex. |
| Graph.ZeroInDegree | Graph.java:89-94 | The initial queue holds, each once, exactly the vertices with in-degree 0. |
| Graph.KahnDequeue | Graph.java:97-99 | Emitting the head of the queue keeps the invariant: emitted vertices distinct, every edge into them from an emitted vertex, every edge among them forward. |
| Graph.KahnRelease | Graph.java:101-105 | Decrementing a neighbour's in-degree, and queuing it when that reaches 0, keeps the invariant. |
| Graph.ReleaseNeighbours | Graph.java:101-105 | Decrementing the in-degree of each neighbour of the emitted vertex, and queueing those that reach 0, keeps the invariant of Kahn's algorithm with every edge out of the emitted vertex released. |
| Graph.KahnComplete | Graph.java:109 | Once all n vertices are emitted, the list is a topological order and the graph has no directed cycle. |
| Graph.KahnStuck | Graph.java:97-109 | If the queue runs empty with fewer than n vertices emitted, the graph has a directed cycle. |
| Graph.CycleHasBackEdge | Graph.java:109 | No list of all vertices puts every edge of a directed cycle forward. |
| Graph.TopologicalSort | Graph.java:77-110 | A graph with a directed cycle gives the empty list. Otherwise the result lists each vertex 0..n-1 exactly once and every edge points forward. |
| Graph.UndirectedEdge | Graph.java:119-122 | In the symmetrised graph, `v` is a neighbour of `u` exactly when (u, v) or (v, u) is an edge. |
| Graph.UndirectedSymmetric | Graph.java:119-122 | The symmetrised graph is symmetric. |
| Graph.BuildUndirected | Graph.java:114-122 | The adjacency loop builds the symmetrised graph. |
| Graph.DfsComponent | Graph.java:137-144 | Marks the start and exactly the vertices reachable from it without passing through a marked one; afterwards the marked set is closed under edges. |
| Graph.ComponentStep | Graph.java:127-131 | A DFS from an unmarked `i` means `i` is the least vertex of its component, and the marked set becomes everything reachable from 0..i. |
| Graph.RepresentativeExists | Graph.java:127-132 | Every vertex is reached from some least vertex of a component at or below it. |
| Graph.RepresentativesApart | Graph.java:127-132 | In a symmetric graph, two different least vertices of components never reach a common vertex, so each component is counted once. |
| Graph.CountConnectedComponents | Graph.java:113-135 | Returns the number of vertices that no smaller vertex reaches, one per component of the symmetrised graph. |
| Graph.DfsPath | Graph.java:204-217 | Returns true exactly when the target is reachable from the node without passing through a visited vertex; it marks only non-target vertices it reaches. |
| Graph.PathExists | Graph.java:187-202 | Returns true exactly when the destination is reachable from the source in the symmetrised graph, source == destination included. |
| Graph.DfsCycle | Graph.java:170-184 | Marks only vertices reachable from the node. Without a report it marks exactly those, the marked set is closed, none of them has an edge to itself, and their list lengths add up to two per new vertex less the edges back to the parent (a tree hanging from the parent edge). With a report, the vertices reachable from the node have list lengths adding up to more than such a tree's, so the parent test of line 178 never lets a report through on a tree. |
| Graph.HasCycle | Graph.java:147-168 | Reports a cycle exactly when the edge count differs from the vertex count less the number of components, i.e. exactly when the graph is not a forest; an edge from a vertex to itself is always reported. |
| Graph.TallyChild | Graph.java:174-177 | A neighbour searched without a report becomes a child: its subtree's degree excess is the number of edges back to the current vertex less two. |
| Graph.TallyParent | Graph.java:178 | An entry equal to the parent is skipped and keeps the degree tally. |
| Graph.TallyDone | Graph.java:170-184 | After the whole list, the vertices marked by one DFS call have excess equal to the edges back to the parent less two. |
| Graph.CycleRootStep | Graph.java:158-165 | A search from an unmarked vertex without a report adds one component with excess -2 and no self-loop. |
| Graph.ForestEnd | Graph.java:158-167 | Once every vertex is searched without a report, no edge is a self-loop and edges plus components equal vertices. |
| Graph.MarkedStep | Graph.java:127-131 | An already-marked vertex is not the least of its component, and the marked set is unchanged as the reach of 0..i. |
| Graph.MarkedAll | Graph.java:158-165 | Once 0..n-1 have been searched, every vertex below n is marked. |
| Graph.UndirectedDegrees | Graph.java:152-155 | The adjacency lists of the undirected graph hold two entries per edge. |
| Graph.UndirectedCountSymmetric | Graph.java:152-155 | `v` occurs in `u`'s list exactly as often as `u` occurs in `v`'s. |
| Graph.RepresentativesPositive | Graph.java:113-135 | A non-empty graph has at least one component. |
| Graph.NotAForest | Graph.java:147-168 | A graph with n > 0 vertices and at least n edges is not a forest, so `hasCycle` reports it. |
| Graph.TallyAtLeastChild | Graph.java:174-177 | A child whose whole reach has excess at least `y` above a tree's adds `y` to the lower bound on the current vertex's excess. |
| Graph.TallyAtLeastBack | Graph.java:178-180 | A marked neighbour other than the parent is one adjacency entry beyond a tree's count. |
| Graph.TallyAtLeastParent | Graph.java:178 | The entry leading back to the parent is skipped without changing the lower bound. |
| Graph.TallyAtLeastDone | Graph.java:170-184 | After the whole list, the excess of the vertices marked from the current one is at least a tree's plus the spare entries seen. |
| Graph.GhostSearch | Graph.java:170-184 | The same search carried on past every report marks exactly the reach of the node, closed, with excess at least a tree's. |
| Graph.GhostVisitFrom | Graph.java:173-183 | The rest of a neighbour list searched without stopping marks the whole reach of the vertex and keeps the lower bound, including spare entries already counted. |
| Graph.BackReport | Graph.java:178-180 | A report at a marked non-parent neighbour means the reach of the vertex has excess above a tree's. |
| Graph.ChildReport | Graph.java:175-177 | A report passed up from a child means the reach of the vertex has excess above a tree's. |
| Graph.ReportedComponent | Graph.java:158-165 | The component of the vertex whose search reported has excess above -2, so the marked set up to it exceeds -2 per component. |
| Graph.RestStep | Graph.java:158-165 | Searching one more vertex to the end adds at least -2 excess per new component. |
| Graph.RestAtLeast | Graph.java:158-167 | Searching all remaining vertices keeps excess above -2 per component. |
| Graph.MoreThanForest | Graph.java:147-168 | With every vertex searched and excess above -2 per component, edges plus components differ from the vertex count. |
| Graph.SearchedExcess | Graph.java:158-167 | Once every vertex is searched, the excess of the marked set is the whole graph's: list lengths total less two per vertex. |
| Paths.ReachSetIs | Graph.java:170-184 | The set of vertices reachable avoiding a marked set is exactly those vertices, disjoint from the marks and closed under edges outside them. |
| StackAndQueue.ScanCloses | StackAndQueue.java:16-26 | A successful scan from a pending stack means the rest of the string closes the stack's brackets from the top down, with balanced stretches in between. |
| StackAndQueue.ClosesScan | StackAndQueue.java:16-26 | The converse: a rest that closes the pending brackets in that way makes the scan succeed. |
| StackAndQueue.BalancedNeutral | StackAndQueue.java:16-24 | A balanced stretch leaves the scan's outcome unchanged, whatever the stack holds. |
| StackAndQueue.ScanBalanced | StackAndQueue.java:9-27 | The stack scan succeeds from an empty stack exactly when the string is balanced: empty, or an opening bracket, a balanced stretch, its closing bracket and a balanced rest. |
| StackAndQueue.IsValidParentheses | StackAndQueue.java:9-27 | Returns true exactly when the string is balanced in that sense. |
| StackAndQueue.Apply | StackAndQueue.java:38-52 | An operator has no result exactly when it is a division by zero, where Java throws. |
| StackAndQueue.RpnPostfix | StackAndQueue.java:33-57 | Evaluating the postfix form of an expression pushes the expression's value and then goes on with the rest of the tokens. |
| StackAndQueue.RpnOfPostfix | StackAndQueue.java:30-60 | The postfix form of an expression evaluates to the expression's value, with the top of the stack as the right operand. |
| StackAndQueue.EvalRpn | StackAndQueue.java:30-60 | The loop returns what the stack semantics gives, and on the postfix form of any expression that expression's value. |
| StackAndQueue.PushUnmarked | StackAndQueue.java:74-78 | Pushes the neighbours that are not marked, in order. |
| StackAndQueue.DfsStack | StackAndQueue.java:63-81 | Prints the start first, no vertex twice, and exactly the vertices reachable from the start. |
| StackAndQueue.EnqueueUnmarked | StackAndQueue.java:94-99 | Queues each unmarked neighbour once, in order, and marks every neighbour. |
| StackAndQueue.BfsQueue | StackAndQueue.java:84-101 | Prints the start first, no vertex twice, exactly the vertices reachable from the start, and in breadth-first order: no vertex is printed after one that is closer to the start. |
| StackAndQueue.PushStep | StackAndQueue.java:117-121 | After the smaller tail entries are popped, appending `i` keeps the deque's indices increasing, its values non-increasing, and each entry the maximum of its stretch of the window. |
| StackAndQueue.WindowMax | StackAndQueue.java:123-125 | The value at the front of the deque is the maximum of the current window. |
| StackAndQueue.Slide | StackAndQueue.java:112-121 | Dropping the front index that left the window and the smaller tail entries, then appending `i`, gives the deque for the window ending at `i`. |
| StackAndQueue.MaxSlidingWindow | StackAndQueue.java:104-129 | Empty input gives an empty result. Otherwise the result has n - k + 1 entries, and entry m is the maximum of nums[m..m+k-1]. |
| StackAndQueue.StackFromQueues.constructor | StackAndQueue.java:133-134 | Starts with no elements. |
| StackAndQueue.StackFromQueues.Push | StackAndQueue.java:136-138 | Appends `x` at the back of `main`. |
| StackAndQueue.StackFromQueues.Transfer | StackAndQueue.java:141-143 | Moves all but the last element of `main` to the back of `helper`, in order. |
| StackAndQueue.StackFromQueues.Pop | StackAndQueue.java:140-149 | Returns the most recently pushed element and removes it; on an empty stack returns nothing. |
| StackAndQueue.StackFromQueues.Peek | StackAndQueue.java:151-161 | Returns the most recently pushed element and leaves the contents as they were. |
| StackAndQueue.StackFromQueues.IsEmpty | StackAndQueue.java:163-165 | True exactly when no element is left. |
| StackAndQueue.QueueFromStacks.constructor | StackAndQueue.java:170-171 | Starts with no elements. |
| StackAndQueue.QueueFromStacks.Push | StackAndQueue.java:173-175 | Appends `x` at the back of the queue. |
| StackAndQueue.QueueFromStacks.Refill | StackAndQueue.java:178-182 | Moves `in` onto an empty `out` reversed, so the oldest element is on top; the queue's contents do not change. |
| StackAndQueue.QueueFromStacks.Pop | StackAndQueue.java:177-184 | Returns the oldest element and removes it; on an empty queue returns nothing. |
| StackAndQueue.QueueFromStacks.Peek | StackAndQueue.java:186-193 | Returns the oldest element and leaves the contents as they were. |
| StackAndQueue.QueueFromStacks.IsEmpty | StackAndQueue.java:195-197 | True exactly when both stacks are empty, that is, no element is left. |
| StackAndQueue.FirstGreaterSkips | StackAndQueue.java:206-212 | No element between `i` and the first greater index exceeds s[i]. |
| StackAndQueue.FirstGreaterIs | StackAndQueue.java:206-212 | An index past which nothing exceeds s[i], and which holds a greater value or is the end, is the first greater index. |
| StackAndQueue.PopStep | StackAndQueue.java:207-209 | Popping a candidate not above nums[i] keeps the stack linked and nothing it skips exceeds nums[i]. |
| StackAndQueue.PopNotGreater | StackAndQueue.java:207-209 | After the pops, the top of the stack is the first index right of `i` with a greater value, or the stack is empty when there is none. |
| StackAndQueue.AnswerFromStack | StackAndQueue.java:211-215 | The top left after the pops is the next greater value of nums[i], or -1; pushing nums[i] gives the stack for `i`. |
| StackAndQueue.AnswerAt | StackAndQueue.java:207-215 | One pass writes the next greater value of nums[i] and leaves every other entry of the result alone. |
| StackAndQueue.NextGreaterElement | StackAndQueue.java:201-219 | The result has the same length, and entry i is the first value right of i strictly greater than nums[i], or -1 when there is none. |
| SearchingAndSorting.BinarySearch | SearchingAndSorting.java:9-25 | Any index returned holds the target. On a sorted array, -1 is returned exactly when the target does not occur. |
| SearchingAndSorting.RotatedSplit | SearchingAndSorting.java:28-57 | A rotation of a strictly increasing array splits into two increasing runs, the first entirely above the second. |
| SearchingAndSorting.RotatedHalf | SearchingAndSorting.java:38-53 | Whichever half the search keeps, the target occurs in it whenever it occurs in the range and not at `mid`. |
| SearchingAndSorting.SearchRotatedArray | SearchingAndSorting.java:28-57 | Any index returned holds the target. On a rotation of a strictly increasing array, -1 is returned exactly when the target does not occur. |
| SearchingAndSorting.FirstOccurrence | SearchingAndSorting.java:184-196 | Returns an index holding the target, with everything before it smaller, or -1 only when the sorted array lacks the target. |
| SearchingAndSorting.LastOccurrence | SearchingAndSorting.java:198-212 | Starting from an occurrence, returns an index holding the target at or after it, with everything after it larger on a sorted array. |
| SearchingAndSorting.SearchRange | SearchingAndSorting.java:181-216 | Returns {-1, -1} exactly when a sorted array lacks the target. Otherwise it returns the first and last index, and the target occurs exactly between them. |
| SearchingAndSorting.Swap | SearchingAndSorting.java:66-68 | Exchanges two entries, leaves the rest and keeps the multiset. |
| SearchingAndSorting.PassStep | SearchingAndSorting.java:64-71 | One comparison of the inner loop carries the largest value seen so far to position j + 1 and remembers whether a swap happened. |
| SearchingAndSorting.PassDone | SearchingAndSorting.java:64-72 | After a pass the tail from `m` is sorted and above the rest; a pass without a swap means the front is sorted as well. |
| SearchingAndSorting.BubblePass | SearchingAndSorting.java:63-72 | One pass keeps the multiset, extends the sorted tail by one, and reports no swap only when the whole array is sorted. |
| SearchingAndSorting.BubbleSort | SearchingAndSorting.java:60-74 | Leaves the array sorted ascending and a permutation of its input, early stop included. |
| SearchingAndSorting.MinIndex | SearchingAndSorting.java:80-85 | Returns an index of a smallest element of arr[i..]. |
| SearchingAndSorting.SelectStep | SearchingAndSorting.java:86-88 | Swapping that smallest element to `i` extends the sorted prefix, which stays below the rest. |
| SearchingAndSorting.SelectionSort | SearchingAndSorting.java:77-90 | Leaves the array sorted ascending and a permutation of its input. |
| SearchingAndSorting.ShiftStep | SearchingAndSorting.java:98-101 | Shifting a larger element right keeps the prefix sorted around the hole; the result is the same as swapping the key down by one. |
| SearchingAndSorting.ShiftDone | SearchingAndSorting.java:102 | Dropping the key into the hole leaves the prefix up to `i` sorted. |
| SearchingAndSorting.Insert | SearchingAndSorting.java:95-102 | Inserting arr[i] into the sorted prefix keeps the multiset and sorts the prefix up to `i`. |
| SearchingAndSorting.InsertionSort | SearchingAndSorting.java:93-104 | Leaves the array sorted ascending and a permutation of its input. |
| SearchingAndSorting.EmitLeft | SearchingAndSorting.java:126-127 | Taking the left head on a tie or when it is smaller emits the next element of the merge. |
| SearchingAndSorting.EmitRight | SearchingAndSorting.java:128-129 | Taking the right head when it is smaller emits the next element of the merge. |
| SearchingAndSorting.TakeLeft | SearchingAndSorting.java:127 | `temp[k++] = arr[i++]` keeps the buffer equal to the merge's output so far. |
| SearchingAndSorting.TakeRight | SearchingAndSorting.java:129 | `temp[k++] = arr[j++]` keeps the buffer equal to the merge's output so far. |
| SearchingAndSorting.MergeWhileBoth | SearchingAndSorting.java:125-131 | The first loop, followed by the two draining loops, fills the buffer with the merge and consumes both halves. |
| SearchingAndSorting.DrainLeft | SearchingAndSorting.java:133-135 | Copying the rest of the left half, then the rest of the right, completes the merge. |
| SearchingAndSorting.DrainRight | SearchingAndSorting.java:137-139 | Copying the rest of the right half completes the merge. |
| SearchingAndSorting.MergeToBuffer | SearchingAndSorting.java:122-139 | The buffer ends up holding the merge of arr[left..mid] and arr[mid+1..right], left element first on ties. |
| SearchingAndSorting.CopyBack | SearchingAndSorting.java:141-143 | Copies the buffer to arr[left..] and changes nothing else. |
| SearchingAndSorting.MergeHalves | SearchingAndSorting.java:121-144 | `merge` replaces arr[left..right] by the merge of its two halves and changes nothing outside. |
| SearchingAndSorting.MergeMultiset | SearchingAndSorting.java:112-118 | The two halves together hold the multiset the range held before they were sorted. |
| SearchingAndSorting.MergeSortStep | SearchingAndSorting.java:112-118 | Sorting each half and merging them sorts the range, permutes it, and leaves the outside alone. |
| SearchingAndSorting.MergeSortRange | SearchingAndSorting.java:112-119 | Sorts arr[left..right] ascending as a permutation of itself and touches nothing else. |
| SearchingAndSorting.MergeSort | SearchingAndSorting.java:107-110 | Leaves the array sorted ascending and a permutation of its input. |
| SearchingAndSorting.PartitionStep | SearchingAndSorting.java:164-171 | One step of the loop keeps arr[left..i] below the pivot and arr[i+1..j-1] at or above it. |
| SearchingAndSorting.PartitionDone | SearchingAndSorting.java:173-177 | The final swap puts the pivot at i + 1, with smaller elements before it and the rest after. |
| SearchingAndSorting.Partition | SearchingAndSorting.java:160-178 | Returns p in [left, right] holding the old arr[right]; everything in [left, p) is smaller, everything in (p, right] is at least as large; the multiset is kept and nothing outside [left, right] changes. |
| SearchingAndSorting.BoundsKept | SearchingAndSorting.java:155-156 | Rearranging a range keeps any bound that all its elements satisfied. |
| SearchingAndSorting.CancelOutside | SearchingAndSorting.java:155-156 | When the whole array keeps its multiset and the outside of a range is unchanged, the range keeps its multiset. |
| SearchingAndSorting.QuickJoin | SearchingAndSorting.java:153-157 | Two sorted sides around a pivot that splits them make a sorted range. |
| SearchingAndSorting.QuickSortRange | SearchingAndSorting.java:152-158 | Sorts arr[left..right] ascending, keeps the multiset and touches nothing else. |
| SearchingAndSorting.QuickSort | SearchingAndSorting.java:147-150 | Leaves the array sorted ascending and a permutation of its input. |
| SearchingAndSorting.FindKthSmallest | SearchingAndSorting.java:219-222 | Sorts the array, then returns its k-th smallest element, or nothing when k is out of range. |
| DynamicProgramming.FibMemo.constructor | DynamicProgramming.java:9 | A fresh memo is empty, and so holds only correct Fibonacci values. |
| DynamicProgramming.Fibonacci | DynamicProgramming.java:9-16 | Returns F(n), with n itself for n <= 1; the memo keeps only correct values, keeps every earlier entry and afterwards holds n when n >= 2. |
| DynamicProgramming.FibonacciTab | DynamicProgramming.java:19-31 | The tabulated loop returns the same F(n) as the memoised version. |
| DynamicProgramming.FibGrows | DynamicProgramming.java:9-31 | Fibonacci numbers are non-negative, never decrease, and are at least 1 from n = 1 on. |
| DynamicProgramming.WaySound | DynamicProgramming.java:117-129 | Every index below F(n + 1) names a sequence of 1- and 2-steps that climbs exactly n stairs. |
| DynamicProgramming.WayComplete | DynamicProgramming.java:117-129 | Every sequence of 1- and 2-steps climbing n stairs is named by some index below F(n + 1). |
| DynamicProgramming.WayDistinct | DynamicProgramming.java:117-129 | Different indices name different step sequences, so F(n + 1) counts the climbs exactly. |
| DynamicProgramming.ClimbStairs | DynamicProgramming.java:117-129 | Returns 1 for n <= 1 and F(n + 1), the number of ways to climb n stairs, for every n >= 0. |
| DynamicProgramming.FewestIsLeast | DynamicProgramming.java:39-45 | No way to pay i with the denominations uses fewer coins than the table entry for i. |
| DynamicProgramming.FewestAttained | DynamicProgramming.java:39-45 | A table entry below the cap is the number of coins of an actual way to pay i. |
| DynamicProgramming.CoinChangeAnswer | DynamicProgramming.java:47 | Mapping entries above the amount to -1 gives -1 exactly when the amount cannot be paid, and otherwise the fewest coins. |
| DynamicProgramming.CoinChange | DynamicProgramming.java:34-48 | Returns -1 when no combination of the coins (each reusable) pays the amount, otherwise the fewest coins that do. |
| DynamicProgramming.BestIsUpperBound | DynamicProgramming.java:55-66 | No selection of the first i items within weight w is worth more than the table entry. |
| DynamicProgramming.BestIsAttained | DynamicProgramming.java:55-66 | Some selection of the first i items within weight w is worth exactly the table entry. |
| DynamicProgramming.KnapsackAnswer | DynamicProgramming.java:68 | The last table entry is the best value of a selection that fits the capacity. |
| DynamicProgramming.Knapsack | DynamicProgramming.java:51-69 | Returns the largest total value of a set of items, each used at most once, whose weight fits the capacity. |
| DynamicProgramming.KnapsackRow | DynamicProgramming.java:56-65 | Filling row i makes it agree with the recurrence and leaves every other row alone. |
| DynamicProgramming.CanMakeSelection | DynamicProgramming.java:76-80 | The table says i is reachable from the first t numbers exactly when some choice of them, each at most once, adds up to i. |
| DynamicProgramming.SubsetSum | DynamicProgramming.java:72-83 | True exactly when some choice of the numbers, each used at most once, adds up to the sum. |
| DynamicProgramming.NthSelectionSound | DynamicProgramming.java:90-94 | Each of the counted selections adds up to i. |
| DynamicProgramming.NthSelectionComplete | DynamicProgramming.java:90-94 | Every selection adding up to i is one of the counted ones. |
| DynamicProgramming.NthSelectionDistinct | DynamicProgramming.java:90-94 | The counted selections are pairwise different, so the count is exact. |
| DynamicProgramming.CountSubsetSum | DynamicProgramming.java:86-97 | Returns the number of subsets of positions whose numbers add up to the sum. |
| DynamicProgramming.LevSelf | DynamicProgramming.java:132-156 | The distance from a string to itself is 0. |
| DynamicProgramming.LevSymmetric | DynamicProgramming.java:132-156 | The distance does not depend on the order of the two strings. |
| DynamicProgramming.LevBounds | DynamicProgramming.java:132-156 | The distance is at least the difference of the lengths and at most the longer length. |
| DynamicProgramming.EditDistance | DynamicProgramming.java:132-156 | Returns the Levenshtein distance of the two words, with dp[i][0] = i and dp[0][j] = j. |
| DynamicProgramming.EditDistanceRow | DynamicProgramming.java:146-152 | Filling row i makes it agree with the recurrence and leaves every other row alone. |
| DynamicProgramming.LcsWitnessCommon | DynamicProgramming.java:164-172 | The table entry is the length of a string that is a subsequence of both prefixes. |
| DynamicProgramming.LcsIsLongest | DynamicProgramming.java:164-172 | No common subsequence of the two prefixes is longer than the table entry. |
| DynamicProgramming.LcsBounds | DynamicProgramming.java:159-175 | The result is at most the shorter length. |
| DynamicProgramming.LcsSelf | DynamicProgramming.java:159-175 | A string's longest common subsequence with itself is its whole length. |
| DynamicProgramming.LcsAnswer | DynamicProgramming.java:174 | The last table entry is the length of a longest common subsequence. |
| DynamicProgramming.LongestCommonSubsequence | DynamicProgramming.java:159-175 | Returns the length of a longest common subsequence of the two texts. |
| DynamicProgramming.LcsTableRow | DynamicProgramming.java:165-171 | Filling row i makes it agree with the recurrence and leaves every other row alone. |
| DynamicProgramming.LisWitness | DynamicProgramming.java:183-189 | dp[i] is the length of a strictly increasing subsequence ending at position i. |
| DynamicProgramming.LisEndIsLongest | DynamicProgramming.java:183-189 | No strictly increasing subsequence ending at a position is longer than its dp entry. |
| DynamicProgramming.LisAnswer | DynamicProgramming.java:191 | For non-empty input the largest dp entry is the length of a longest strictly increasing subsequence. |
| DynamicProgramming.LisOfEmpty | DynamicProgramming.java:191 | The longest increasing subsequence of an empty array has length 0. |
| DynamicProgramming.LongestIncreasingUnique | DynamicProgramming.java:178-192 | The longest increasing length of an array is unique. |
| DynamicProgramming.LisOfEmptyIsNotOne | DynamicProgramming.java:191 | 1, which the source returns for an empty array, is not its longest increasing length. |
| DynamicProgramming.LisTable | DynamicProgramming.java:179-189 | The filled table holds, at each position, the longest increasing subsequence ending there. |
| DynamicProgramming.LongestIncreasingSubsequenceAsWritten | DynamicProgramming.java:178-192 | As written: the longest increasing length for non-empty input, and 1 for empty input. |
| DynamicProgramming.LongestIncreasingSubsequence | DynamicProgramming.java:178-192 | Returns the length of a longest strictly increasing subsequence, 0 for empty input. |
| DynamicProgramming.RobWitness | DynamicProgramming.java:199-205 | dp[i] is the value of a choice of the first i + 1 houses with no two neighbours robbed. |
| DynamicProgramming.RobbedIsBest | DynamicProgramming.java:199-205 | With no negative amounts, no such choice is worth more than dp[i]. |
| DynamicProgramming.RobAnswer | DynamicProgramming.java:207 | With no negative amounts, the last dp entry is the best heist. |
| DynamicProgramming.RobNothing | DynamicProgramming.java:196 | The best heist over no houses is 0. |
| DynamicProgramming.RobTable | DynamicProgramming.java:199-207 | For two or more houses the table loop returns the recurrence's last entry. |
| DynamicProgramming.Rob | DynamicProgramming.java:195-208 | Returns the recurrence's value, and the best heist without two neighbours robbed when no amount is negative. |
| ArrayUtil.Intersection | Array.java:19-30 | The result holds a value exactly when it occurs in both arrays; as a set it holds each such value once. |
| ArrayUtil.RotatedRightMoves | Array.java:33-39 | After rotating right by k >= 0, the element at i stands at (i + k) mod n. |
| ArrayUtil.RotatedRightPeriodic | Array.java:35 | Rotating by k is the same as rotating by k mod n. |
| ArrayUtil.RotatedRightMultiset | Array.java:33-39 | Rotation keeps the multiset of elements. |
| ArrayUtil.ReversedBetweenTwice | Array.java:41-49 | Reversing the same slice twice gives back the original. |
| ArrayUtil.Reverse | Array.java:41-49 | The slice [start..end] is reversed and every other index is unchanged; an empty or one-element slice changes nothing. |
| ArrayUtil.RotatedRightAt | Array.java:33-39 | After rotating right by m < n, position q holds the element from n - m + q when q < m, and from q - m otherwise. |
| ArrayUtil.ThreeReversals | Array.java:36-38 | Reversing the whole array, then its first m and its last n - m elements, rotates it right by m. |
| ArrayUtil.RotateByReversals | Array.java:35-38 | The three reversals with m = k mod n rotate the array right by k. |
| ArrayUtil.RotateRight | Array.java:33-39 | The array ends rotated right by k; an empty array is left alone. |
| ArrayUtil.MergeSorted | Array.java:58-75 | The result has length |arr1| + |arr2|, holds the union of their multisets, is their two-run merge, and is sorted when both inputs are. |
| ArrayUtil.MergeWhileBoth | Array.java:62-64 | While both inputs have elements left, the smaller head (the first on ties) is written next, keeping the merge invariant. |
| ArrayUtil.DrainFirst | Array.java:66-68 | The rest of the first array is copied across, keeping the merge invariant. |
| ArrayUtil.DrainSecond | Array.java:70-72 | The rest of the second array is copied across, keeping the merge invariant, so both inputs are used up. |
| ArrayUtil.MaxSubarraySum | Array.java:78-88 | For non-empty input, returns the largest sum of a non-empty contiguous run, and that sum is attained by some run. |
| ArrayUtil.SinglesWithin | Array.java:78-88 | The maximum run sum is at least every single element. |
| ArrayUtil.MaxSubarrayAllNegative | Array.java:78-88 | When every element is negative, the maximum run sum is the largest element. |
| ArrayUtil.WithoutLength | Array.java:91-97 | The kept elements and the copies of the target together make up the whole array. |
| ArrayUtil.WithoutDrops | Array.java:91-97 | The kept elements are the multiset of the array with every copy of the target removed. |
| ArrayUtil.WithoutTarget | Array.java:91-97 | No copy of the target is kept. |
| ArrayUtil.Compact | Array.java:92-97 | The write loop puts the non-target elements, in their original order, at the front, and returns how many there are. |
| ArrayUtil.FillTail | Array.java:98-100 | Everything from `write` on becomes the target and nothing before it changes. |
| ArrayUtil.MoveElement | Array.java:91-101 | The array becomes its non-target elements in their original order followed by every copy of the target. |
| ArrayUtil.MoveElementMultiset | Array.java:91-101 | Moving the target to the end keeps the multiset of elements. |
| ArrayUtil.FrequencyMap | Array.java:104-110 | The map has a key exactly for each value in the array, mapped to its number of occurrences. |
| Seqs.Dedup | Array.java:52-55 | The de-duplicated sequence has no repeats and holds exactly the values of the input. |
| Seqs.DedupSnoc | Array.java:52-55 | Feeding one more value keeps the result when the value was seen, and appends it otherwise. |
| Seqs.DedupKeepsFirstOccurrenceOrder | Array.java:52-55 | The values come out in the order of their first occurrences. |
| Seqs.FrequenciesSumToLength | Array.java:104-110 | The counts of a frequency table, summed over the distinct values, add up to the length of the input. |
| Seqs.Merge | Array.java:58-75 | The two-run merge has the combined length and the union of the two multisets. |
| Seqs.MergeSorted | Array.java:58-75 | The merge of two sorted sequences is sorted. |
| Seqs.ReversedTwice | String.java:9-11 | Reversing twice gives back the original. |
| Seqs.MaxOfIs | Array.java:78-88 | The largest element of a sequence is the one that is in it and at least every element. |
| StringUtil.ReverseString | String.java:9-11 | The result has the same length and holds the characters in reverse order; "" maps to "". |
| StringUtil.ReverseStringTwice | String.java:9-11 | Reversing a string twice gives it back. |
| StringUtil.RemoveDuplicates | String.java:20-26 | The result is the order-preserving de-duplication of the string: first occurrences, in order, no repeats. |
| StringUtil.CharFrequency | String.java:29-35 | The map has a key exactly for each character of the string, mapped to its number of occurrences. |
| StringUtil.Insert | String.java:41-42 | Inserting a character into a sorted string keeps it sorted and adds that character to its multiset. |
| StringUtil.SortChars | String.java:41-42 | Sorting gives a sorted string with the same multiset of characters. |
| StringUtil.SortedUnique | String.java:41-43 | Two sorted strings with the same multiset are equal, so comparing the sorted arrays compares multisets. |
| StringUtil.IsAnagram | String.java:38-44 | True exactly when the two strings have the same multiset of characters, case-sensitively. |
| StringUtil.LongestCommonPrefix | String.java:58-70 | An empty array gives ""; otherwise the result is a prefix of every string and no longer common prefix exists. |
| StringUtil.PrefixBound | String.java:63-66 | When string j ends or differs at position i, the first i characters are the longest common prefix. |
| StringUtil.DigitRun | String.java:84-87 | The digit run at the start of a string is as long as possible: all its characters are digits and the next one is not. |
| StringUtil.DecompressString | String.java:78-97 | Returns the decompressed text: each digit run followed by a character becomes that many copies of it; a character without digits before it is skipped; digits at the very end, where Java fails, give no result. |
| StringUtil.ReadNumber | String.java:83-87 | Reads the maximal digit run from `start` and returns its decimal value and the position after it. |
| StringUtil.AppendCopies | String.java:89-91 | Appends exactly `num` copies of the character. |
| StringUtil.RunStep | String.java:82-91 | Consuming a digit run and its character keeps the loop invariant relating the text built so far to what is left. |
| StringUtil.SkipStep | String.java:92-94 | Skipping a non-digit keeps the loop invariant. |
| StringUtil.NumToStringValue | String.java:85 | Reading back a count written in decimal gives the count. |
| StringUtil.DecompressEncode | String.java:78-97 | Decompressing a run-length encoding whose characters are not digits gives the text the runs stand for. |
| StringUtil.FirstUniqueChar | String.java:105-113 | Returns nothing exactly when every character repeats; otherwise the character at the earliest position whose character occurs once. |
| StringUtil.RotationIff | String.java:118 | For strings of equal length, s2 occurs in s1 + s1 exactly when s2 is a rotation of s1. |
| StringUtil.RotationWindow | String.java:118 | The window of s + s starting at k is s rotated left by k. |
| StringUtil.IsRotation | String.java:116-119 | False when the lengths differ; otherwise true exactly when s2 is a rotation of s1. |
| MathUtil.GcdRecursive | Math.java:154-156 | The result is 0 exactly when both inputs are 0. |
| MathUtil.Gcd | Math.java:9-16 | The loop computes exactly what the recursive version does, with Java's `%`. |
| MathUtil.GcdWithZero | Math.java:154-156 | gcd(a, 0) = a and gcd(0, b) = b. |
| MathUtil.GcdDivides | Math.java:154-156 | For non-negative inputs the gcd is non-negative and divides both. |
| MathUtil.GcdGreatest | Math.java:154-156 | Every positive common divisor of non-negative inputs divides the gcd. |
| MathUtil.GcdIsLargest | Math.java:154-156 | When the inputs are not both 0, every positive common divisor is at most the gcd. |
| MathUtil.Lcm | Math.java:19-21 | Fails (division by zero) exactly when both inputs are 0. |
| MathUtil.LcmCommonMultiple | Math.java:19-21 | For non-negative inputs, not both 0, the result is a non-negative common multiple and lcm * gcd = a * b. |
| MathUtil.IsPrime | Math.java:24-33 | True exactly when n >= 2 and no number in [2, n) divides n; so false for 0 and 1. |
| MathUtil.NoLargeDivisor | Math.java:29 | A number with no divisor below i, where i * i > n, has no proper divisor at all. |
| MathUtil.OddStep | Math.java:29-30 | For odd n, testing the odd candidate i also rules out i + 1. |
| MathUtil.CrossOut | Math.java:43-45 | Clears exactly the multiples of i from i * i up to n and leaves every other entry. |
| MathUtil.SieveMark | Math.java:42-45 | Crossing out the multiples of a still-marked i extends the sieve invariant to i + 1. |
| MathUtil.SieveSkip | Math.java:42 | An unmarked i has nothing to cross out: the invariant extends to i + 1. |
| MathUtil.SieveDone | Math.java:41 | Once i * i > n, the marks are exactly the primes in [2, n]. |
| MathUtil.SieveStep | Math.java:41-46 | One round of the outer loop keeps the sieve invariant. |
| MathUtil.CrossAll | Math.java:41-47 | After the outer loop, j in [2, n] is marked exactly when j is prime. |
| MathUtil.Collect | Math.java:49-53 | Lists the marked numbers of [2, n], each once, in ascending order. |
| MathUtil.SieveOfEratosthenes | Math.java:36-54 | For n >= 1, returns exactly the primes of [2, n] in ascending order. |
| MathUtil.Factorial | Math.java:57-66 | 0 for n < 0, otherwise n! (1 for 0 and 1). |
| MathUtil.BinomFact | Math.java:69-74 | The binomial coefficient times r! (n - r)! is n!. |
| MathUtil.Combination | Math.java:69-74 | Fails (division by zero) exactly when r is negative and below n. |
| MathUtil.CombinationIsBinom | Math.java:69-74 | For 0 <= r <= n the result is the binomial coefficient, above n it is 0, and for a negative r (below n) the division fails. |
| MathUtil.FallingFact | Math.java:77-80 | The falling product of r factors times (n - r)! is n!. |
| MathUtil.PermutationIsFalling | Math.java:77-80 | For 0 <= r <= n the result is the number of ordered picks of r of n things, and r! times the combination. |
| MathUtil.PowAdd | Math.java:83-93 | b^(x + y) = b^x * b^y. |
| MathUtil.PowHalve | Math.java:86-90 | b^e is b (when e is odd) times (b * b)^(e / 2), the step the loop takes. |
| MathUtil.Power | Math.java:83-93 | Returns base^exp for exp >= 0 and 1 for any exp <= 0. |
| MathUtil.PowMod | Math.java:98 | Reducing the base modulo m first does not change base^k mod m. |
| MathUtil.ModPowIteration | Math.java:100-106 | One round of the loop keeps (result * base^exp) mod m, and the result stays below m once the exponent reaches 0. |
| MathUtil.ModPowLoop | Math.java:100-107 | The loop returns result * base^exp mod m for non-negative values and a positive exponent, and the start value when there is nothing to do. |
| MathUtil.ModularPower | Math.java:96-108 | As written: base^exp mod m for exp > 0, mod > 0 and base >= 0, and 1 for exp <= 0 whatever the modulus. |
| MathUtil.ModularPowerZeroExponent | Math.java:97 | With exp = 0 and mod = 1 the intended answer is 0, not the 1 the source returns. |
| MathUtil.ModularPowerCorrected | Math.java:96-108 | Starting the result at 1 mod m, returns base^exp mod m for every exp >= 0, mod > 0 and base >= 0. |
| MathUtil.SqrtInt | Math.java:111-126 | For n >= 0 returns r >= 0 with r * r <= n < (r + 1) * (r + 1); for negative n the search is empty and n comes back. |
| MathUtil.SquareRootUnique | Math.java:111-126 | The floor square root is the only non-negative number whose square can be n. |
| MathUtil.IsPerfectSquare | Math.java:159-163 | True exactly when n >= 0 and n is the square of an integer. |
| MathUtil.FromDigitsOfDigits | Math.java:129-151 | Reading back the decimal digits of m gives m. |
| MathUtil.FromDigitsInjective | Math.java:140-151 | Two digit strings of equal length with the same value are equal. |
| MathUtil.DigitsStep | Math.java:132-135 | The digits of m are those of m / 10 followed by m % 10, the digit the loop peels off. |
| MathUtil.SumOfDigits | Math.java:129-137 | Returns the sum of the decimal digits of |n|. |
| MathUtil.DigitSumModNine | Math.java:129-137 | The digit sum is congruent to the number modulo 9. |
| MathUtil.ReverseDigitStep | Math.java:145-148 | Peeling the last digit of m onto the reversed number keeps the loop invariant: the digits of m followed by the reversal of those peeled off are the digits of |n|. |
| MathUtil.PalindromeByReversal | Math.java:150 | n equals its digit-reversed absolute value exactly when n >= 0 and its digits read the same reversed. |
| MathUtil.IsPalindromeNumber | Math.java:140-151 | True exactly when n >= 0 and its decimal digits read the same both ways. |

## Left out

- `main` methods and all printing: the traversals that print return the printed sequence instead.
- `Array.arrayStats` (Array.java:9-16): it only prints, and its average is a `double`.
- `String.isPalindrome`, `reverseWords`, `splitString` and `findSubstring` (String.java:14-17, 47-55, 73-75, 100-102): each is a thin wrapper over Java's regular expressions, case conversion or `indexOf`.
- `DynamicProgramming.maxProductSubarray` (DynamicProgramming.java:100-114): it is a Kadane variant whose products overflow `int` quickly. It is not modelled.
- Java's fixed-width arithmetic: `int` and `long` are unbounded here, so overflow in `lcm`'s `a * b`, `factorial`, `power`, `modularPower`'s products and the dynamic-programming sums is not modelled.
- Exceptions become `None`: popping or peeking an empty stack or queue, division by zero in `evalRPN` and `lcm`, a negative `r` in `combination`, and trailing digits in `decompressString`. Stack underflow in `evalRPN` on a malformed token list is `None` as well.
- `StackAndQueue.EvalRpn`: it takes the tokens already parsed into numbers and operators; `Integer.parseInt` of the token text is not modelled.
- `StringUtil.DigitRun`: `Character.isDigit` is read as the ASCII digits `'0'..'9'`; other Unicode decimal digits are not modelled.
- Iteration order of `HashSet` and `HashMap`: `intersection` returns a set, and `frequencyMap` and `charFrequency` return maps, so the order in which Java lists them is not part of the model.
- `GraphNode` objects: a node is identified by its value, as the Java `visited` sets do, and a graph of nodes is an adjacency list indexed by value. Object identity and aliasing are not modelled.
- `Math.max` and `Math.min`: the classes named `Math` and `String` shadow `java.lang`, so these calls would not resolve as written. The model uses the standard integer maximum and minimum.
- DynamicProgramming.CoinChange: it requires every coin to be positive. A zero coin leaves the Java table unchanged, and a negative coin indexes past the end of it; neither case is modelled.
- DynamicProgramming.CoinChange: it also requires amount >= 0. Java throws on every negative amount: for -1 the table is empty and `dp[0] = 0` fails, and below -1 `new int[amount + 1]` fails.
- DynamicProgramming.Rob: optimality over all choices of non-adjacent houses is proved only when no amount is negative. For other inputs the contract states the recurrence value.
- DynamicProgramming.Knapsack: it requires at least as many values as weights. Java reads `values[i - 1]` only when the item's weight is within the current capacity, so an item without a value does not make Java throw when its weight exceeds `capacity`; for example, `knapsack(3, {5}, {})` returns 0. These inputs are not modelled.
- DynamicProgramming.Knapsack, DynamicProgramming.SubsetSum and DynamicProgramming.CountSubsetSum: they require non-negative weights or numbers and a non-negative capacity or sum, because the Java tables index out of range otherwise.
- MathUtil.ModularPower: the value is stated only for a non-negative base and a positive modulus. With Java's truncating `%` a negative base gives a negative remainder, which the contract does not describe.
- MathUtil.Lcm: the common-multiple property is stated for non-negative inputs only.
- Java's 32-bit `int` wrap-around is not modelled in these places, where it changes the answer for large inputs:
  - `isPrime`'s `i * i` (Math.java:29) wraps once i passes 46340, so `isPrime(2147483647)` returns false in Java; MathUtil.IsPrime answers true.
  - the sieve's `i * i` and `j += i` (Math.java:41-43) wrap for n near `Integer.MAX_VALUE`.
  - `sumOfDigits(Integer.MIN_VALUE)` (Math.java:131): `Math.abs` returns the negative input, so Java returns 0.
  - `isPalindromeNumber`'s `reversed` (Math.java:146) can wrap for ten-digit inputs.
  - `evalRPN`'s `+`, `-` and `*` (StackAndQueue.java:41-47) wrap, and `Integer.MIN_VALUE / -1` gives `Integer.MIN_VALUE`.
  - Kadane's running sums in `maxSubarraySum` (Array.java:83) wrap.
  - `decompressString`'s repeat count `num` (String.java:85) wraps for long digit runs.
- Strings are sequences of Unicode scalar values. Java strings are UTF-16, and a character outside the Basic Multilingual Plane is two `char`s there, so StringUtil.RemoveDuplicates, StringUtil.CharFrequency, StringUtil.IsAnagram, StringUtil.LongestCommonPrefix and StringUtil.FirstUniqueChar treat it as one unit where Java sees a surrogate pair.
- MathUtil.SieveOfEratosthenes: requires n >= 1. For n = 0 Java throws when writing `prime[1]`, and for negative n it throws on the array size.
- MathUtil.ModularPower and MathUtil.ModularPowerCorrected: require mod != 0. With mod = 0 Java throws at `base %= mod`.
- ArrayUtil.MaxSubarraySum: requires a non-empty array. Java throws reading `arr[0]` of an empty one.
- ArrayUtil.RotateRight: requires k >= 0. For a negative k that is a multiple of the length Java leaves the array unchanged. For any other negative k Java reverses the whole array and then throws an index error.
- StackAndQueue.MaxSlidingWindow: requires 1 <= k <= n for non-empty input. Java returns an empty array for k = n + 1, throws for larger k, and returns an array of n - k + 1 entries for k <= 0.
- Graph.PathExists: vertices are `nat`, so negative vertex numbers are not modelled. Java returns true when they are equal. Otherwise a negative source throws at `graph.get`, and a valid source with a negative destination returns false. A source outside 0..n-1 that differs from the destination makes Java throw, and the precondition excludes it.

## Findings

| source | as written | input that shows it | evidently intended | confidence | as-written member | corrected member |
|---|---|---|---|---|---|---|
| DynamicProgramming.java:191 | `Arrays.stream(dp).max().orElse(1)` returns 1 for an empty array | `arr = {}` gives 1 | 0, the length of the longest increasing subsequence of an empty array | not executed | DynamicProgramming.LongestIncreasingSubsequenceAsWritten (with DynamicProgramming.LisOfEmptyIsNotOne) | DynamicProgramming.LongestIncreasingSubsequence |
| Math.java:97 | `result` starts at 1 and is never reduced when `exp` is 0 | `modularPower(5, 0, 1)` gives 1 | 5^0 mod 1 = 0, i.e. start from `1 % mod` | not executed | MathUtil.ModularPower (with MathUtil.ModularPowerZeroExponent) | MathUtil.ModularPowerCorrected |
