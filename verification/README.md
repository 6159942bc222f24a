# CSE-373 data structures and algorithms, modelled in Dafny

This project models six algorithmic components of the CSE 373 course
repository and proves what each one computes:

- `OptimizedHeapMinPQ`: an indexed binary min-heap. Its array is 1-indexed, with a `null`
  sentinel in slot 0, and a side map sends every element to its slot.
- `UnsortedArrayMinPQ`: the same min-priority-queue contract, done with linear scans of an unsorted list.
- `TernarySearchTreeAutocomplete`: prefix search over a ternary search tree.
- `BinarySearchAutocomplete`: prefix search over a sorted list. It runs a binary search, then scans forward.
- `ToposortDAGSolver`: single-source shortest paths on a directed acyclic graph. It relaxes
  the edges in reversed depth-first postorder, and `solution` rebuilds a path from the recorded edges.
- `DynamicProgrammingSeamFinder`: the cheapest horizontal seam of a picture, found by dynamic programming.

State is immutable: each mutating Java method becomes a function or method that returns the new state.
Each Java exception becomes an `Err` value of `Results.Result`.

Modules, one per source class plus shared vocabulary:

| module | file | contents |
|---|---|---|
| `Sequences` | sequences.dfy | the set of a sequence's terms, the absence of repeats and `Collections.reverse`, shared by the autocompletes, the graph search and the seam finder |
| `Results` | results.dfy | the exceptions as `Error`, `Result`, `Option` (a nullable reference) |
| `PriorityNodes` | priority_nodes.dfy | element-priority pairs and the shared min-queue vocabulary (distinct elements, first minimum) |
| `OptimizedHeapMinPQ` | optimized_heap_minpq.dfy | the heap, its representation invariant, `swim`/`sink`/`swap`, all queue operations, both constructors |
| `UnsortedArrayMinPQ` | unsorted_array_minpq.dfy | the list-backed queue with its scans |
| `CharSequences` | char_sequences.dfy | `CharSequence.compare` as a lexicographic order on `seq<char>` (characters are Unicode scalar values, which order like Java's UTF-16 code units only within the Basic Multilingual Plane), literal prefixes, sorted sequences |
| `TernarySearchTreeAutocomplete` | ternary_search_tree.dfy | the tree, its ordering invariant, the set of stored terms, `add`, `getNode`, `collectMatches`, `allMatches` |
| `BinarySearchAutocomplete` | binary_search_autocomplete.dfy | `addAll` (append and sort), the binary search, the scan as written and with its missing guard |
| `Autocompletes` | autocompletes.dfy | the tree and the sorted list with the bound check (`BinarySearchAutocomplete.AllMatches`) give the same answers; the sorted list as written agrees whenever it does not throw |
| `Graphs` | graphs.dfy | weighted directed graphs as `map<V, seq<Edge>>`, paths, reachability, acyclicity |
| `ToposortDAGSolver` | toposort_dag_solver.dfy | the postorder search, the topological order, `relax`, the constructor, `solution` |
| `DynamicProgrammingSeamFinder` | seam_finder.dfy | the cost recurrence, back pointers, the tables, `findHorizontal` |

## Model

| member | source | states |
|---|---|---|
| PriorityNodes.RemovePreservesDistinct | UnsortedArrayMinPQ.java:97-98 | removing one position from a list of distinct elements leaves the others distinct, and the removed element is gone |
| OptimizedHeapMinPQ.Empty | OptimizedHeapMinPQ.java:24-28 | the no-argument constructor yields a valid heap (sentinel only, empty map) of size 0 |
| OptimizedHeapMinPQ.ConsistentMeansDistinct | OptimizedHeapMinPQ.java:15-19 | when the map is the inverse of the array, no element sits in two slots |
| OptimizedHeapMinPQ.Contains | OptimizedHeapMinPQ.java:58-61 | the map lookup is true exactly when some slot from 1 on holds the element |
| OptimizedHeapMinPQ.GetPriority | OptimizedHeapMinPQ.java:64-70 | throws `NoSuchElementException` exactly for an absent element; otherwise returns the priority the array pairs with the element |
| OptimizedHeapMinPQ.StoredPairIsFound | OptimizedHeapMinPQ.java:64-70 | any pair stored in the array is what `getPriority` of its element returns |
| OptimizedHeapMinPQ.RootIsMinimum | OptimizedHeapMinPQ.java:122-147 | in a heap-ordered array slot 1 has a priority no larger than any slot's |
| OptimizedHeapMinPQ.RootIsLeast | OptimizedHeapMinPQ.java:78 | the slot-1 priority bounds every stored priority from below |
| OptimizedHeapMinPQ.PeekMin | OptimizedHeapMinPQ.java:73-79 | throws `NoSuchElementException` exactly on an empty queue; otherwise returns a stored element whose priority is at most every stored priority |
| OptimizedHeapMinPQ.Swap | OptimizedHeapMinPQ.java:155-161 | exchanging two slots and re-pointing both elements keeps the map the inverse of the array and keeps its key set |
| OptimizedHeapMinPQ.SwapKeepsConsistent | OptimizedHeapMinPQ.java:159-160 | the two map updates after the exchange restore the inverse relation |
| OptimizedHeapMinPQ.SwimStep | OptimizedHeapMinPQ.java:123-125 | swapping a slot smaller than its parent moves the only order violation up to the parent |
| OptimizedHeapMinPQ.Swim | OptimizedHeapMinPQ.java:122-127 | from an array ordered except between slot k and its parent, the loop yields a valid heap with the same slots (as a multiset) and the same keys |
| OptimizedHeapMinPQ.SinkStep | OptimizedHeapMinPQ.java:137-145 | swapping a slot with its smaller child, when that child is strictly smaller, moves the only order violation down to the child |
| OptimizedHeapMinPQ.SinkDone | OptimizedHeapMinPQ.java:136-143 | once the slot has no child, or is no larger than its smaller child, the whole array is heap-ordered |
| OptimizedHeapMinPQ.Sink | OptimizedHeapMinPQ.java:134-147 | from an array ordered except between slot k and its children, the loop yields a valid heap with the same slots (as a multiset) and the same keys |
| OptimizedHeapMinPQ.Add | OptimizedHeapMinPQ.java:45-55 | throws `IllegalArgumentException` exactly when the element is present; otherwise the heap stays valid, contains the element, gains exactly the new pair, and its size grows by one |
| OptimizedHeapMinPQ.DropLastKeepsConsistent | OptimizedHeapMinPQ.java:89-90 | dropping the last slot together with its element's map entry keeps the map the inverse of the array |
| OptimizedHeapMinPQ.DropRootOrder | OptimizedHeapMinPQ.java:88-89 | after moving the last slot to the root and dropping the last slot, order can fail only between the root and its children |
| OptimizedHeapMinPQ.DropRoot | OptimizedHeapMinPQ.java:87-90 | the swap-and-remove leaves a consistent heap one smaller, missing exactly the root pair and its element's key, disordered only below the root |
| OptimizedHeapMinPQ.RemoveMin | OptimizedHeapMinPQ.java:82-93 | throws `NoSuchElementException` exactly on an empty queue; otherwise returns an element of least priority and leaves a valid heap one smaller, without exactly that pair and key |
| OptimizedHeapMinPQ.SetPriority | OptimizedHeapMinPQ.java:101-103 | the in-place update breaks order only toward the parent when the priority decreases, only toward the children otherwise |
| OptimizedHeapMinPQ.ChangePriority | OptimizedHeapMinPQ.java:96-109 | throws `NoSuchElementException` exactly for an absent element; otherwise the heap stays valid, the keys are unchanged, the element's old pair is replaced by the new one, and `getPriority` returns the new priority |
| OptimizedHeapMinPQ.FromMapAsWritten | OptimizedHeapMinPQ.java:35-42 | the map-taking constructor as written: one array slot per entry, all of them pairs, none of them the sentinel |
| OptimizedHeapMinPQ.AddAsWritten | OptimizedHeapMinPQ.java:45-55 | `add` on an array without the sentinel: throws exactly for an element already mapped; otherwise the element becomes mapped, no key is lost, and the array gains exactly the new pair |
| OptimizedHeapMinPQ.SwimAsWritten | OptimizedHeapMinPQ.java:122-127 | `swim` on an array without the sentinel keeps its length, holds the same pairs (as a multiset) and loses no key |
| OptimizedHeapMinPQ.FromMapLosesSentinel | OptimizedHeapMinPQ.java:35-42 | one entry gives size 0 although the element is mapped; two entries leave the larger priority in the slot `peekMin` reads |
| OptimizedHeapMinPQ.FromMap | OptimizedHeapMinPQ.java:35-42 | with the sentinel stored first, adding the distinct entries yields a valid heap holding exactly those pairs and keys, of size the number of entries |
| UnsortedArrayMinPQ.Empty | UnsortedArrayMinPQ.java:23-25 | the no-argument constructor yields an empty list |
| UnsortedArrayMinPQ.FromMap | UnsortedArrayMinPQ.java:32-37 | adding distinct entries never throws and stores them in iteration order |
| UnsortedArrayMinPQ.Contains | UnsortedArrayMinPQ.java:49-57 | true exactly when some pair holds the element |
| UnsortedArrayMinPQ.Add | UnsortedArrayMinPQ.java:40-46 | throws `IllegalArgumentException` exactly when the element is present; otherwise appends the pair, so the size grows by one and the elements stay distinct |
| UnsortedArrayMinPQ.GetPriority | UnsortedArrayMinPQ.java:60-68 | throws `NoSuchElementException` exactly for an absent element; otherwise returns the priority of its first pair |
| UnsortedArrayMinPQ.FindMin | UnsortedArrayMinPQ.java:91-96 | the scan ends on the first position of least priority, because it only moves on a strictly smaller one |
| UnsortedArrayMinPQ.PeekMin | UnsortedArrayMinPQ.java:71-83 | throws `NoSuchElementException` exactly when empty; otherwise returns the element of the first least-priority pair |
| UnsortedArrayMinPQ.RemoveMin | UnsortedArrayMinPQ.java:86-100 | throws exactly when empty; otherwise removes exactly the first least-priority pair, keeps the others in order, and the removed element is no longer present |
| UnsortedArrayMinPQ.ChangePriority | UnsortedArrayMinPQ.java:103-113 | throws `NoSuchElementException` exactly for an absent element; otherwise only pairs holding the element change, and they get the new priority |
| TernarySearchTreeAutocomplete.StoredShape | TernarySearchTreeAutocomplete.java:94-106 | a term stored below a path extends the path by at least one character, which is one this position offers |
| TernarySearchTreeAutocomplete.Add | TernarySearchTreeAutocomplete.java:34-53 | inserting `term[i..]` adds exactly that suffix to the terms stored below every path, offers its first character at this level, and keeps the search-tree ordering |
| TernarySearchTreeAutocomplete.AddAll | TernarySearchTreeAutocomplete.java:25-29 | succeeds exactly when every term is non-empty (otherwise `charAt(0)` throws); then the tree stores the old terms plus the new ones and stays ordered |
| TernarySearchTreeAutocomplete.AddIdempotent | TernarySearchTreeAutocomplete.java:37-49 | adding a term a second time leaves the tree unchanged |
| TernarySearchTreeAutocomplete.AddThenFind | TernarySearchTreeAutocomplete.java:34-53 | after adding a non-empty term, descending along it reaches a node flagged as a term |
| TernarySearchTreeAutocomplete.GetNode | TernarySearchTreeAutocomplete.java:73-89 | the node found carries the prefix's last character; with no node nothing stored extends the prefix; with one, the matches are the prefix (if flagged) plus what is stored below its middle child |
| TernarySearchTreeAutocomplete.GetNodeSkips | TernarySearchTreeAutocomplete.java:79-82 | going left or right on a smaller or larger character loses no match |
| TernarySearchTreeAutocomplete.GetNodeStops | TernarySearchTreeAutocomplete.java:84-86 | at the prefix's last character the matches are exactly the node's own term and its middle subtree |
| TernarySearchTreeAutocomplete.GetNodeDescends | TernarySearchTreeAutocomplete.java:87 | on a matching character before the end, every match lies below the middle child |
| TernarySearchTreeAutocomplete.Collect | TernarySearchTreeAutocomplete.java:94-106 | the walk emits exactly the stored terms, in strictly ascending order when the tree is ordered |
| TernarySearchTreeAutocomplete.CollectInOrder | TernarySearchTreeAutocomplete.java:99-105 | left, own term, middle, right concatenate to the node's stored terms, in ascending order |
| TernarySearchTreeAutocomplete.LeftBeforeRest | TernarySearchTreeAutocomplete.java:99-105 | every term from the left subtree sorts before the node's own, middle and right terms |
| TernarySearchTreeAutocomplete.LeftBeforeTerm | TernarySearchTreeAutocomplete.java:99-105 | a left-subtree term sorts before any single term of the rest |
| TernarySearchTreeAutocomplete.SelfBeforeRest | TernarySearchTreeAutocomplete.java:101-105 | the node's own term sorts before its middle and right terms |
| TernarySearchTreeAutocomplete.MidBeforeRight | TernarySearchTreeAutocomplete.java:104-105 | middle-subtree terms sort before right-subtree terms |
| TernarySearchTreeAutocomplete.AllMatches | TernarySearchTreeAutocomplete.java:56-68 | throws exactly for an empty prefix on a non-empty tree; otherwise returns exactly the stored terms extending the prefix, each once, ascending, with the prefix first exactly when it is stored |
| TernarySearchTreeAutocomplete.AllMatchesEveryPrefix | TernarySearchTreeAutocomplete.java:56-68 | with the empty prefix answered as every stored term: for every prefix, exactly the stored terms extending it, strictly ascending |
| TernarySearchTreeAutocomplete.EmptyPrefixThrows | TernarySearchTreeAutocomplete.java:78 | a tree holding only `"a"` throws on the empty prefix although `"a"` extends it; the corrected query returns `["a"]` |
| TernarySearchTreeAutocomplete.NoNodeNoMatch | TernarySearchTreeAutocomplete.java:58-62 | when no node spells the prefix, the empty answer is complete and the prefix is not stored |
| TernarySearchTreeAutocomplete.MatchesBelowNode | TernarySearchTreeAutocomplete.java:63-66 | the prefix followed by the middle subtree's terms is the match set, sorted, and starts with the prefix exactly when the node is flagged |
| BinarySearchAutocomplete.Insert | BinarySearchAutocomplete.java:27 | inserting into a sorted list keeps it sorted and adds exactly the one term |
| BinarySearchAutocomplete.Sort | BinarySearchAutocomplete.java:27 | the result is sorted by `CharSequence.compare` and a permutation of the input |
| BinarySearchAutocomplete.SortedUnique | BinarySearchAutocomplete.java:27 | two sorted permutations of one list are equal, so any correct sort gives this result |
| BinarySearchAutocomplete.AddAll | BinarySearchAutocomplete.java:24-28 | the list becomes a sorted permutation of the old terms plus the new ones |
| BinarySearchAutocomplete.BinarySearch | BinarySearchAutocomplete.java:33 | a non-negative answer indexes the key; a negative one encodes the insertion point, with every term before it smaller and every term from it on larger |
| BinarySearchAutocomplete.ReachesEnd | BinarySearchAutocomplete.java:33-37 | the run from the scan start covers the rest of the list exactly when the list is empty, its last term extends the prefix, or every term sorts below the prefix |
| BinarySearchAutocomplete.BeforeStartNoMatch | BinarySearchAutocomplete.java:33-36 | no term before the scan start extends the prefix unless it equals it (never, when the prefix is stored at most once); every term from the start on is at least the prefix |
| BinarySearchAutocomplete.ScanAsWritten | BinarySearchAutocomplete.java:37-40 | the unguarded scan throws `IndexOutOfBoundsException` exactly when every term from the start extends the prefix; otherwise it equals the guarded scan |
| BinarySearchAutocomplete.Scan | BinarySearchAutocomplete.java:37-40 | the guarded scan returns the longest run from the start whose terms all extend the prefix |
| BinarySearchAutocomplete.AllMatchesAsWritten | BinarySearchAutocomplete.java:31-42 | throws exactly when the list is empty, its last term extends the prefix, or all terms sort below it; when it does not throw, it returns a contiguous sorted run holding exactly the stored terms that extend the prefix, and exactly the filtered list when the prefix is stored at most once |
| BinarySearchAutocomplete.Matches | BinarySearchAutocomplete.java:37-38 | the filter of a list by the prefix: exactly its terms extending the prefix, sorted when the list is |
| BinarySearchAutocomplete.MatchesConcat | BinarySearchAutocomplete.java:37-38 | filtering a concatenation filters each part |
| BinarySearchAutocomplete.AfterRunNoMatch | BinarySearchAutocomplete.java:37-40 | in a sorted list, once a term at or above the prefix fails to extend it, no later term does |
| BinarySearchAutocomplete.RunIsComplete | BinarySearchAutocomplete.java:37-40 | the run the scan returns holds every stored term extending the prefix and nothing else, and is sorted |
| BinarySearchAutocomplete.RunIsMatches | BinarySearchAutocomplete.java:37-40 | a run with no match before or after it is exactly the filtered list |
| BinarySearchAutocomplete.AllMatches | BinarySearchAutocomplete.java:31-42 | with the bound check, returns a contiguous sorted run holding exactly the stored terms that extend the prefix, and exactly the filtered list when the prefix is stored at most once |
| BinarySearchAutocomplete.EmptyPrefixPastEnd | BinarySearchAutocomplete.java:37-40 | on a non-empty list the empty prefix makes the unguarded scan throw, while the filter is the whole list |
| BinarySearchAutocomplete.ScanPastEnd | BinarySearchAutocomplete.java:37 | for the list `["dog"]` and prefix `"d"` the unguarded scan throws although `"dog"` matches |
| Autocompletes.SortedListAnswer | BinarySearchAutocomplete.java:31-42 | for distinct terms the sorted list's matches are strictly ascending and are exactly the terms extending the prefix |
| Autocompletes.SameAnswers | TernarySearchTreeAutocomplete.java:56-68 | loaded with the same distinct non-empty terms, the tree returns, for every non-empty prefix, the same matches in the same order as the sorted list's filter `Matches`, which is what the sorted list with the bound check (`BinarySearchAutocomplete.AllMatches`) returns |
| Autocompletes.SameAnswersEveryPrefix | TernarySearchTreeAutocomplete.java:56-68 | with the empty prefix answered as every term, the tree and the sorted list's filter `Matches` (what the sorted list with the bound check returns) agree on every prefix |
| Autocompletes.CompareAnswers | BinarySearchAutocomplete.java:31-42 | for distinct non-empty terms and a non-empty prefix, the tree and the sorted list with the bound check return the same answer; the sorted list as written throws exactly when the run of matches reaches the end of the list, and otherwise returns that answer too |
| Graphs.Neighbors | ToposortDAGSolver.java:35 | a vertex without an entry has no outgoing edges, and every listed edge leaves that vertex |
| ToposortDAGSolver.Dfs | ToposortDAGSolver.java:62-71 | the search from an unvisited vertex finishes it last, only visits vertices it reaches, visits every target of its edges, and (on the stack invariant) finishes a vertex after its successors except along back edges |
| ToposortDAGSolver.DfsEdges | ToposortDAGSolver.java:64-69 | the loop over the edges from position k visits each of their targets, with the same guarantees |
| ToposortDAGSolver.FinishVertex | ToposortDAGSolver.java:70 | appending the vertex after its edges are done keeps the search well-formed and finishes the vertex |
| ToposortDAGSolver.ChildThenRest | ToposortDAGSolver.java:66-68 | a recursive call followed by the rest of the edge loop composes into the loop's guarantees |
| ToposortDAGSolver.PostOrderFacts | ToposortDAGSolver.java:29-31 | the postorder lists every vertex reachable from the start exactly once, the start last, and on an acyclic graph every vertex after all its successors |
| ToposortDAGSolver.ClosedUnderEdges | ToposortDAGSolver.java:62-71 | a vertex set closed under edges contains everything reachable from its members |
| Sequences.Reverse | ToposortDAGSolver.java:32 | `Collections.reverse`, also at DynamicProgrammingSeamFinder.java line 63: entry i is entry n-1-i of the input |
| ToposortDAGSolver.ReversedPostOrderIsTopological | ToposortDAGSolver.java:31-32 | on an acyclic graph the reversed postorder starts at the start, lists each reachable vertex once, and puts every edge's source before its target |
| ToposortDAGSolver.ReverseFinishOrder | ToposortDAGSolver.java:32 | reversing a finish order in which edges point backward gives a topological order |
| ToposortDAGSolver.ReverseEdgesForward | ToposortDAGSolver.java:32 | after reversal every edge points to a later vertex |
| ToposortDAGSolver.PathClimbs | ToposortDAGSolver.java:34-39 | along a path, positions in a topological order increase |
| ToposortDAGSolver.Relax | ToposortDAGSolver.java:42-52 | throws `NullPointerException` exactly when the source has no distance; otherwise updates the target's distance and edge only on a strict improvement (a missing target counts as infinitely far), so no distance grows |
| ToposortDAGSolver.RelaxEdges | ToposortDAGSolver.java:35-37 | relaxing a vertex's edges never raises a distance and leaves each target no farther than source plus weight |
| ToposortDAGSolver.RelaxAll | ToposortDAGSolver.java:34-39 | the relax loop never raises a distance |
| ToposortDAGSolver.Solve | ToposortDAGSolver.java:24-40 | a successful construction knows the start at distance 0 or less |
| ToposortDAGSolver.InitSettledBounded | ToposortDAGSolver.java:27-28 | the initial maps give the start distance 0 and no edge, the starting point of the loop invariant |
| ToposortDAGSolver.RelaxKeepsSettled | ToposortDAGSolver.java:42-52 | relaxing an edge of a processed vertex succeeds and keeps every recorded edge a graph edge from an earlier vertex with matching distance |
| ToposortDAGSolver.RelaxEdgesOnDag | ToposortDAGSolver.java:35-37 | in topological order the inner loop never throws and keeps the recorded edges consistent |
| ToposortDAGSolver.LastEdgeStep | ToposortDAGSolver.java:35-37 | a path whose last edge leaves the vertex just processed is no shorter than its end's distance |
| ToposortDAGSolver.ProcessVertex | ToposortDAGSolver.java:34-38 | processing the next vertex extends both invariants to one more vertex |
| ToposortDAGSolver.RelaxAllOnDag | ToposortDAGSolver.java:34-39 | the outer loop in topological order never throws and ends with both invariants over all vertices |
| ToposortDAGSolver.SolveOnDag | ToposortDAGSolver.java:24-39 | on an acyclic graph the constructor succeeds with consistent recorded edges and distances bounded by every path |
| ToposortDAGSolver.EveryPathCounted | ToposortDAGSolver.java:34-39 | once all vertices are processed, every path from the start is no shorter than its end's distance |
| ToposortDAGSolver.ShortestDistances | ToposortDAGSolver.java:34-39 | on an acyclic graph the start has distance 0, exactly the reachable vertices have a distance, each at most the weight of every path to it, and the recorded edges descend in rank |
| ToposortDAGSolver.SolvedChained | ToposortDAGSolver.java:24-39 | on an acyclic graph every recorded edge is a graph edge whose target's distance is its source's plus its weight |
| ToposortDAGSolver.Solution | ToposortDAGSolver.java:74-84 | the path ends at the goal, starts at a vertex without a recorded edge, is joined by recorded edges, and is `[goal]` exactly when the goal has no recorded edge |
| ToposortDAGSolver.WalkEdgesRecorded | ToposortDAGSolver.java:78-81 | the edges walked back are the recorded edges of the path's vertices |
| ToposortDAGSolver.WalkIsPath | ToposortDAGSolver.java:74-84 | for a vertex with a distance, the path starts at the start and its edges form a graph path weighing exactly that distance |
| ToposortDAGSolver.ShortestWalk | ToposortDAGSolver.java:74-84 | when the distance bounds every path, the rebuilt path is a shortest one |
| ToposortDAGSolver.SolutionIsShortestPath | ToposortDAGSolver.java:74-84 | on an acyclic graph `solution` gives `[goal]` for an unreached goal, and otherwise a path from the start along recorded edges whose weight is the goal's distance and no more than any other path's |
| DynamicProgrammingSeamFinder.Pick | DynamicProgrammingSeamFinder.java:28-42 | the back pointer is an in-range row at most one away |
| DynamicProgrammingSeamFinder.Recurrence | DynamicProgrammingSeamFinder.java:22-43 | column 0 is the energy; later entries are the energy plus the pointed-to entry, which is least among the adjacent ones, with ties kept on the same row, then the row above, then the row below |
| DynamicProgrammingSeamFinder.Trace | DynamicProgrammingSeamFinder.java:56-61 | following the pointers back from column x gives x+1 in-range entries ending at the given row, adjacent ones at most one apart |
| DynamicProgrammingSeamFinder.TraceEnergy | DynamicProgrammingSeamFinder.java:56-61 | the traced seam's energy equals the table entry it starts from |
| DynamicProgrammingSeamFinder.CostIsMinimal | DynamicProgrammingSeamFinder.java:26-44 | no connected seam ending at a row is cheaper than the table entry for that row |
| DynamicProgrammingSeamFinder.TraceIsCheapest | DynamicProgrammingSeamFinder.java:46-61 | the seam traced from a least last-column entry is no more expensive than any connected seam of that width |
| DynamicProgrammingSeamFinder.FirstColumn | DynamicProgrammingSeamFinder.java:22-24 | column 0 of `dp` holds the energies of column 0 |
| DynamicProgrammingSeamFinder.NextColumn | DynamicProgrammingSeamFinder.java:27-43 | one pass of the inner loop fills column x of `dp` and of `edgeTo` from column x-1 |
| DynamicProgrammingSeamFinder.Table | DynamicProgrammingSeamFinder.java:19-44 | the filled tables hold the cost recurrence and the back pointers in every column |
| DynamicProgrammingSeamFinder.LastColumnMin | DynamicProgrammingSeamFinder.java:46-54 | the chosen end is the first row of least cost in the last column |
| DynamicProgrammingSeamFinder.WalkBack | DynamicProgrammingSeamFinder.java:56-61 | the backward walk lists the traced seam last column first |
| DynamicProgrammingSeamFinder.FindHorizontal | DynamicProgrammingSeamFinder.java:15-65 | for a picture's non-negative width and height, throws an index exception exactly when there is no column or no row; otherwise returns `width` in-range entries, adjacent ones at most one apart, ending at the first cheapest end, whose energy is the table's minimum and no more than that of any connected seam |

## Left out

- File and network I/O, the map-data parsing and the report tool (`MapGraph.java`, `ReportAnalyzer.java`) are not part of this model; neither is the geodesic distance call.
- Priorities, edge weights and energies are `real`. IEEE double rounding, NaN and infinities are not modelled, so `Double.POSITIVE_INFINITY` in `relax` becomes "absent from `distTo`".
- Java object identity, `equals`/`hashCode` and `HashMap` iteration order are not modelled. Elements and vertices are values with decidable equality, and a map's iteration order is an input sequence.
- The picture and the energy function are an abstract `f: (int, int) -> real`. `width` and `height` are plain parameters.
- `Collections.sort` is modelled by its result: a sorted permutation, which is unique. `Collections.binarySearch` is modelled by a bisection loop whose contract is the JDK's documented result.
- The DFS postorder search and the graph's neighbor order are modelled exactly. Recursion depth (a `StackOverflowError` on deep graphs) is not.
- Mutation in place is modelled by returning the new state. After a throw, the partly updated Java object is not modelled. This includes a TST `addAll` that throws midway, having inserted the terms before the empty one.
- ToposortDAGSolver.Solution: takes a ghost rank along which the recorded edges descend. A cyclic chain of recorded edges, on which the Java loop never ends, is excluded. `ShortestDistances` shows the constructor's own result has such a rank on an acyclic graph.
- ToposortDAGSolver.Solve: its own contract only bounds the start's distance. The facts about it are proved for acyclic graphs in `ShortestDistances` and `SolutionIsShortestPath`. On a cyclic graph the Java constructor does not throw either, because every vertex other than the start is first reached from a vertex that precedes it in the relax order; the model computes the same result there but does not prove that it succeeds.
- ToposortDAGSolver.RelaxAll: states only that no distance grows. What the loop achieves is stated by `RelaxAllOnDag`.
- OptimizedHeapMinPQ.SwimAsWritten: states the pairs and keys it keeps, but not heap order, which the missing sentinel breaks at slot 0. It serves the counterexample of the map-taking constructor.
- OptimizedHeapMinPQ.AddAsWritten: states the error case, the new key and the added pair, but not heap order or `size`, which the missing sentinel breaks. It serves the same counterexample.
- OptimizedHeapMinPQ.FromMapAsWritten: states only the array's shape. The broken invariant is exhibited by `FromMapLosesSentinel`.
- Characters are Unicode scalar values. Java's UTF-16 code-unit order and string length for characters beyond the Basic Multilingual Plane (a surrogate pair is one `char` here, two in Java), and lone surrogates, are not modelled; the tree therefore holds one node where Java holds two for such a character.
- `size` and `isEmpty` are `Size` (the array length minus the sentinel, or the list length), with `isEmpty` taken as `size() == 0`. Their rows are the operations that use them.
- Complexity claims (logarithmic heap operations, linear DAG relaxation) are not modelled.

## Findings

| source | as written | input that shows it | evidently intended | confidence | as-written member | corrected member |
|---|---|---|---|---|---|---|
| BinarySearchAutocomplete.java:37 | the scan reads `elements.get(i)` with no `i < size()` guard | list `["dog"]`, prefix `"d"`: `"dog"` is added, then index 1 is read and `IndexOutOfBoundsException` is thrown | stop at the end of the list and return `["dog"]` | not executed | BinarySearchAutocomplete.AllMatchesAsWritten | BinarySearchAutocomplete.AllMatches |
| TernarySearchTreeAutocomplete.java:78 | `getNode` reads `prefix.charAt(0)` without checking for an empty prefix, and the sorted-list scan runs off the end for it too, although the empty prefix is a prefix of every term | a tree holding only `"a"` and the prefix `""`: `StringIndexOutOfBoundsException`; the sorted list `["a"]` throws `IndexOutOfBoundsException` (lemma `BinarySearchAutocomplete.EmptyPrefixPastEnd`) | return every stored term in ascending order | not executed | TernarySearchTreeAutocomplete.EmptyPrefixThrows | TernarySearchTreeAutocomplete.AllMatchesEveryPrefix |
| OptimizedHeapMinPQ.java:35-42 | the map-taking constructor never stores the slot-0 sentinel | a map holding only `a ↦ 1.0`: `size()` is 0 and `peekMin` throws, although `contains(a)` is true (lemma `FromMapLosesSentinel`) | store the sentinel first, as the no-argument constructor does | not executed | OptimizedHeapMinPQ.FromMapAsWritten | OptimizedHeapMinPQ.FromMap |
