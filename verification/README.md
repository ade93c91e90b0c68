# CSS343 data structures in Dafny

A Dafny model of the three data structures of the CSS343 assignments:

- **GraphM** (`Assignment3/graphm.cpp`) is a directed graph kept as a
  MAXNODES x MAXNODES cost matrix. It also keeps a path table `travel[source][node]`
  of `{dist, path, visited}` entries.
  - `findShortestPath` runs one array-scan Dijkstra pass per source.
  - `display` and `displayAll` unwind the `path` predecessors into routes.
  - The modules are `Walks`, `Dijkstra` and `GraphM`:
    - `Walks` holds the reference definitions: walks, weights, reachability, minimality.
    - `Dijkstra` holds one source's pass and its correctness proof.
    - `GraphM` holds the graph operations.
- **Poly** (`Assignment1/poly.cpp`) is a dense integer polynomial kept as a
  coefficient array. In Dafny it is the `Polynomial` module, over `seq<int>` with at least one slot.
- **BinTree** (`Assignment2/bintree.cpp`) is a binary search tree. In Dafny it is the
  `BinTree` module, an immutable `Tree` datatype over integer keys.
- Two small modules are shared: `Options` (the optional value) and `Numbers` (`Max` and `Min`).

Modelling choices:
- The sentinel NOPATH is `None` of an `Option<nat>`, so distance arithmetic cannot overflow.
- The header files are not part of this model, so some of their constants are assumed:
  - MAXNODES is 100;
  - Poly::EMPTY is 0;
  - the `path` fields of a new GraphM are value-initialised to 0;
  - BinTree's NodeData is an integer key with its usual order.
- Member functions that change an object become functions from the old value to the new one.
- The C++ uses pointers and `new`/`delete`; the model uses plain values.
- Where the code departs from what its comments or its design promise, both versions are modelled:
  - the code as written is a member named `...AsWritten`, or a lemma that shows the difference on a concrete input;
  - the evidently intended version is the one the properties are proved about (see "## Findings").
- `findShortestPath` is meant as a full recompute of the table, but the code never resets `visited`. On a second call, every row therefore starts with no node the selection scan can pick, and the C++ goes on with an uninitialised `from`, which is undefined behaviour. The model stops each source's pass where the scan picks nothing (see Dijkstra.Cheapest under "## Left out"), so it keeps the old table; `FindShortestPathReset` is the full recompute.

Overall results, for non-negative weights:
- From freshly constructed rows, the as-written pass, stopped as admitted under Dijkstra.Cheapest, yields a table whose distances are the minimal walk weights.
- Every finite entry's predecessor chain spells out a shortest walk that repeats no node, and the corrected display (GraphM.Display) reports exactly that walk. `display` as written agrees with it for two different nodes (GraphM.DisplayAsWrittenAgrees). For from == to it does not (GraphM.DisplaySameNodeDetour).

## Model

| member | source | states |
|---|---|---|
| GraphM.New | Assignment3/graphm.cpp:17-25 | A new graph has no nodes. Every cost and every distance is NOPATH, nothing is visited, and every path field is 0. |
| GraphM.InsertEdge | Assignment3/graphm.cpp:71-73 | cost[from][to] becomes the weight. Every other cost entry, the size, the labels and the path table stay as they were. |
| GraphM.RemoveEdge | Assignment3/graphm.cpp:75-77 | cost[from][to] becomes NOPATH and nothing else changes. |
| GraphM.InsertRemoveInverse | Assignment3/graphm.cpp:71-77 | Removing an edge undoes inserting it on a pair that had no edge. A second insert on the same pair overrides the first. |
| GraphM.EdgeUpdatesCheaper | Assignment3/graphm.cpp:71-77 | Inserting a new or lighter edge makes no walk heavier, and removing an edge makes no walk lighter. |
| GraphM.EdgeCount | Assignment3/graphm.cpp:53-68 | The edge list ends at the first `0 0 0` line: no line before it is a terminator, and the line it points at is one. |
| GraphM.BuildGraph | Assignment3/graphm.cpp:43-68 | After parsing, size and labels are set. Every cost entry holds the weight of the last edge line for that pair before the terminator, or its old value if there is none. The path table is untouched. |
| Dijkstra.Cheapest | Assignment3/graphm.cpp:84-92 | The scan picks an unvisited node of least finite distance, the lowest-indexed among equals. It finds none exactly when no unvisited node has a finite distance; that is the case where the C++ leaves `from` uninitialised. |
| Dijkstra.Relax | Assignment3/graphm.cpp:94-105 | An entry changes only if the edge from `from` reaches another, unvisited node and strictly lowers its distance. It then gets the new distance and `from` as predecessor. No distance increases and no visited flag changes. |
| Dijkstra.RunSource | Assignment3/graphm.cpp:80-106 | One source's pass keeps dist[s] = 0, never worsens a distance, never un-visits a node, and touches only the nodes in use. From a fresh row, every distance is the minimal walk weight (NOPATH exactly for unreachable nodes) and every predecessor chain realises it. From an already completed row the scan picks nothing at the first step; with the pass stopped there, as admitted under Dijkstra.Cheapest, the row is unchanged. |
| Dijkstra.Unwind | Assignment3/graphm.cpp:132-138 | Following predecessors back from v for at most `fuel` steps: a route found starts at the source, ends at v, has at most fuel + 1 nodes, and each node after the first has the previous node as its path field. |
| GraphM.FindShortestPath | Assignment3/graphm.cpp:79-108 | The whole pass as written, with each source's pass stopped as admitted under Dijkstra.Cheapest. Rows computed from fresh rows are correct and complete. Rows already completed come back unchanged. Every row obeys the per-pass guarantees above. |
| GraphM.FindShortestPathReset | Assignment3/graphm.cpp:79-108 | With each row cleared before its pass, every row in use is correct for the current costs, whatever the table held before. |
| GraphM.CheaperNeverIncreases | Assignment3/graphm.cpp:79-108 | Correct tables for cheaper costs never have a larger distance. |
| GraphM.DistancesUnique | Assignment3/graphm.cpp:79-108 | Any two correct rows for the same source agree on every distance. |
| GraphM.RecomputeTwice | Assignment3/graphm.cpp:79-108 | On a freshly built graph, with the pass stopped as admitted under Dijkstra.Cheapest, a second findShortestPath returns the first one's table. In the C++ that second call reaches an uninitialised `from` on every row. |
| GraphM.RecomputeAfterInsert | Assignment3/graphm.cpp:79-108 | After an insertEdge, with the pass stopped as admitted under Dijkstra.Cheapest, a second findShortestPath still returns the first pass's table. In the C++ that second call reaches an uninitialised `from` on every row. |
| GraphM.StaleDistanceAfterInsert | Assignment3/graphm.cpp:79-108 | A concrete case whose first pass is well defined: two nodes joined by 1 -> 2 and 2 -> 1 of weight 5, then insertEdge(1, 2, 1). A row correct before the insert keeps node 2 at distance 5, and that row is not correct for the new costs. By RecomputeAfterInsert, it is the row the second pass keeps, stopped as admitted under Dijkstra.Cheapest. |
| GraphM.StaleRowAfterInsert | Assignment3/graphm.cpp:79-108 | A concrete case: two nodes, then the edge 1 -> 2 is inserted. The table kept by the second pass, stopped as admitted under Dijkstra.Cheapest, still says node 2 is unreachable, which is wrong for the new costs. |
| GraphM.Display | Assignment3/graphm.cpp:150-187 | Exactly when an index lies outside 1..size the report is "not in graph", naming an index that is out of range: the larger one when an index exceeds the size, as display does. For indices in range, NOPATH and only NOPATH is reported as no path. |
| GraphM.DisplayShowsShortest | Assignment3/graphm.cpp:150-187 | For a correct row, display reports "no path" exactly for unreachable nodes. Otherwise it reports a shortest walk from `from` to `to`: along real edges, of the reported weight, repeating no node, with matching labels. |
| GraphM.DisplayAsWritten | Assignment3/graphm.cpp:150-187 | Only the upper bounds are checked: exactly when an index exceeds the size the report is "not in graph", naming the larger of the two indices. An index below 1 passes the check (reported as out of bounds). For indices in range, the report is "no path" exactly when the table entry is NOPATH, whether or not the table was ever computed, and a reported route carries the table entry's distance. |
| GraphM.UnwindFromPred | Assignment3/graphm.cpp:166-174 | The as-written unwinding starts at the predecessor of `to` and appends `to`. A route it finds starts at the source, ends at `to`, and has path[from-1][to-1] just before `to`. It finds one exactly when the unwinding from that predecessor does. |
| GraphM.DisplayUpperBoundAgrees | Assignment3/graphm.cpp:151-156 | When an index exceeds the size, the corrected and the as-written display give the same report, naming the larger index. |
| GraphM.DisplayAsWrittenAgrees | Assignment3/graphm.cpp:166-175 | For two different nodes in range and a correct row, unwinding from path[from-1][to-1] gives the same report as the corrected display. |
| GraphM.DisplayLowerBound | Assignment3/graphm.cpp:151-157 | display(0, 1) passes the guard as written and goes on to read outside the arrays. The corrected display reports node 0 as not in the graph. |
| GraphM.DisplaySameNode | Assignment3/graphm.cpp:168-174 | Take display(k, k) for k >= 2, when node 1 is unreachable from node k, after a pass stopped as admitted under Dijkstra.Cheapest (the C++ pass for node k reaches an uninitialised `from` there). The as-written unwinding cycles on node 1 and never reaches the source. The corrected display gives the one-node route [k]. |
| GraphM.DisplaySameNodeDetour | Assignment3/graphm.cpp:159-174 | Two nodes joined both ways, after a correct pass for node 2 that leaves path[1][1] at 0: display(2, 2) as written reports the route 2 -> 1 -> 2 at distance 0, while the corrected display gives the one-node route [2]. |
| GraphM.DisplayAll | Assignment3/graphm.cpp:110-148 | There is one report per ordered pair of different nodes and none on the diagonal. No report is out of range. A pair is reported as "no path" exactly when its table entry is NOPATH. |
| GraphM.DisplayAllShowsShortest | Assignment3/graphm.cpp:110-148 | With correct rows, every report of displayAll is the corrected display's shortest-route report. |
| GraphM.TriangleShortest | Assignment3/graphm.cpp:79-108 | Take the edges 1->2 (5), 2->3 (2) and 1->3 (10). A correct row for node 1 puts node 3 at distance 7, and the route its predecessors spell out is 1 -> 2 -> 3. |
| GraphM.TriangleAfterRemove | Assignment3/graphm.cpp:75-77 | With the edge 2->3 removed, a correct row for node 1 puts node 3 at distance 10, along the direct edge 1 -> 3. |
| Polynomial.Zero | Assignment1/poly.cpp:16-19 | Poly() has one slot, holding EMPTY. |
| Polynomial.Monomial | Assignment1/poly.cpp:21-25 | Poly(c, d) has d + 1 slots, c at index d and EMPTY below it. |
| Polynomial.Constant | Assignment1/poly.cpp:27-30 | Poly(c) has one slot, holding c. |
| Polynomial.Clear | Assignment1/poly.cpp:360-365 | clear() leaves one slot holding EMPTY, whatever the size was. |
| Polynomial.GetCoeff | Assignment1/poly.cpp:256-260 | The intended getCoeff gives a nonzero coefficient only for a stored degree. |
| Polynomial.GetCoeffMonomial | Assignment1/poly.cpp:256-260 | Read through the intended getCoeff, Poly(c, d) is c at degree d and 0 at every other degree, including degrees past the array. |
| Polynomial.GetCoeffAsWritten | Assignment1/poly.cpp:256-260 | As written, getCoeff reads outside the array exactly for the degrees size and size + 1. Every other degree gets the intended value. |
| Polynomial.LeadingIsTopCoeff | Assignment1/poly.cpp:261-264 | getCoeff() is the coefficient of the top slot, as getCoeff(size - 1) reads it, and Poly(c, d) has c there. |
| Polynomial.CombineAsWritten | Assignment1/poly.cpp:48-80 | operator+ and operator- as written: the size is the larger size, and below the greatest common term the coefficients are combined. For equal sizes the top slot is the left operand's leading coefficient; otherwise the rest of the longer operand is copied as is. |
| Polynomial.Combine | Assignment1/poly.cpp:58-62 | The intended operators combine the coefficients of every degree, with the size of the longer operand. |
| Polynomial.Add | Assignment1/poly.cpp:48-81 | The intended operator+ has the longer operand's size, and the coefficient of every degree is the sum of the two coefficients (0 past an array). |
| Polynomial.Sub | Assignment1/poly.cpp:82-114 | The intended operator- has the longer operand's size, and the coefficient of every degree is the difference of the two coefficients (0 past an array). |
| Polynomial.CombineAsWrittenVsIntended | Assignment1/poly.cpp:48-114 | As-written and intended agree below the greatest common term m. At m the written result is the longer operand's coefficient (a's for equal sizes): it is right exactly when the other operand's term at m is 0, except for operator- with a longer rhs, where it is right exactly when a[m] = 2·b[m]. Above m they agree, except in operator- with a longer rhs, where the copied tail is wrong at exactly its nonzero terms. |
| Polynomial.CombineAsWrittenCounterexamples | Assignment1/poly.cpp:57-112 | As written, [1] + [2] is [1] rather than [3], and [1] - 2x is 2x rather than 1 - 2x. |
| Polynomial.TopCoefficientDropped | Assignment1/poly.cpp:57-62 | As written, the sum of the constants 1 and 2 is 1, while the intended sum is 3. |
| Polynomial.TailNotNegated | Assignment1/poly.cpp:107-112 | As written, 1 - 2x copies the right tail without negating it and loses the constant 1. |
| Polynomial.AddSubEval | Assignment1/poly.cpp:48-114 | Evaluated at any x, the intended sum is the sum of the values and the intended difference is the difference of the values. |
| Polynomial.MulAsWritten | Assignment1/poly.cpp:115-131 | operator* as written: every coefficient is the convolution sum. Skipping zero terms changes nothing. The result is the intended product plus one trailing EMPTY slot. |
| Polynomial.Mul | Assignment1/poly.cpp:118 | The intended product has |a| + |b| - 1 slots. |
| Polynomial.ProductSizeCounterexample | Assignment1/poly.cpp:118 | As written, Poly(1) * Poly(1) has two slots, so it is not == to Poly(1). |
| Polynomial.MulEval | Assignment1/poly.cpp:115-131 | The intended and the as-written product both evaluate to the product of the values. |
| Polynomial.Equal | Assignment1/poly.cpp:165-182 | operator== holds exactly when the sizes agree and every coefficient matches, that is, when the arrays are equal. operator!= is its negation. |
| Polynomial.Copy | Assignment1/poly.cpp:32-38 | The copy constructor (and operator=) yields the same size and the same coefficients. |
| Polynomial.SetCoeff | Assignment1/poly.cpp:272-283 | The intended setCoeff(c, d) makes the size max(size, d + 1) and puts c at d. Every other coefficient is kept, and new slots are 0. |
| Polynomial.SetCoeffAsWritten | Assignment1/poly.cpp:272-283 | As written, an in-range setCoeff changes only slot d. Growth goes through the written operator+, which also overwrites the old leading slot with EMPTY. |
| Polynomial.SetCoeffGrowthCounterexample | Assignment1/poly.cpp:274-278 | As written, growing Poly(5) by setCoeff(3, 2) gives 3x^2 and loses the 5. |
| Polynomial.SetCoeffAsWrittenVsIntended | Assignment1/poly.cpp:272-283 | Written and intended setCoeff differ exactly in the old leading slot, and only when the polynomial grows. |
| BinTree.Insert | Assignment2/bintree.cpp:81-99 | A duplicate leaves the tree unchanged and returns false. Otherwise the key is added as one new node. On a search tree, insert succeeds exactly when the key is absent, and the result is again a search tree. |
| BinTree.InsertAll | Assignment2/bintree.cpp:32-40 | Inserting keys one after another keeps a search tree a search tree and adds at most one node per key. |
| BinTree.PreOrderRebuilds | Assignment2/bintree.cpp:28-42 | Inserting a search tree's keys in pre-order into an empty tree rebuilds that exact tree. |
| BinTree.Assign | Assignment2/bintree.cpp:28-42 | operator= gives the destination the source's keys. When the source is a search tree, the destination becomes that same tree. |
| BinTree.EqualIsSameTree | Assignment2/bintree.cpp:44-66 | operator== holds exactly when both trees have the same shape with equal data at every position. |
| BinTree.Equal | Assignment2/bintree.cpp:46-59 | The recursive comparison only succeeds on trees of the same size with the same in-order sequence. |
| BinTree.Retrieve | Assignment2/bintree.cpp:70-77 | retrieve is true exactly when some node anywhere in the tree holds the key, and then `out` holds it. Otherwise `out` is left as it was. |
| BinTree.FindNode | Assignment2/bintree.cpp:123-137 | findNode returns nothing exactly when the key is absent. Otherwise it returns a subtree whose root holds the key. |
| BinTree.FindFirst | Assignment2/bintree.cpp:143-152 | The search inside getHeight: nothing exactly when the key is absent, otherwise a subtree rooted at the key. |
| BinTree.DeepestIsHeight | Assignment2/bintree.cpp:154-165 | The depth-tracking walk of getHeight yields the subtree's height, with a leaf counting 1. |
| BinTree.GetHeight | Assignment2/bintree.cpp:139-166 | getHeight is 0 for an absent key. Otherwise it is the height of the subtree rooted at the key's node. |
| BinTree.MakeEmpty | Assignment2/bintree.cpp:246-258 | After makeEmpty, isEmpty holds and no key is left. |
| BinTree.IsEmpty | Assignment2/bintree.cpp:242-244 | isEmpty holds exactly for a tree with no nodes, that is, no keys. |
| BinTree.FlattenIsInOrder | Assignment2/bintree.cpp:170-179 | The recursive writer of bstreeToArray appends the in-order sequence to what was already written. |
| BinTree.BstreeToArray | Assignment2/bintree.cpp:168-181 | bstreeToArray writes the in-order sequence from index 0: every key once, sorted for a search tree. The tree is left empty. |
| BinTree.LeadingCount | Assignment2/bintree.cpp:188-191 | The element count is the run of non-null slots from index 0, at most 100. |
| BinTree.CopyRightAsWritten | Assignment2/bintree.cpp:216-219 | As written, every subarray with a right half (more than 2 entries) makes the right-copy loop write past rightArray. |
| BinTree.CopyRight | Assignment2/bintree.cpp:216-219 | The intended loop copies exactly the entries after the midpoint. |
| BinTree.Build | Assignment2/bintree.cpp:193-232 | The rebuild puts the middle entry (index n/2) at the root. |
| BinTree.Fill | Assignment2/bintree.cpp:185-228 | On a new root, or with three or more entries, the result lists the entries in order, is balanced and has the middle entry at the root. On an existing root with one or two entries the last entry becomes the root key and the old right subtree stays; with one entry the old left subtree stays too, and with two the first entry becomes the new left subtree. |
| BinTree.BuildInOrder | Assignment2/bintree.cpp:193-232 | The rebuilt tree's in-order sequence is the array order. |
| BinTree.BuildBalanced | Assignment2/bintree.cpp:193-232 | The rebuilt tree is balanced: at every node the two subtree heights differ by at most one. |
| BinTree.BuildIsBst | Assignment2/bintree.cpp:193-232 | A strictly increasing array rebuilds into a search tree. |
| BinTree.ArrayToBSTree | Assignment2/bintree.cpp:183-240 | A null first slot leaves tree and array alone. Otherwise the leading entries are built into the tree and their slots nulled, and nothing else in the array changes. On an empty tree the result lists the entries in order, has the middle entry at the root and is balanced. |
| BinTree.ArrayToBSTreeKeepsOldChildren | Assignment2/bintree.cpp:185-187 | On a tree that already has a root, a single entry only replaces the root's key; the old subtrees stay. |
| BinTree.WriteKeys | Assignment2/bintree.cpp:168-179 | bstreeToArray's writes into the caller's array: the keys go into slots 0 to \|keys\|-1 in order, and every later slot is unchanged. |
| BinTree.ArrayRoundTrip | Assignment2/bintree.cpp:168-240 | For a search tree of at most 100 keys, written by bstreeToArray into a 100-slot array whose slot after the keys is null (or that the keys fill), arrayToBSTree rebuilds a balanced search tree with the same keys in the same order. |
| BinTree.ArrayRoundTripStaleSlot | Assignment2/bintree.cpp:168-191 | bstreeToArray writes no terminator: the one-key tree 1 written over [null, 2, null, ...] is rebuilt with the keys 1 and 2. |

## Left out

- File parsing in `buildGraph` (`ifstream`, `getline`, `stoi`, blank-line skipping) is stream I/O. BuildGraph starts from the parsed node count, labels and edge lines.
- All console output is left out: the column layout of `display` and `displayAll`, `operator<<`, `operator>>`, `Poly::print` and `displaySideways`. Only the reported content is modelled.
- GraphM.Display: the route is reported with the destination at its end. The C++ prints the destination only in the label list, not in the numeric route. That is a matter of rendering.
- GraphM.DisplayAll: a pair without a path is reported as NoPath. The C++ also prints the 0-based source index on that line; that is rendering.
- GraphM.DisplayAsWritten: an index below 1 makes the C++ read outside its arrays. The model reports this as OutOfBounds and does not say what such a read would yield.
- GraphM.Display: an unwinding that does not reach the source within `size` steps (a loop that never ends in the C++) is reported as Unresolved. Routes of a correct table never need more steps.
- Dijkstra.Cheapest: when no unvisited node has a finite distance, the C++ goes on with an uninitialised `from`, which is undefined behaviour. This happens in a first call whenever some node is unreachable from the source, and at the first step of every row in a second call. The model stops that source's pass there and does not say what the C++ would then do.
- GraphM.InsertEdge: weights are non-negative integers. Negative weights are outside what the pass is correct for. A weight equal to NOPATH (INT32_MAX) would read as a missing edge, and that case is not modelled.
- Dijkstra.Relax: the 32-bit overflow of `dist + cost` at Assignment3/graphm.cpp:97 is not modelled; distances are unbounded.
- GraphM.FindShortestPath: for a table that is neither fresh nor completed, only the per-pass guarantees are stated (no worse distances, monotone visited flags), not correctness.
- Polynomial.SetCoeff: negative degrees write outside the array in the C++ and are not modelled. Degrees are natural numbers, and so are the degrees of Poly(c, d).
- Polynomial.Copy: only assignment from a different polynomial is modelled. For `a = a`, operator= (Assignment1/poly.cpp:135-146) frees the array, allocates a new uninitialised one and then copies that new array into itself, so every coefficient becomes indeterminate. The model's values have no identity, so this aliasing case cannot be expressed.
- Polynomial.Combine: coefficients are unbounded integers. The C++ `int` sums and differences (Assignment1/poly.cpp:62 and 96) can overflow, which is undefined behaviour, and that is not modelled.
- Polynomial.Mul: the `int` products and running sums of operator* (Assignment1/poly.cpp:127) can overflow; not modelled, for the same reason.
- Polynomial.Monomial: `degree + 1` (Assignment1/poly.cpp:21) overflows for the largest `int` degree; degrees are unbounded naturals here.
- BinTree.ArrayRoundTrip: holds only for at most 100 keys and an array whose slot after the keys is null (or that the keys fill). bstreeToArray writes no terminator (see BinTree.ArrayRoundTripStaleSlot), and a tree of more than 100 keys makes it write past a 100-slot array.
- BinTree.BstreeToArray: returns the written keys as a sequence and does not model the writes past the caller's array for a tree of more than 100 keys.
- `operator+=`, `-=` and `*=` compose an operator with `operator=` (Copy), and the destructors only release memory. Neither has a separate member.
- Heap ownership and memory leaks are left out: NodeData copies, the leaked nodes when arrayToBSTree reuses a root, and a rejected insert not freeing its argument.
- NodeData internals and the header files are not part of this model; their constants are assumed as stated above.

## Findings

| source | as written | input that shows it | evidently intended | confidence | as-written member | corrected member |
|---|---|---|---|---|---|---|
| Assignment3/graphm.cpp:79-108 | `visited` is never reset, so every row of a second findShortestPath starts with no node to select and goes on with an uninitialised `from` (undefined behaviour); the model stops there and keeps the stale table | two nodes, edges 1 -> 2 (5) and 2 -> 1 (5), findShortestPath (well defined: every node is reachable), insertEdge(1, 2, 1), findShortestPath: no row is recomputed for the new edge, and in the model dist(1, 2) stays 5 (GraphM.StaleDistanceAfterInsert) | each call recomputes every row for the current costs | high that no row is recomputed; what the C++ then does is undefined; not executed | GraphM.RecomputeAfterInsert | GraphM.FindShortestPathReset |
| Assignment3/graphm.cpp:151 | only `from > size` and `to > size` are rejected | display(0, 1) on a graph with at least one node reads data[-1] | indices below 1 are reported as not in the graph | high, not executed | GraphM.DisplayLowerBound | GraphM.Display |
| Assignment3/graphm.cpp:168-174 | the unwinding starts at path[from-1][to-1], which the pass never sets when from == to | two nodes, edges 1 -> 2 and 2 -> 1, findShortestPath, display(2, 2): path[1][1] is still 0 and path[1][0] is 1, so it reports the route 2 1 at distance 0 | the one-node route [from] | medium (path fields assumed value-initialised to 0), not executed | GraphM.DisplaySameNodeDetour | GraphM.Display |
| Assignment1/poly.cpp:57-62 | the summing loop stops before the greatest common term | Poly(1) + Poly(2) gives 1 | 3: the coefficients of every degree are added | high, not executed | Polynomial.TopCoefficientDropped | Polynomial.AddSubEval |
| Assignment1/poly.cpp:107-112 | operator- copies a longer right operand's tail without negating it | Poly(1) - Poly(2, 1) gives 2x | 1 - 2x | high, not executed | Polynomial.TailNotNegated | Polynomial.AddSubEval |
| Assignment1/poly.cpp:258 | the guard admits degrees size and size + 1 | getCoeff(1) on Poly() reads past a one-slot array | 0 for every degree outside the array | high, not executed | Polynomial.GetCoeffAsWritten | Polynomial.GetCoeffMonomial |
| Assignment1/poly.cpp:118 | Poly(EMPTY, \|a\| + \|b\| - 1) allocates \|a\| + \|b\| slots | Poly(1) * Poly(1) has two slots and is not == to Poly(1) | \|a\| + \|b\| - 1 slots | medium, not executed | Polynomial.ProductSizeCounterexample | Polynomial.MulEval |
| Assignment1/poly.cpp:274-278 | growth goes through the faulty operator+, which overwrites the old leading slot | Poly(5).setCoeff(3, 2) gives 3x^2 | 3x^2 + 5 | high, not executed | Polynomial.SetCoeffGrowthCounterexample | Polynomial.SetCoeff |
| Assignment2/bintree.cpp:218 | the right-copy loop runs size - rightSize times | arrayToBSTree with 3 entries writes rightArray[1] into a one-slot array | rightSize iterations | high, not executed | BinTree.CopyRightAsWritten | BinTree.CopyRight |
