# Verified model of six algorithm exercises

This project models six exercises from a collection of practice solutions,
and proves what each of them promises:

- the array-backed **min-heap** of `Algorithm_Stack3_W3D2.js`: index arithmetic, `size`, `top`,
  `insert` with `shiftUp`, and the commented-out `extract` with `shiftDown`;
- its earlier draft, `Algorithm_Stack3_W3D1.js`: `top` and a one-swap `insert`;
- the **binary search tree** queries of `Algorithm_Stack3_W2D2.js`: `isEmpty`, `min`/`minRecursive`,
  `max`/`maxRecursive`, `contains`, `containsRecursive` and `range`;
- **maximum depth of a binary tree**, `tree/MaximumDepthOfBinaryTree.java`: the recursive
  `solutionOne`, the breadth-first `solutionTwo`, and the level-order builder
  `buildTreeLevelOrder`;
- the **mode** of an array, `algo_02_20_modeInArray.js`;
- in-place **array reversal**, `algo_01_05_reverseArray.js`.

Each file is one Dafny module:

| file | module | models |
|---|---|---|
| `wrappers.dfy` | `Wrappers` | `Option` (JavaScript `null`) and `Result` (a run-time `TypeError`) |
| `min_heap.dfy` | `Heap` | the W3D2 heap as a class over a `seq` field, proved against heap-order predicates |
| `draft_min_heap.dfy` | `DraftHeap` | the W3D1 draft, with JavaScript's coercion of `null` to 0 in `<` |
| `bst.dfy` | `BinarySearchTree` | the tree as an inductive datatype; the loops as methods proved against recursive functions |
| `max_depth.dfy` | `MaximumDepth` | both depth algorithms, and the builder over an arena of node cells |
| `array_mode.dfy` | `ArrayMode` | `mode` with a `map` frequency table |
| `reverse_array.dfy` | `ArrayReverse` | `reverseArr` on a Dafny `array` |

Code that changes state stays imperative. The heaps are classes whose methods
reassign a sequence field. `reverseArr` swaps in place in an `array`. The
`while`/`for` loops of `min`, `max`, `contains`, `solutionTwo`,
`buildTreeLevelOrder` and `mode` are methods with loop invariants. Each one is
proved against a recursive specification function, and lemmas then state
what that function means.

## Model

| member | source | states |
|---|---|---|
| `Heap.IdxOfParent` | Algorithm_Stack3_W3D2.js:27-29 | the parent of an index of at least 2 is a real index below it, and the index is one of its two children |
| `Heap.IdxOfLeftChild` | Algorithm_Stack3_W3D2.js:34-36 | the left child of `i` has `i` as its parent, is even, and lies beyond `i` |
| `Heap.IdxOfRightChild` | Algorithm_Stack3_W3D2.js:41-43 | the right child is the left child's sibling and has `i` as its parent |
| `Heap.SwapPermutes` | Algorithm_Stack3_W3D2.js:50-52 | exchanging two key cells keeps the layout and the multiset of keys |
| `Heap.RootIsMinimal` | Algorithm_Stack3_W3D2.js:66-73 | in an ordered heap, index 1 is no larger than the key at any index (induction up the parent chain) |
| `Heap.RootIsMinimum` | Algorithm_Stack3_W3D2.js:66-73 | in an ordered heap, index 1 is no larger than any stored key |
| `Heap.ShiftUpStep` | Algorithm_Stack3_W3D2.js:108-122 | one `shiftUp` swap with a strictly larger parent moves the only possible order violation up to the parent |
| `Heap.ShiftDownStep` | Algorithm_Stack3_W3D2.js:189-217 | one `shiftDown` swap with the smaller child moves the only possible violation down to that child |
| `Heap.ShiftDownSettled` | Algorithm_Stack3_W3D2.js:204-210 | when the node has no child, or is no larger than its smaller child, the whole array is in heap order |
| `Heap.MoveLastToRoot` | Algorithm_Stack3_W3D2.js:167-177 | popping the last cell and writing it at index 1 removes exactly the old root key, and only the root can be out of order |
| `Heap.MinHeap.constructor` | Algorithm_Stack3_W3D2.js:16-23 | the array is `[null]`, with no keys, size 0, `top` null, and heap order |
| `Heap.MinHeap.Size` | Algorithm_Stack3_W3D2.js:60-63 | the number of stored keys, one less than the array length |
| `Heap.MinHeap.Top` | Algorithm_Stack3_W3D2.js:71-73 | null exactly when there are no keys; otherwise the key at index 1, which is the minimum of an ordered heap |
| `Heap.MinHeap.Swap` | Algorithm_Stack3_W3D2.js:50-52 | the two cells are exchanged and every other cell is unchanged |
| `Heap.MinHeap.Insert` | Algorithm_Stack3_W3D2.js:97-102 | the result is the new size; the keys gain exactly `num`; heap order is preserved |
| `Heap.MinHeap.ShiftUp` | Algorithm_Stack3_W3D2.js:105-123 | the keys are only permuted; an array ordered except at its last index ends fully ordered |
| `Heap.MinHeap.Extract` | Algorithm_Stack3_W3D2.js:161-181 | null on an empty heap, leaving it unchanged; otherwise returns the key at index 1 and the keys lose exactly that key; heap order is preserved, so the result is the minimum |
| `Heap.MinHeap.ShiftDown` | Algorithm_Stack3_W3D2.js:184-218 | the keys are only permuted; an array ordered except below index 1 ends fully ordered |
| `Heap.ExampleInserts` | Algorithm_Stack3_W3D2.js:241-245 | a new heap given 10, 5, 1 and 7 holds four keys, and `top()` is 1 |
| `DraftHeap.TopOf` | Algorithm_Stack3_W3D1.js:31-36 | `top` returns `heap[1]` exactly when it is a non-zero key; otherwise (placeholder, missing cell, or 0) null |
| `DraftHeap.DraftInserted` | Algorithm_Stack3_W3D1.js:47-57 | the array grows by one cell holding `num` and keeps its multiset; `num` stays last unless it is smaller than the cell at `floor(iLast / 2)` (`null` counting as 0), in which case the two exchange; no other cell moves, and afterwards the last cell is not smaller than its parent |
| `DraftHeap.MinHeap.constructor` | Algorithm_Stack3_W3D1.js:16-23 | the array is `[null]` and `top` is null |
| `DraftHeap.MinHeap.Top` | Algorithm_Stack3_W3D1.js:31-36 | `top` on the current array, as `TopOf` |
| `DraftHeap.MinHeap.Insert` | Algorithm_Stack3_W3D1.js:47-57 | the `while` loop whose indices never change performs the single exchange of `DraftInserted`; the array itself is returned |
| `DraftHeap.TopHidesZero` | Algorithm_Stack3_W3D1.js:31-36 | an ordered heap whose minimum is 0 gets null from `top` |
| `DraftHeap.NegativeFirstInsert` | Algorithm_Stack3_W3D1.js:47-57 | a negative first key is compared with `null`, which counts as 0, and is swapped below the placeholder, so `top` is null |
| `DraftHeap.InsertBreaksOrder` | Algorithm_Stack3_W3D1.js:47-57 | inserting 1 into the ordered `[null, 3, 5, 6, 7]` leaves the array out of heap order |
| `DraftHeap.ExampleFirstInserts` | Algorithm_Stack3_W3D1.js:108-110 | inserting 10 and then 5 into a new heap leaves `[null, 5, 10]` |
| `DraftHeap.ExampleInserts` | Algorithm_Stack3_W3D1.js:108-114 | inserting 10, 5, 1 and 7 into a new heap leaves `[null, 1, 7, 5, 10]`, whose `top()` is 1 |
| `BinarySearchTree.IsEmpty` | Algorithm_Stack3_W2D2.js:47-49 | the root is null exactly when the tree stores no value |
| `BinarySearchTree.MinRecursive` | Algorithm_Stack3_W2D2.js:78-87 | null exactly for an empty tree; otherwise a stored value, and under the documented ordering the smallest |
| `BinarySearchTree.MaxRecursive` | Algorithm_Stack3_W2D2.js:116-125 | null exactly for an empty tree; otherwise a stored value, and under the documented ordering the largest |
| `BinarySearchTree.Min` | Algorithm_Stack3_W2D2.js:59-68 | the loop down the left spine returns what `minRecursive` returns, for every start node |
| `BinarySearchTree.Max` | Algorithm_Stack3_W2D2.js:97-106 | the loop down the right spine returns what `maxRecursive` returns, for every start node |
| `BinarySearchTree.ContainsWalk` | Algorithm_Stack3_W2D2.js:159-176 | `contains`'s walk only says `true` for a value the tree stores |
| `BinarySearchTree.Contains` | Algorithm_Stack3_W2D2.js:155-177 | `false` on an empty tree; otherwise the answer of the walk, and a `true` answer is a stored value |
| `BinarySearchTree.SearchCorrect` | Algorithm_Stack3_W2D2.js:26-28 | under the documented ordering, a search that goes left on larger data and right otherwise finds a value exactly when the tree stores it |
| `BinarySearchTree.ContainsExactOnFullTree` | Algorithm_Stack3_W2D2.js:155-177 | on an ordered tree where every node has zero or two children, `contains` answers `true` exactly for stored values |
| `BinarySearchTree.ContainsWalkIsSearchOnFullTree` | Algorithm_Stack3_W2D2.js:160-170 | on such a tree, `contains`'s walk is ordinary search |
| `BinarySearchTree.ContainsRecursive` | Algorithm_Stack3_W2D2.js:187-196 | `false` exactly when the root is null; otherwise `true` when search from `current` finds the value, and a null-dereference failure when it does not |
| `BinarySearchTree.ContainsRecursiveOnOrderedTree` | Algorithm_Stack3_W2D2.js:187-196 | on a non-empty ordered tree, the answer is `true` exactly for stored values and a failure for all others; it never answers `false` |
| `BinarySearchTree.Range` | Algorithm_Stack3_W2D2.js:207-210 | fails on a null start node; null for a node without children; otherwise, under the ordering, the largest difference between two stored values, never negative |
| `BinarySearchTree.ContainsMissesThirteen` | Algorithm_Stack3_W2D2.js:228-242 | `threeLevelTree` is ordered and stores 13, yet `contains(13)` answers `false`; search finds it |
| `BinarySearchTree.ContainsRecursiveFailsOnAbsent` | Algorithm_Stack3_W2D2.js:263 | `containsRecursive(50)` on `threeLevelTree` fails on a null node |
| `BinarySearchTree.ExampleContains` | Algorithm_Stack3_W2D2.js:254-258 | `contains` on `emptyTree` (5), `oneNodeTree` (10), `twoLevelTree` (5) and `threeLevelTree` (50) answers false, true, true, false |
| `BinarySearchTree.ExampleContainsRecursive` | Algorithm_Stack3_W2D2.js:259-262 | `containsRecursive` on `emptyTree` (5), `oneNodeTree` (10) and `twoLevelTree` (5) answers false, true, true |
| `MaximumDepth.SolutionOne` | tree/MaximumDepthOfBinaryTree.java:167-180 | the depth is 0 exactly for an empty tree and never exceeds the number of nodes |
| `MaximumDepth.LevelNodes` | tree/MaximumDepthOfBinaryTree.java:209-231 | a level of the tree holds no null node |
| `MaximumDepth.NextLevel` | tree/MaximumDepthOfBinaryTree.java:217-230 | offering the non-null children of level `k`, in polling order, gives exactly level `k + 1` |
| `MaximumDepth.ChildrenAppend` | tree/MaximumDepthOfBinaryTree.java:217-230 | offering children distributes over concatenation of queues |
| `MaximumDepth.LevelNonEmpty` | tree/MaximumDepthOfBinaryTree.java:209-211 | level `k` holds a node exactly when `k` is below the recursive depth |
| `MaximumDepth.PollStep` | tree/MaximumDepthOfBinaryTree.java:217-230 | each poll takes the next node of the level, and offering its children keeps the queue's shape |
| `MaximumDepth.LevelDone` | tree/MaximumDepthOfBinaryTree.java:214-230 | after a whole level has been polled, the queue is exactly the next level |
| `MaximumDepth.SolutionTwo` | tree/MaximumDepthOfBinaryTree.java:194-235 | the breadth-first count of levels equals `solutionOne` on every tree |
| `MaximumDepth.ToTree` | tree/MaximumDepthOfBinaryTree.java:51 | the tree reached from a created node is non-null and holds that node's value |
| `MaximumDepth.ToTreeValues` | tree/MaximumDepthOfBinaryTree.java:59-84 | every value of a reachable subtree is held by that node or by a node created after it |
| `MaximumDepth.Attach` | tree/MaximumDepthOfBinaryTree.java:65-81 | a new leaf is appended and becomes `curr`'s left (or right) child; every other cell is unchanged, and links still point forward |
| `MaximumDepth.Offer` | tree/MaximumDepthOfBinaryTree.java:65-70 | a child is created only from an in-bounds slot other than -1; the arena stays well linked and the root keeps its value |
| `MaximumDepth.Round` | tree/MaximumDepthOfBinaryTree.java:59-84 | one poll with its left and right offers keeps the arena well linked, with every node after the root holding an array value other than -1 |
| `MaximumDepth.BuildLoop` | tree/MaximumDepthOfBinaryTree.java:59-84 | the finished loop leaves a well-linked arena whose root keeps `vals[0]` and whose other nodes hold array values other than -1 |
| `MaximumDepth.LinkLevelOrder` | tree/MaximumDepthOfBinaryTree.java:49-84 | the imperative queue loop creates exactly the nodes of `BuildLoop`, root first |
| `MaximumDepth.CreatedBeyond` | tree/MaximumDepthOfBinaryTree.java:65-76 | slots past the end of the array create no node |
| `MaximumDepth.OfferSlot` | tree/MaximumDepthOfBinaryTree.java:63-72 | reading slot `j` for node `(j - 1) / 2` (left when `j` is odd, right when even) settles exactly that slot's link, and a new node's number is appended to the queue |
| `MaximumDepth.RoundSlots` | tree/MaximumDepthOfBinaryTree.java:59-84 | each round polls the nodes in creation order and reads the next two slots, keeping the queue the consecutive node numbers still to poll |
| `MaximumDepth.LoopExit` | tree/MaximumDepthOfBinaryTree.java:59 | when the queue is empty or the slots run out, every slot a node owns is settled, and the node count is one more than the number of creating slots among them |
| `MaximumDepth.BuildLoopSlots` | tree/MaximumDepthOfBinaryTree.java:59-84 | from any reachable loop state, the finished loop obeys the slot rule |
| `MaximumDepth.LevelOrderSlots` | tree/MaximumDepthOfBinaryTree.java:42-85 | for every non-empty array: the root holds `vals[0]`; node `p` (creation order) takes slot `2p + 1` as left and `2p + 2` as right child; a slot creates a node exactly when it is in the array and not -1, and nodes are numbered in slot order; slots left over when the queue empties create nothing |
| `MaximumDepth.LevelOrderTreeValues` | tree/MaximumDepthOfBinaryTree.java:42-85 | a non-empty array builds a tree rooted at `vals[0]`; every other node holds an array value other than -1 |
| `MaximumDepth.BinaryTree.constructor` | tree/MaximumDepthOfBinaryTree.java:36-38 | a new tree is empty |
| `MaximumDepth.BinaryTree.BuildTreeLevelOrder` | tree/MaximumDepthOfBinaryTree.java:42-85 | a null or empty array leaves `root` unchanged; otherwise `root` becomes the level-order tree, rooted at `vals[0]` |
| `MaximumDepth.ExampleThreeLevels` | tree/MaximumDepthOfBinaryTree.java:239-241 | `[3, 9, 20, -1, -1, 15, 7]` builds 3 / (9, 20 / (15, 7)), of depth 3 |
| `MaximumDepth.ExampleRightOnly` | tree/MaximumDepthOfBinaryTree.java:244-246 | `[1, -1, 2]` builds 1 with only a right child 2, of depth 2 |
| `MaximumDepth.ExampleEmpty` | tree/MaximumDepthOfBinaryTree.java:249-250 | an empty tree has depth 0 |
| `MaximumDepth.ExampleLeftoverSlots` | tree/MaximumDepthOfBinaryTree.java:59 | slots left over once the queue is empty are ignored |
| `ArrayMode.MaxCount` | algo_02_20_modeInArray.js:59-61 | the largest count is 0 exactly for an empty array |
| `ArrayMode.MaxCountIsLargest` | algo_02_20_modeInArray.js:51-62 | no value occurs more often than `maxFreq`, and in a non-empty array some value occurs exactly that often |
| `ArrayMode.ModeSetNonEmpty` | algo_02_20_modeInArray.js:64-72 | a non-empty array has a mode, so "all values tie" means exactly "every value is a mode" |
| `ArrayMode.CountsStep` | algo_02_20_modeInArray.js:52-61 | one counting step keeps the table exact for the longer prefix and updates the largest count |
| `ArrayMode.CollectStep` | algo_02_20_modeInArray.js:64-68 | examining one more key keeps the result exact for the keys seen: the keys with the largest count, each once |
| `ArrayMode.CollectedAll` | algo_02_20_modeInArray.js:64-72 | after every key, the result holds exactly the modes, and it holds every key exactly when all values tie |
| `ArrayMode.CountFrequencies` | algo_02_20_modeInArray.js:51-62 | the table has one key per distinct value, holding its number of occurrences, and `maxFreq` is the largest count |
| `ArrayMode.Mode` | algo_02_20_modeInArray.js:38-75 | `[]` for an empty input and the input for one element; otherwise `[]` exactly when all values tie, else exactly the values of largest count, each once |
| `ArrayMode.ExamplesAllTie` | algo_02_20_modeInArray.js:18-28 | `[5, 1, 4]` and `[5, 1, 4, 1, 5, 4]` tie, so the answer is `[]` |
| `ArrayMode.ExampleOneMode` | algo_02_20_modeInArray.js:21-22 | `[5, 1, 4, 1]` has the single mode 1 |
| `ArrayMode.ExampleTwoModes` | algo_02_20_modeInArray.js:24-25 | `[5, 1, 4, 1, 5]` has the modes 5 and 1 |
| `ArrayReverse.ReversedAt` | algo_01_05_reverseArray.js:46-55 | reversal keeps the length and moves position `k` to `length - 1 - k` |
| `ArrayReverse.ReversedLength` | algo_01_05_reverseArray.js:46-55 | reversal keeps the length |
| `ArrayReverse.MirrorIsReversed` | algo_01_05_reverseArray.js:48-53 | any sequence whose position `k` holds position `length - 1 - k` of `s` is `Reversed(s)` |
| `ArrayReverse.ReversedTwice` | algo_01_05_reverseArray.js:46-55 | reversing twice gives back the original |
| `ArrayReverse.ReverseArr` | algo_01_05_reverseArray.js:46-55 | returns the same array, whose contents are now the reverse of the old contents |

## Left out

- Printing and demonstration code is not modelled: `print`, `printHorizontalTree`, `printLevelOrder` and the `console.log`/`System.out` calls. The outputs of the demonstration calls appear as examples: `Heap.ExampleInserts` and `DraftHeap.ExampleInserts` for the two heaps; `BinarySearchTree.ExampleContains`, `BinarySearchTree.ExampleContainsRecursive` and `BinarySearchTree.ContainsRecursiveFailsOnAbsent` for the tree queries; the `ArrayMode.Example*` lemmas for `mode`; and the `MaximumDepth.Example*` lemmas for the Java `main`. The W3D2 heap's printed tree is not stated cell by cell: its example gives the size and `top()` only. The `range` demonstration calls pass numbers where nodes are expected (see the next line).
- JavaScript numbers are modelled as unbounded integers. `NaN`, fractions and non-number arguments are outside the model. So are calls such as `emptyTree.range(5)` that pass a number where a node is expected.
- ArrayMode.Mode: the result holds integers, while the source pushes the string keys that `for ... in` produces. The order of the result is left unspecified. JavaScript visits the non-negative integer keys first, in ascending order, and then the negative ones in insertion order.
- ArrayMode.Mode: the `|nums| == 1` case returns the input array itself. The model returns an equal sequence; the aliasing is not modelled.
- DraftHeap.MinHeap.Insert: the source returns `this.heap`, the heap's own array, so a caller holding it sees later inserts and can change the heap through it. The model returns a sequence equal to the heap at that moment; the aliasing is not modelled.
- MaximumDepth.BinaryTree.BuildTreeLevelOrder: Java node objects and their reference identity are modelled by an arena of cells, with child links as creation numbers. `root` is assigned once the linking is finished, not before the loop. That matters only to code that observes `root` mid-build, and there is none.
- MaximumDepth.SolutionOne: Java's 32-bit `int` is not modelled. A depth cannot exceed the node count, and the node count is bounded by memory.
- ArrayReverse.ReverseArr: the source writes `endIdx` without declaring it, which creates a global variable. That side effect is not modelled.
- The first draft of `extract` (Algorithm_Stack3_W3D2.js:140-159) is not modelled. It is commented out, superseded by the second draft, and never completes a swap.
- `Heap.MinHeap.Extract` and `Heap.MinHeap.Top` return null (`None`) on an empty heap, as the code and its doc comments (Algorithm_Stack3_W3D2.js:69, :138) say. No error is raised, and keys are not validated.
- Time and space complexity claims in the comments are not modelled.

## Findings

| source | as written | input that shows it | evidently intended | confidence | as-written member | corrected member |
|---|---|---|---|---|---|---|
| Algorithm_Stack3_W3D1.js:31-36 | `top` tests `heap[1]` for truthiness | heap `[null, 0, 4]`: `top()` gives `null` although 0 is stored | return `heap[1]` whenever the array holds a key | not executed | `DraftHeap.TopHidesZero` | `Heap.MinHeap.Top` |
| Algorithm_Stack3_W3D1.js:47-57 | the swap loop never updates `iLast` or `iParent`, so at most one swap happens | `[null, 3, 5, 6, 7]` then `insert(1)` gives `[null, 3, 1, 6, 7, 5]`, with 1 below 3 | shift the new key up until its parent is no larger | not executed | `DraftHeap.InsertBreaksOrder` | `Heap.MinHeap.Insert` |
| Algorithm_Stack3_W2D2.js:155-177 | the search loop stops at the first node missing either child | `threeLevelTree`, `contains(13)` gives `false` although 13 is stored | descend until a null link | not executed | `BinarySearchTree.ContainsMissesThirteen` | `BinarySearchTree.SearchCorrect` |
| Algorithm_Stack3_W2D2.js:187-196 | recursion reaches a null `current` and reads `current.data` | `threeLevelTree`, `containsRecursive(50)` throws a `TypeError` | answer `false` when `current` is null | not executed | `BinarySearchTree.ContainsRecursiveFailsOnAbsent` | `BinarySearchTree.SearchCorrect` |
