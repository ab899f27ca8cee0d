/**
 * Maximum depth of a binary tree, tree/MaximumDepthOfBinaryTree.java.
 *
 * A `TreeNode` is an inductive datatype (`Nil` for `null`): the trees built
 * here are acyclic and unshared. `solutionOne` is plain recursion;
 * `solutionTwo` is a breadth-first loop over a queue, modelled as a sequence
 * polled at the front and offered at the back. `buildTreeLevelOrder` links
 * nodes it reaches through a queue; its objects are modelled as an arena of
 * cells numbered in creation order, and a child link is the child's number.
 */
module MaximumDepth {
  import opened Wrappers

  datatype TreeNode = Nil | Node(val: int, left: TreeNode, right: TreeNode)

  /** The number of nodes. */
  function Size(t: TreeNode): (n: nat)
  {
    match t
    case Nil => 0
    case Node(_, l, r) => Size(l) + 1 + Size(r)
  }

  /** The values held by the nodes. */
  ghost function Values(t: TreeNode): (vs: set<int>)
  {
    match t
    case Nil => {}
    case Node(v, l, r) => Values(l) + {v} + Values(r)
  }

  function Max(a: int, b: int): (m: int)
  {
    if a < b then b else a
  }

  // ---------------------------------------------------------------------------
  // solutionOne
  // ---------------------------------------------------------------------------

  /**
   * `solutionOne(root)`: 0 for `null`, otherwise one more than the deeper
   * subtree. The depth is 0 exactly for the empty tree and never exceeds the
   * number of nodes.
   */
  function SolutionOne(root: TreeNode): (depth: nat)
    ensures depth == 0 <==> root == Nil
    ensures depth <= Size(root)
  {
    if root == Nil then 0
    else
      var leftDepth := SolutionOne(root.left);
      var rightDepth := SolutionOne(root.right);
      Max(leftDepth, rightDepth) + 1
  }

  // ---------------------------------------------------------------------------
  // Levels, the reference for the breadth-first traversal
  // ---------------------------------------------------------------------------

  /** No `null` in a queue of nodes. */
  ghost predicate NonNull(q: seq<TreeNode>)
  {
    forall k :: 0 <= k < |q| ==> q[k] != Nil
  }

  /** The nodes at distance `k` from the root, left to right. */
  function LevelNodes(t: TreeNode, k: nat): (level: seq<TreeNode>)
    ensures NonNull(level)
  {
    match t
    case Nil => []
    case Node(_, l, r) =>
      if k == 0 then [t] else LevelNodes(l, k - 1) + LevelNodes(r, k - 1)
  }

  /** What the inner loop offers for one polled node: its left child, then its right one, skipping `null`. */
  function Kids(t: TreeNode): (kids: seq<TreeNode>)
    requires t != Nil
    ensures NonNull(kids)
  {
    (if t.left != Nil then [t.left] else []) + (if t.right != Nil then [t.right] else [])
  }

  /** What the inner loop offers for a whole level, in polling order. */
  function Children(q: seq<TreeNode>): (next: seq<TreeNode>)
    requires NonNull(q)
    ensures NonNull(next)
  {
    if q == [] then [] else Children(q[..|q| - 1]) + Kids(q[|q| - 1])
  }

  lemma {:induction false} ChildrenAppend(a: seq<TreeNode>, b: seq<TreeNode>)
    requires NonNull(a) && NonNull(b)
    ensures Children(a + b) == Children(a) + Children(b)
    decreases |b|
  {
    if b == [] {
      assert a + b == a;
    } else {
      var b' := b[..|b| - 1];
      assert (a + b)[..|a + b| - 1] == a + b';
      ChildrenAppend(a, b');
    }
  }

  /** Offering the children of level `k` produces exactly level `k + 1`. */
  lemma {:induction false} NextLevel(t: TreeNode, k: nat)
    ensures Children(LevelNodes(t, k)) == LevelNodes(t, k + 1)
  {
    match t
    case Nil =>
    case Node(_, l, r) =>
      if k == 0 {
        assert LevelNodes(t, 0) == [t];
        assert Children([t]) == Children([]) + Kids(t);
        match l {
          case Nil =>
          case Node(_, _, _) => assert LevelNodes(l, 0) == [l];
        }
        match r {
          case Nil =>
          case Node(_, _, _) => assert LevelNodes(r, 0) == [r];
        }
      } else {
        NextLevel(l, k - 1);
        NextLevel(r, k - 1);
        ChildrenAppend(LevelNodes(l, k - 1), LevelNodes(r, k - 1));
      }
  }

  /** Level `k` holds a node exactly when `k` is below the depth: the depth counts the non-empty levels. */
  lemma {:induction false} LevelNonEmpty(t: TreeNode, k: nat)
    ensures LevelNodes(t, k) != [] <==> k < SolutionOne(t)
  {
    match t
    case Nil =>
    case Node(_, l, r) =>
      if k > 0 {
        LevelNonEmpty(l, k - 1);
        LevelNonEmpty(r, k - 1);
      }
  }

  // ---------------------------------------------------------------------------
  // solutionTwo
  // ---------------------------------------------------------------------------

  /**
   * One round of the inner loop, on a queue holding the rest of `level` from
   * `i` followed by what the earlier nodes offered: the polled node is
   * `level[i]`, and after its children are offered the queue has the same
   * form for `i + 1`.
   */
  lemma PollStep(level: seq<TreeNode>, i: nat, queue: seq<TreeNode>)
    requires NonNull(level) && i < |level|
    requires queue == level[i..] + Children(level[..i])
    ensures queue != [] && queue[0] == level[i]
    ensures queue[1..] + Kids(level[i]) == level[i + 1..] + Children(level[..i + 1])
  {
    assert level[..i + 1][..i] == level[..i];
    assert queue[1..] == level[i + 1..] + Children(level[..i]);
  }

  /** Once every node of level `d` has been polled, the queue is level `d + 1`. */
  lemma LevelDone(t: TreeNode, d: nat, level: seq<TreeNode>, queue: seq<TreeNode>)
    requires level == LevelNodes(t, d)
    requires queue == level[|level|..] + Children(level[..|level|])
    ensures queue == LevelNodes(t, d + 1)
  {
    assert level[..|level|] == level;
    assert level[|level|..] == [];
    NextLevel(t, d);
  }

  /**
   * `solutionTwo(root)`: 0 for `null`; otherwise, while the queue is not
   * empty, count one more level and replace the queue's current level by the
   * non-null children of its nodes. At the top of every round the queue is
   * exactly the next level and `depth` the number of levels already started;
   * the result equals `solutionOne`.
   */
  method SolutionTwo(root: TreeNode) returns (depth: nat)
    ensures depth == SolutionOne(root)
  {
    if root == Nil {
      return 0;
    }
    var queue := [root];
    depth := 0;
    while queue != []
      invariant queue == LevelNodes(root, depth)
      invariant depth <= SolutionOne(root)
      decreases SolutionOne(root) - depth
    {
      LevelNonEmpty(root, depth);
      ghost var started := depth;
      depth := depth + 1;
      var levelSize := |queue|;
      ghost var level := queue;
      for i := 0 to levelSize
        invariant queue == level[i..] + Children(level[..i])
      {
        PollStep(level, i, queue);
        var curr := queue[0];
        queue := queue[1..];
        ghost var rest := queue;
        if curr.left != Nil {
          queue := queue + [curr.left];
        }
        assert queue == rest + if curr.left != Nil then [curr.left] else [];
        if curr.right != Nil {
          queue := queue + [curr.right];
        }
        assert queue == rest + Kids(curr);
      }
      LevelDone(root, started, level, queue);
    }
    LevelNonEmpty(root, depth);
  }

  // ---------------------------------------------------------------------------
  // buildTreeLevelOrder
  // ---------------------------------------------------------------------------

  /** A created `TreeNode`: its value and the creation numbers of its children. */
  datatype Cell = Cell(val: int, left: Option<nat>, right: Option<nat>)

  /** Every link points to a node created later (children are always new nodes). */
  ghost predicate WellFormed(nodes: seq<Cell>)
  {
    forall k :: 0 <= k < |nodes| ==>
      && (nodes[k].left.Some? ==> k < nodes[k].left.value < |nodes|)
      && (nodes[k].right.Some? ==> k < nodes[k].right.value < |nodes|)
  }

  /** Every node but the first (the root) holds a value of `vals` other than -1. */
  ghost predicate FromSlots(vals: seq<int>, nodes: seq<Cell>)
  {
    forall k :: 1 <= k < |nodes| ==> nodes[k].val != -1 && nodes[k].val in vals
  }

  /**
   * The state of `buildTreeLevelOrder`'s loop: the created nodes are well
   * linked, hold values of the array, and every queued number names one of them.
   */
  ghost predicate Arena(vals: seq<int>, nodes: seq<Cell>, queue: seq<nat>)
  {
    WellFormed(nodes) && Queued(nodes, queue) && FromSlots(vals, nodes)
  }

  /** The tree rooted at node number `k`. */
  function ToTree(nodes: seq<Cell>, k: nat): (t: TreeNode)
    requires WellFormed(nodes) && k < |nodes|
    ensures t != Nil && t.val == nodes[k].val
    decreases |nodes| - k
  {
    var c := nodes[k];
    Node(c.val,
         if c.left.Some? then ToTree(nodes, c.left.value) else Nil,
         if c.right.Some? then ToTree(nodes, c.right.value) else Nil)
  }

  /** Every value of the tree at `k` is held by node `k` or by a later node. */
  lemma {:induction false} ToTreeValues(nodes: seq<Cell>, k: nat, v: int)
    requires WellFormed(nodes) && k < |nodes|
    requires v in Values(ToTree(nodes, k))
    ensures exists j :: k <= j < |nodes| && nodes[j].val == v
    decreases |nodes| - k
  {
    var c := nodes[k];
    if v == c.val {
    } else if c.left.Some? && v in Values(ToTree(nodes, c.left.value)) {
      ToTreeValues(nodes, c.left.value, v);
    } else {
      ToTreeValues(nodes, c.right.value, v);
    }
  }

  /** `curr.left = new TreeNode(v)` (or `curr.right`): a new node, linked from `curr`. */
  function Attach(nodes: seq<Cell>, curr: nat, v: int, asLeft: bool): (r: seq<Cell>)
    requires WellFormed(nodes) && curr < |nodes|
    ensures WellFormed(r) && |r| == |nodes| + 1 && r[|nodes|] == Cell(v, None, None)
    ensures r[curr] == if asLeft then nodes[curr].(left := Some(|nodes|)) else nodes[curr].(right := Some(|nodes|))
    ensures forall k :: 0 <= k < |nodes| && k != curr ==> r[k] == nodes[k]
    ensures forall k :: 0 <= k < |nodes| ==> r[k].val == nodes[k].val
  {
    var c := nodes[curr];
    var linked := if asLeft then c.(left := Some(|nodes|)) else c.(right := Some(|nodes|));
    nodes[curr := linked] + [Cell(v, None, None)]
  }

  /** Every queued number names a created node. */
  ghost predicate Queued(nodes: seq<Cell>, queue: seq<nat>)
  {
    forall k :: 0 <= k < |queue| ==> queue[k] < |nodes|
  }

  /**
   * One half of a round: when slot `slot` is in bounds and not -1, a new node
   * holding it becomes `curr`'s left (or right) child and joins the queue.
   */
  function Offer(vals: seq<int>, nodes: seq<Cell>, queue: seq<nat>, curr: nat, slot: nat, asLeft: bool)
    : (r: (seq<Cell>, seq<nat>))
    requires Arena(vals, nodes, queue) && curr < |nodes|
    ensures Arena(vals, r.0, r.1) && |nodes| <= |r.0| && r.0[0].val == nodes[0].val
  {
    if slot < |vals| && vals[slot] != -1 then
      (Attach(nodes, curr, vals[slot], asLeft), queue + [|nodes|])
    else
      (nodes, queue)
  }

  /**
   * One round of the `while` loop of `buildTreeLevelOrder`: poll a node;
   * slot `i` becomes its left child and slot `i + 1` its right child.
   */
  function Round(vals: seq<int>, nodes: seq<Cell>, queue: seq<nat>, i: nat): (r: (seq<Cell>, seq<nat>))
    requires Arena(vals, nodes, queue) && queue != []
    ensures Arena(vals, r.0, r.1) && |nodes| <= |r.0| && r.0[0].val == nodes[0].val
  {
    var curr := queue[0];
    var afterLeft := Offer(vals, nodes, queue[1..], curr, i, true);
    Offer(vals, afterLeft.0, afterLeft.1, curr, i + 1, false)
  }

  /** The `while` loop run to the end: rounds while the queue is not empty and slots remain. Returns every node created. */
  function BuildLoop(vals: seq<int>, nodes: seq<Cell>, queue: seq<nat>, i: nat): (r: seq<Cell>)
    requires Arena(vals, nodes, queue) && nodes != []
    ensures WellFormed(r) && FromSlots(vals, r) && |nodes| <= |r| && r[0].val == nodes[0].val
    decreases |vals| - i
  {
    if queue == [] || i >= |vals| then nodes
    else
      var next := Round(vals, nodes, queue, i);
      BuildLoop(vals, next.0, next.1, i + 2)
  }

  /** The tree `buildTreeLevelOrder` links up from a non-empty array. */
  function LevelOrderTree(vals: seq<int>): (t: TreeNode)
  {
    if |vals| == 0 then Nil
    else ToTree(BuildLoop(vals, [Cell(vals[0], None, None)], [0], 1), 0)
  }

  /**
   * A non-empty array gives a root holding `vals[0]`; every other node holds
   * a value of the array other than -1 (a -1 slot creates no child).
   */
  lemma LevelOrderTreeValues(vals: seq<int>)
    requires |vals| > 0
    ensures LevelOrderTree(vals) != Nil && LevelOrderTree(vals).val == vals[0]
    ensures forall v :: v in Values(LevelOrderTree(vals).left) + Values(LevelOrderTree(vals).right) ==>
      v != -1 && v in vals
  {
    var nodes := BuildLoop(vals, [Cell(vals[0], None, None)], [0], 1);
    var t := ToTree(nodes, 0);
    forall v | v in Values(t.left) + Values(t.right)
      ensures v != -1 && v in vals
    {
      var c := nodes[0];
      if v in Values(t.left) {
        ToTreeValues(nodes, c.left.value, v);
      } else {
        ToTreeValues(nodes, c.right.value, v);
      }
    }
  }

  // ---------------------------------------------------------------------------
  // The slot rule of buildTreeLevelOrder, for every array
  // ---------------------------------------------------------------------------

  /** How many of the slots `1 .. j - 1` lie in the array and are not -1, that is, create a node. */
  function Created(vals: seq<int>, j: nat): (count: nat)
  {
    if j <= 1 then 0
    else Created(vals, j - 1) + (if j - 1 < |vals| && vals[j - 1] != -1 then 1 else 0)
  }

  /** Slots past the end of the array create nothing. */
  lemma {:induction false} CreatedBeyond(vals: seq<int>, j: nat)
    requires j >= |vals|
    ensures Created(vals, j) == Created(vals, |vals|)
    decreases j
  {
    if j > |vals| {
      CreatedBeyond(vals, j - 1);
    }
  }

  /**
   * The link a node got from slot `slot`: it exists exactly when the slot is
   * in the array and not -1, and then it names the node created for that
   * slot, numbered by how many slots up to it created a node, holding the
   * slot's value.
   */
  ghost predicate SlotLinked(vals: seq<int>, nodes: seq<Cell>, slot: nat, link: Option<nat>)
  {
    && (link.Some? <==> slot < |vals| && vals[slot] != -1)
    && (link.Some? ==> link.value == Created(vals, slot + 1) && link.value < |nodes| && nodes[link.value].val == vals[slot])
  }

  /** Node `p` owns slots `2p + 1` (its left child) and `2p + 2` (its right child). */
  ghost predicate SlotRule(vals: seq<int>, nodes: seq<Cell>)
  {
    forall p :: 0 <= p < |nodes| ==>
      SlotLinked(vals, nodes, 2 * p + 1, nodes[p].left) && SlotLinked(vals, nodes, 2 * p + 2, nodes[p].right)
  }

  /** A slot below `j` has been read and obeys the rule; a later one has not, and its link is still `null`. */
  ghost predicate SlotSoFar(vals: seq<int>, nodes: seq<Cell>, slot: nat, link: Option<nat>, j: nat)
  {
    if slot < j then SlotLinked(vals, nodes, slot, link) else link == None
  }

  /** The slot rule for the slots read so far. */
  ghost predicate SlotRuleSoFar(vals: seq<int>, nodes: seq<Cell>, j: nat)
  {
    forall p :: 0 <= p < |nodes| ==>
      SlotSoFar(vals, nodes, 2 * p + 1, nodes[p].left, j) && SlotSoFar(vals, nodes, 2 * p + 2, nodes[p].right, j)
  }

  /** The queue holds the node numbers `first .. n - 1`, in order. */
  ghost predicate Consecutive(queue: seq<nat>, first: nat, n: nat)
  {
    first <= n && |queue| == n - first && forall k :: 0 <= k < |queue| ==> queue[k] == first + k
  }

  /**
   * The loop's state at the top of a round that would read slot `j`: nodes
   * are polled in creation order, so node `(j - 1) / 2` is at the front of the
   * queue, and every slot before `j` has been read.
   */
  ghost predicate Progress(vals: seq<int>, nodes: seq<Cell>, queue: seq<nat>, j: nat)
  {
    && j % 2 == 1
    && Consecutive(queue, (j - 1) / 2, |nodes|)
    && |nodes| == 1 + Created(vals, j)
    && SlotRuleSoFar(vals, nodes, j)
  }

  /** Every old node keeps its value in `next`. */
  ghost predicate Extends(nodes: seq<Cell>, next: seq<Cell>)
  {
    |nodes| <= |next| && forall k :: 0 <= k < |nodes| ==> next[k].val == nodes[k].val
  }

  /** Reading slot `j` settles that slot's link and leaves every other slot as it was. */
  lemma SlotAdvance(vals: seq<int>, nodes: seq<Cell>, next: seq<Cell>, slot: nat,
                    before: Option<nat>, after: Option<nat>, j: nat)
    requires Extends(nodes, next) && SlotSoFar(vals, nodes, slot, before, j)
    requires slot != j || !(j < |vals| && vals[j] != -1) ==> after == before
    requires slot == j && j < |vals| && vals[j] != -1 ==>
      after == Some(|nodes|) && |nodes| == Created(vals, j + 1) && |nodes| < |next| && next[|nodes|].val == vals[j]
    ensures SlotSoFar(vals, next, slot, after, j + 1)
  {
  }

  /** One `Offer` reads slot `j` for node `(j - 1) / 2`, on its left when `j` is odd and on its right when even. */
  lemma OfferSlot(vals: seq<int>, nodes: seq<Cell>, queue: seq<nat>, curr: nat, j: nat, asLeft: bool)
    requires Arena(vals, nodes, queue) && curr < |nodes|
    requires j >= 1 && curr == (j - 1) / 2 && asLeft == (j % 2 == 1)
    requires |nodes| == 1 + Created(vals, j) && SlotRuleSoFar(vals, nodes, j)
    ensures |Offer(vals, nodes, queue, curr, j, asLeft).0| == 1 + Created(vals, j + 1)
    ensures SlotRuleSoFar(vals, Offer(vals, nodes, queue, curr, j, asLeft).0, j + 1)
    ensures var r := Offer(vals, nodes, queue, curr, j, asLeft);
      (|r.0| == |nodes| && r.1 == queue) || (|r.0| == |nodes| + 1 && r.1 == queue + [|nodes|])
  {
    var next := Offer(vals, nodes, queue, curr, j, asLeft).0;
    var valid := j < |vals| && vals[j] != -1;
    assert Created(vals, j + 1) == Created(vals, j) + (if valid then 1 else 0);
    assert valid ==> next == Attach(nodes, curr, vals[j], asLeft);
    assert !valid ==> next == nodes;
    assert asLeft ==> 2 * curr + 1 == j;
    assert !asLeft ==> 2 * curr + 2 == j;
    forall p | 0 <= p < |next|
      ensures SlotSoFar(vals, next, 2 * p + 1, next[p].left, j + 1)
      ensures SlotSoFar(vals, next, 2 * p + 2, next[p].right, j + 1)
    {
      if p < |nodes| {
        assert p != curr ==> 2 * p + 1 != j && 2 * p + 2 != j;
        SlotAdvance(vals, nodes, next, 2 * p + 1, nodes[p].left, next[p].left, j);
        SlotAdvance(vals, nodes, next, 2 * p + 2, nodes[p].right, next[p].right, j);
      } else {
        assert next[p] == Cell(vals[j], None, None);
      }
    }
  }

  /** The queue after polling its front node. */
  lemma ConsecutivePoll(queue: seq<nat>, first: nat, n: nat)
    requires Consecutive(queue, first, n) && queue != []
    ensures queue[0] == first && Consecutive(queue[1..], first + 1, n)
  {
  }

  /** Offering a node appends its number to the queue exactly when the node is created. */
  lemma ConsecutiveOffer(queue: seq<nat>, first: nat, n: nat, next: seq<nat>, m: nat)
    requires Consecutive(queue, first, n)
    requires (m == n && next == queue) || (m == n + 1 && next == queue + [n])
    ensures Consecutive(next, first, m)
  {
  }

  /** One round reads slots `i` and `i + 1` for the polled node `(i - 1) / 2`. */
  lemma RoundSlots(vals: seq<int>, nodes: seq<Cell>, queue: seq<nat>, i: nat, next: (seq<Cell>, seq<nat>))
    requires Arena(vals, nodes, queue) && queue != [] && i < |vals|
    requires Progress(vals, nodes, queue, i)
    requires next == Round(vals, nodes, queue, i)
    ensures Progress(vals, next.0, next.1, i + 2)
  {
    var curr := queue[0];
    var first := (i - 1) / 2;
    ConsecutivePoll(queue, first, |nodes|);
    var rest := queue[1..];
    var afterLeft := Offer(vals, nodes, rest, curr, i, true);
    OfferSlot(vals, nodes, rest, curr, i, true);
    ConsecutiveOffer(rest, first + 1, |nodes|, afterLeft.1, |afterLeft.0|);
    var afterRight := Offer(vals, afterLeft.0, afterLeft.1, curr, i + 1, false);
    OfferSlot(vals, afterLeft.0, afterLeft.1, curr, i + 1, false);
    ConsecutiveOffer(afterLeft.1, first + 1, |afterLeft.0|, afterRight.1, |afterRight.0|);
    assert next == afterRight;
    assert (i + 2 - 1) / 2 == first + 1;
  }

  /** The loop stops when the queue is empty or the slots run out; every slot a node owns is then settled. */
  lemma LoopExit(vals: seq<int>, nodes: seq<Cell>, queue: seq<nat>, j: nat)
    requires Progress(vals, nodes, queue, j) && (queue == [] || j >= |vals|)
    ensures Finished(vals, nodes)
  {
    if queue == [] {
      assert j == 2 * |nodes| + 1;
    } else {
      CreatedBeyond(vals, j);
      CreatedBeyond(vals, 2 * |nodes| + 1);
    }
    forall p | 0 <= p < |nodes|
      ensures SlotLinked(vals, nodes, 2 * p + 1, nodes[p].left)
      ensures SlotLinked(vals, nodes, 2 * p + 2, nodes[p].right)
    {
      assert SlotSoFar(vals, nodes, 2 * p + 1, nodes[p].left, j);
      assert SlotSoFar(vals, nodes, 2 * p + 2, nodes[p].right, j);
    }
  }

  /** The finished arena: every owned slot is settled, and no node was created beyond them. */
  ghost predicate Finished(vals: seq<int>, nodes: seq<Cell>)
  {
    SlotRule(vals, nodes) && |nodes| == 1 + Created(vals, 2 * |nodes| + 1)
  }

  /** The loop from any state satisfying `Progress` ends with every owned slot settled. */
  lemma {:induction false} BuildLoopSlots(vals: seq<int>, nodes: seq<Cell>, queue: seq<nat>, i: nat)
    requires Arena(vals, nodes, queue) && nodes != [] && Progress(vals, nodes, queue, i)
    ensures Finished(vals, BuildLoop(vals, nodes, queue, i))
    decreases |vals| - i
  {
    if queue == [] || i >= |vals| {
      LoopExit(vals, nodes, queue, i);
    } else {
      var next := Round(vals, nodes, queue, i);
      RoundSlots(vals, nodes, queue, i, next);
      BuildLoopSlots(vals, next.0, next.1, i + 2);
      assert BuildLoop(vals, nodes, queue, i) == BuildLoop(vals, next.0, next.1, i + 2);
    }
  }

  /**
   * The slot rule of `buildTreeLevelOrder`, for every non-empty array. The
   * root holds `vals[0]`. Node number `p`, counted in creation order (which is
   * also the order the queue polls them), takes slot `2p + 1` as its left
   * child and slot `2p + 2` as its right child. A slot creates a node exactly
   * when it lies in the array and is not -1, and the nodes are numbered in
   * slot order. Nothing else is created: there is one node per such slot
   * among those the nodes own, plus the root, so the slots left over once
   * the queue runs empty are ignored.
   */
  lemma LevelOrderSlots(vals: seq<int>)
    requires |vals| > 0
    ensures var nodes := BuildLoop(vals, [Cell(vals[0], None, None)], [0], 1);
      && nodes[0].val == vals[0]
      && SlotRule(vals, nodes)
      && |nodes| == 1 + Created(vals, 2 * |nodes| + 1)
  {
    var root := [Cell(vals[0], None, None)];
    assert Progress(vals, root, [0], 1);
    BuildLoopSlots(vals, root, [0], 1);
    assert Finished(vals, BuildLoop(vals, root, [0], 1));
  }

  class BinaryTree {
    var root: TreeNode

    /** `new BinaryTree()`: an empty tree. */
    constructor ()
      ensures root == Nil
    {
      root := Nil;
    }

    /**
     * `buildTreeLevelOrder(vals)`: a `null` or empty array leaves `root` as it
     * was; otherwise `root` becomes the tree linked up level by level from
     * `vals`, with -1 meaning "no child".
     */
    method BuildTreeLevelOrder(vals: array?<int>)
      modifies this
      ensures vals == null || vals.Length == 0 ==> root == old(root)
      ensures vals != null && vals.Length > 0 ==> root == LevelOrderTree(vals[..])
      ensures vals != null && vals.Length > 0 ==> root != Nil && root.val == vals[0]
    {
      if vals == null || vals.Length == 0 {
        return;
      }
      var nodes := LinkLevelOrder(vals);
      root := ToTree(nodes, 0);
    }
  }

  /**
   * The queue loop of `buildTreeLevelOrder`: starting from the root node
   * alone, each polled node takes the next two slots as its left and right
   * children. Returns every node created, the root first.
   */
  method LinkLevelOrder(vals: array<int>) returns (nodes: seq<Cell>)
    requires vals.Length > 0
    ensures WellFormed(nodes) && nodes != []
    ensures nodes == BuildLoop(vals[..], [Cell(vals[0], None, None)], [0], 1)
  {
    nodes := [Cell(vals[0], None, None)];
    var queue: seq<nat> := [0];
    var i := 1;
    ghost var slots := vals[..];
    while queue != [] && i < vals.Length
      invariant Arena(slots, nodes, queue) && nodes != []
      invariant BuildLoop(slots, nodes, queue, i) == BuildLoop(slots, [Cell(vals[0], None, None)], [0], 1)
      decreases vals.Length - i
    {
      BuildLoopStep(slots, nodes, queue, i);
      var curr := queue[0];
      queue := queue[1..];
      ghost var half := Offer(slots, nodes, queue, curr, i, true);
      if i < vals.Length && vals[i] != -1 {
        var child: nat := |nodes|;
        nodes := Attach(nodes, curr, vals[i], true);
        queue := queue + [child];
      }
      assert nodes == half.0 && queue == half.1;
      i := i + 1;
      ghost var full := Offer(slots, nodes, queue, curr, i, false);
      if i < vals.Length && vals[i] != -1 {
        var child: nat := |nodes|;
        nodes := Attach(nodes, curr, vals[i], false);
        queue := queue + [child];
      }
      assert nodes == full.0 && queue == full.1;
      i := i + 1;
    }
  }

  // ---------------------------------------------------------------------------
  // The expected outputs listed in the source's `main`
  // ---------------------------------------------------------------------------

  /** `[3, 9, 20, -1, -1, 15, 7]` builds 3 / (9, 20 / (15, 7)), of depth 3 both ways. */
  lemma ExampleThreeLevels()
    ensures LevelOrderTree([3, 9, 20, -1, -1, 15, 7])
         == Node(3, Node(9, Nil, Nil), Node(20, Node(15, Nil, Nil), Node(7, Nil, Nil)))
    ensures SolutionOne(LevelOrderTree([3, 9, 20, -1, -1, 15, 7])) == 3
  {
    var nodes := ThreeLevelsNodes();
    ThreeLevelsLinks(nodes);
  }

  /** The arena for `[3, 9, 20, -1, -1, 15, 7]` links up into 3 / (9, 20 / (15, 7)). */
  lemma ThreeLevelsLinks(nodes: seq<Cell>)
    requires nodes == [Cell(3, Some(1), Some(2)), Cell(9, None, None), Cell(20, Some(3), Some(4)),
                       Cell(15, None, None), Cell(7, None, None)]
    requires WellFormed(nodes)
    ensures ToTree(nodes, 0) == Node(3, Node(9, Nil, Nil), Node(20, Node(15, Nil, Nil), Node(7, Nil, Nil)))
  {
    assert ToTree(nodes, 2) == Node(20, Node(15, Nil, Nil), Node(7, Nil, Nil));
    assert ToTree(nodes, 1) == Node(9, Nil, Nil);
  }

  /** The nodes the loop creates for `[3, 9, 20, -1, -1, 15, 7]`, round by round. */
  lemma ThreeLevelsNodes() returns (nodes: seq<Cell>)
    ensures WellFormed(nodes)
    ensures nodes == [Cell(3, Some(1), Some(2)), Cell(9, None, None), Cell(20, Some(3), Some(4)),
                      Cell(15, None, None), Cell(7, None, None)]
    ensures BuildLoop([3, 9, 20, -1, -1, 15, 7], [Cell(3, None, None)], [0], 1) == nodes
  {
    var vals := [3, 9, 20, -1, -1, 15, 7];
    var n0 := [Cell(3, None, None)];
    var q1: seq<nat>, q2: seq<nat>, q3: seq<nat> := [1, 2], [2], [3, 4];
    var n1 := ThreeLevelsFirstRound();
    ThreeLevelsSecondRound(n1);
    nodes := ThreeLevelsThirdRound(n1);
    BuildLoopStep(vals, n0, [0], 1);
    BuildLoopStep(vals, n1, q1, 3);
    BuildLoopStep(vals, n1, q2, 5);
    assert BuildLoop(vals, nodes, q3, 7) == nodes;
  }

  /** One round of the loop when it runs: the loop from here is the loop from after the round. */
  lemma BuildLoopStep(vals: seq<int>, nodes: seq<Cell>, queue: seq<nat>, i: nat)
    requires Arena(vals, nodes, queue) && nodes != []
    requires queue != [] && i < |vals|
    ensures BuildLoop(vals, nodes, queue, i)
         == BuildLoop(vals, Round(vals, nodes, queue, i).0, Round(vals, nodes, queue, i).1, i + 2)
  {
  }

  /** Node 1 polled: slots 3 and 4 hold -1, so nothing is created. */
  lemma ThreeLevelsSecondRound(n1: seq<Cell>)
    requires n1 == [Cell(3, Some(1), Some(2)), Cell(9, None, None), Cell(20, None, None)]
    requires WellFormed(n1) && FromSlots([3, 9, 20, -1, -1, 15, 7], n1)
    ensures Round([3, 9, 20, -1, -1, 15, 7], n1, [1, 2], 3).0 == n1
    ensures Round([3, 9, 20, -1, -1, 15, 7], n1, [1, 2], 3).1 == [2]
  {
  }

  /** Node 0 polled: slots 1 and 2 give it children 9 and 20. */
  lemma ThreeLevelsFirstRound() returns (n1: seq<Cell>)
    ensures n1 == [Cell(3, Some(1), Some(2)), Cell(9, None, None), Cell(20, None, None)]
    ensures WellFormed(n1) && FromSlots([3, 9, 20, -1, -1, 15, 7], n1)
    ensures Round([3, 9, 20, -1, -1, 15, 7], [Cell(3, None, None)], [0], 1).0 == n1
    ensures Round([3, 9, 20, -1, -1, 15, 7], [Cell(3, None, None)], [0], 1).1 == [1, 2]
  {
    var a := Attach([Cell(3, None, None)], 0, 9, true);
    assert a == [Cell(3, Some(1), None), Cell(9, None, None)];
    n1 := Attach(a, 0, 20, false);
    assert n1 == [Cell(3, Some(1), Some(2)), Cell(9, None, None), Cell(20, None, None)];
  }

  /** Node 2 polled (node 1 took the two -1 slots): slots 5 and 6 give it children 15 and 7. */
  lemma ThreeLevelsThirdRound(n1: seq<Cell>) returns (n3: seq<Cell>)
    requires n1 == [Cell(3, Some(1), Some(2)), Cell(9, None, None), Cell(20, None, None)]
    requires WellFormed(n1) && FromSlots([3, 9, 20, -1, -1, 15, 7], n1)
    ensures n3 == [Cell(3, Some(1), Some(2)), Cell(9, None, None), Cell(20, Some(3), Some(4)),
                   Cell(15, None, None), Cell(7, None, None)]
    ensures WellFormed(n3)
    ensures Round([3, 9, 20, -1, -1, 15, 7], n1, [2], 5).0 == n3
    ensures Round([3, 9, 20, -1, -1, 15, 7], n1, [2], 5).1 == [3, 4]
  {
    var a := Attach(n1, 2, 15, true);
    assert a == [Cell(3, Some(1), Some(2)), Cell(9, None, None), Cell(20, Some(3), None), Cell(15, None, None)];
    n3 := Attach(a, 2, 7, false);
    assert n3 == [Cell(3, Some(1), Some(2)), Cell(9, None, None), Cell(20, Some(3), Some(4)),
                  Cell(15, None, None), Cell(7, None, None)];
  }

  /** `[1, -1, 2]` builds 1 with only a right child 2, of depth 2. */
  lemma ExampleRightOnly()
    ensures LevelOrderTree([1, -1, 2]) == Node(1, Nil, Node(2, Nil, Nil))
    ensures SolutionOne(LevelOrderTree([1, -1, 2])) == 2
  {
    var vals := [1, -1, 2];
    var n1 := [Cell(1, None, Some(1)), Cell(2, None, None)];
    assert Round(vals, [Cell(1, None, None)], [0], 1).0 == n1;
    assert Round(vals, [Cell(1, None, None)], [0], 1).1 == [1];
    assert BuildLoop(vals, [Cell(1, None, None)], [0], 1) == n1;
  }

  /** An empty tree has depth 0 both ways. */
  lemma ExampleEmpty()
    ensures LevelOrderTree([]) == Nil && SolutionOne(LevelOrderTree([])) == 0
  {
  }

  /** Slots left over when the queue runs empty are ignored. */
  lemma ExampleLeftoverSlots()
    ensures LevelOrderTree([1, -1, -1, 7, 8]) == Node(1, Nil, Nil)
  {
    var vals := [1, -1, -1, 7, 8];
    assert Round(vals, [Cell(1, None, None)], [0], 1).0 == [Cell(1, None, None)];
    assert Round(vals, [Cell(1, None, None)], [0], 1).1 == [];
    assert BuildLoop(vals, [Cell(1, None, None)], [0], 1) == [Cell(1, None, None)];
  }
}
