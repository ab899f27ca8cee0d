/**
 * The binary search tree queries of Algorithm_Stack3_W2D2.js.
 *
 * Trees built there are acyclic and unshared, so a `BSTNode` with its
 * `left`/`right` links is an inductive datatype, with `Nil` for `null`. The
 * queries only walk the tree; `BinarySearchTree` itself is just its `root`,
 * passed explicitly (the source's default argument `current = this.root`).
 */
module BinarySearchTree {
  import opened Wrappers

  datatype Tree = Nil | Node(data: int, left: Tree, right: Tree)

  /** The run-time failure of reading `.data` or `.left` through `null`. */
  datatype Error = NullDereference

  /** The integers stored in a tree. */
  ghost function Values(t: Tree): (vs: set<int>)
  {
    match t
    case Nil => {}
    case Node(d, l, r) => Values(l) + {d} + Values(r)
  }

  /**
   * The documented ordering (lines 26-28): every value in the left subtree is
   * no larger than the node's data, every value in the right subtree is larger.
   */
  ghost predicate IsBst(t: Tree)
  {
    match t
    case Nil => true
    case Node(d, l, r) =>
      && (forall v :: v in Values(l) ==> v <= d)
      && (forall v :: v in Values(r) ==> v > d)
      && IsBst(l) && IsBst(r)
  }

  /** `isEmpty()`: the tree is empty exactly when `root` is `null`, that is, when it stores no value. */
  predicate IsEmpty(root: Tree)
    ensures IsEmpty(root) <==> Values(root) == {}
  {
    assert root.Node? ==> root.data in Values(root);
    root == Nil
  }

  // ---------------------------------------------------------------------------
  // min / max
  // ---------------------------------------------------------------------------

  /**
   * `minRecursive(current)`: `null` for an empty tree, otherwise the data of
   * the leftmost node, which is a stored value and, under the ordering, the smallest.
   */
  function MinRecursive(current: Tree): (r: Option<int>)
    ensures r.None? <==> current == Nil
    ensures r.Some? ==> r.value in Values(current)
    ensures r.Some? && IsBst(current) ==> forall v :: v in Values(current) ==> r.value <= v
  {
    match current
    case Nil => None
    case Node(d, l, _) =>
      if l == Nil then Some(d) else MinRecursive(l)
  }

  /**
   * `maxRecursive(current)`: `null` for an empty tree, otherwise the data of
   * the rightmost node, which is a stored value and, under the ordering, the largest.
   */
  function MaxRecursive(current: Tree): (r: Option<int>)
    ensures r.None? <==> current == Nil
    ensures r.Some? ==> r.value in Values(current)
    ensures r.Some? && IsBst(current) ==> forall v :: v in Values(current) ==> v <= r.value
  {
    match current
    case Nil => None
    case Node(d, _, r) =>
      if r == Nil then Some(d) else MaxRecursive(r)
  }

  /** `min(current)`: walk the left spine with a loop; agrees with `minRecursive` on every start node. */
  method Min(current: Tree) returns (r: Option<int>)
    ensures r == MinRecursive(current)
  {
    if current == Nil {
      return None;
    }
    var node := current;
    while node.left != Nil
      invariant node != Nil
      invariant MinRecursive(node) == MinRecursive(current)
      decreases node
    {
      node := node.left;
    }
    return Some(node.data);
  }

  /** `max(current)`: walk the right spine with a loop; agrees with `maxRecursive` on every start node. */
  method Max(current: Tree) returns (r: Option<int>)
    ensures r == MaxRecursive(current)
  {
    if current == Nil {
      return None;
    }
    var node := current;
    while node.right != Nil
      invariant node != Nil
      invariant MaxRecursive(node) == MaxRecursive(current)
      decreases node
    {
      node := node.right;
    }
    return Some(node.data);
  }

  // ---------------------------------------------------------------------------
  // contains / containsRecursive
  // ---------------------------------------------------------------------------

  /**
   * The answer of `contains`'s loop from `node`: it steps left or right only
   * while the node has both children, and the first node lacking either child
   * decides by its own data alone. A `true` answer is always a stored value.
   */
  function ContainsWalk(node: Tree, searchVal: int): (found: bool)
    requires node != Nil
    ensures found ==> searchVal in Values(node)
  {
    if node.left != Nil && node.right != Nil then
      if node.data == searchVal then true
      else if node.data > searchVal then ContainsWalk(node.left, searchVal)
      else ContainsWalk(node.right, searchVal)
    else
      node.data == searchVal
  }

  /** `contains(searchVal)`: `false` on an empty tree, otherwise the loop described by `ContainsWalk`. */
  method Contains(root: Tree, searchVal: int) returns (found: bool)
    ensures found == (root != Nil && ContainsWalk(root, searchVal))
    ensures found ==> searchVal in Values(root)
  {
    if IsEmpty(root) {
      return false;
    }
    var current := root;
    while current.left != Nil && current.right != Nil
      invariant current != Nil
      invariant ContainsWalk(current, searchVal) == ContainsWalk(root, searchVal)
      decreases current
    {
      if current.data == searchVal {
        return true;
      } else if current.data > searchVal {
        current := current.left;
      } else {
        current := current.right;
      }
    }
    if current.data == searchVal {
      return true;
    } else {
      return false;
    }
  }

  /**
   * Ordinary search down the ordered tree: stop at a match, go left when the
   * node's data is larger, right otherwise; `null` means absent.
   */
  function Search(t: Tree, searchVal: int): (found: bool)
  {
    match t
    case Nil => false
    case Node(d, l, r) =>
      if d == searchVal then true
      else if d > searchVal then Search(l, searchVal)
      else Search(r, searchVal)
  }

  /** Under the documented ordering, search finds a value exactly when the tree stores it. */
  lemma {:induction false} SearchCorrect(t: Tree, searchVal: int)
    requires IsBst(t)
    ensures Search(t, searchVal) <==> searchVal in Values(t)
  {
    match t
    case Nil =>
    case Node(d, l, r) =>
      SearchCorrect(l, searchVal);
      SearchCorrect(r, searchVal);
  }

  /** A tree in which every node has either no child or two. */
  ghost predicate IsFull(t: Tree)
  {
    match t
    case Nil => true
    case Node(_, l, r) => (l == Nil <==> r == Nil) && IsFull(l) && IsFull(r)
  }

  /** On a full ordered tree `contains`'s walk is ordinary search, hence exact. */
  lemma {:induction false} ContainsExactOnFullTree(t: Tree, searchVal: int)
    requires t != Nil && IsBst(t) && IsFull(t)
    ensures ContainsWalk(t, searchVal) <==> searchVal in Values(t)
  {
    SearchCorrect(t, searchVal);
    ContainsWalkIsSearchOnFullTree(t, searchVal);
  }

  lemma {:induction false} ContainsWalkIsSearchOnFullTree(t: Tree, searchVal: int)
    requires t != Nil && IsFull(t)
    ensures ContainsWalk(t, searchVal) == Search(t, searchVal)
  {
    if t.left != Nil {
      ContainsWalkIsSearchOnFullTree(t.left, searchVal);
      ContainsWalkIsSearchOnFullTree(t.right, searchVal);
    }
  }

  /**
   * `containsRecursive(searchVal, current)`: `false` when the tree's root is
   * `null` (the emptiness test looks at `root`, not at `current`); otherwise
   * compare with `current.data` and recurse right or left. When the path runs
   * off the tree, `current.data` is read through `null` and the call fails.
   */
  function ContainsRecursive(root: Tree, searchVal: int, current: Tree): (r: Result<bool, Error>)
    ensures r == Ok(false) <==> root == Nil
    ensures root != Nil ==> (r == Ok(true) <==> Search(current, searchVal))
    ensures root != Nil ==> (r.Err? <==> !Search(current, searchVal))
  {
    if IsEmpty(root) then Ok(false)
    else match current
      case Nil => Err(NullDereference)
      case Node(d, l, rt) =>
        if d == searchVal then Ok(true)
        else if searchVal > d then ContainsRecursive(root, searchVal, rt)
        else ContainsRecursive(root, searchVal, l)
  }

  /**
   * On a non-empty ordered tree, `containsRecursive` from the root answers
   * `true` exactly for stored values and fails for every other value: it never
   * answers `false`.
   */
  lemma ContainsRecursiveOnOrderedTree(root: Tree, searchVal: int)
    requires root != Nil && IsBst(root)
    ensures ContainsRecursive(root, searchVal, root) == Ok(true) <==> searchVal in Values(root)
    ensures ContainsRecursive(root, searchVal, root).Err? <==> searchVal !in Values(root)
  {
    SearchCorrect(root, searchVal);
  }

  // ---------------------------------------------------------------------------
  // range
  // ---------------------------------------------------------------------------

  /**
   * `range(startNode)`: reading `startNode.left` fails when `startNode` is
   * `null`; a node without children gives `null`; otherwise `max - min` of
   * the subtree, which under the ordering is the largest difference of two
   * stored values, so it is never negative.
   */
  function Range(startNode: Tree): (r: Result<Option<int>, Error>)
    ensures r.Err? <==> startNode == Nil
    ensures r == Ok(None) <==> startNode != Nil && startNode.left == Nil && startNode.right == Nil
    ensures r.Ok? && r.value.Some? && IsBst(startNode) ==>
      && r.value.value >= 0
      && (forall a, b :: a in Values(startNode) && b in Values(startNode) ==> a - b <= r.value.value)
      && (exists a, b :: a in Values(startNode) && b in Values(startNode) && a - b == r.value.value)
  {
    match startNode
    case Nil => Err(NullDereference)
    case Node(_, l, rt) =>
      if l == Nil && rt == Nil then Ok(None)
      else
        var mx := MaxRecursive(startNode).value;
        var mn := MinRecursive(startNode).value;
        Ok(Some(mx - mn))
  }

  // ---------------------------------------------------------------------------
  // The trees of the source's demonstration
  // ---------------------------------------------------------------------------

  function Leaf(d: int): (t: Tree)
  {
    Node(d, Nil, Nil)
  }

  /** `threeLevelTree`: 10 with children 5 (2, 6) and 15 (13 on the left only). */
  function ThreeLevelTree(): (t: Tree)
  {
    Node(10, Node(5, Leaf(2), Leaf(6)), Node(15, Leaf(13), Nil))
  }

  /**
   * `contains` misses a stored value below a node with one child: 13 is in
   * `threeLevelTree`, which is ordered, yet the walk stops at 15 and answers
   * `false`; ordinary search finds it.
   */
  lemma ContainsMissesThirteen()
    ensures IsBst(ThreeLevelTree())
    ensures 13 in Values(ThreeLevelTree())
    ensures !ContainsWalk(ThreeLevelTree(), 13)
    ensures Search(ThreeLevelTree(), 13)
  {
    assert 13 in Values(Node(15, Leaf(13), Nil));
  }

  /**
   * `containsRecursive(50)` on `threeLevelTree` runs off the tree past 15 and
   * fails on `null.data` instead of answering `false`.
   */
  lemma ContainsRecursiveFailsOnAbsent()
    ensures ContainsRecursive(ThreeLevelTree(), 50, ThreeLevelTree()) == Err(NullDereference)
    ensures !Search(ThreeLevelTree(), 50)
  {
  }

  /** `twoLevelTree`: 10 with children 5 and 15. */
  function TwoLevelTree(): (t: Tree)
  {
    Node(10, Leaf(5), Leaf(15))
  }

  /**
   * The demonstration's `contains` calls: `emptyTree.contains(5)`,
   * `oneNodeTree.contains(10)`, `twoLevelTree.contains(5)` and
   * `threeLevelTree.contains(50)` give false, true, true, false.
   */
  method ExampleContains() returns (inEmpty: bool, inOne: bool, inTwo: bool, inThree: bool)
    ensures !inEmpty && inOne && inTwo && !inThree
  {
    inEmpty := Contains(Nil, 5);
    inOne := Contains(Leaf(10), 10);
    inTwo := Contains(TwoLevelTree(), 5);
    inThree := Contains(ThreeLevelTree(), 50);
  }

  /**
   * The demonstration's `containsRecursive` calls that are not commented out:
   * on `emptyTree` with 5, `oneNodeTree` with 10 and `twoLevelTree` with 5,
   * giving false, true, true.
   */
  lemma ExampleContainsRecursive()
    ensures ContainsRecursive(Nil, 5, Nil) == Ok(false)
    ensures ContainsRecursive(Leaf(10), 10, Leaf(10)) == Ok(true)
    ensures ContainsRecursive(TwoLevelTree(), 5, TwoLevelTree()) == Ok(true)
  {
  }
}
