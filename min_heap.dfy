/**
 * The array-backed min-heap of Algorithm_Stack3_W3D2.js.
 *
 * The JavaScript array `this.heap` is the field `heap`, a sequence that the
 * methods reassign. Index 0 holds the `null` placeholder (`None`); the keys
 * live at indices 1 .. size(), laid out level by level, so the parent of `i`
 * is `i / 2` and its children are `2 * i` and `2 * i + 1`.
 */
module Heap {
  import opened Wrappers

  // ---------------------------------------------------------------------------
  // Index arithmetic (1-indexed)
  // ---------------------------------------------------------------------------

  /** `idxOfParent`: `Math.floor(i / 2)`; for `i >= 2` it is a real index below `i`. */
  function IdxOfParent(i: nat): (p: nat)
    ensures i >= 2 ==> 1 <= p < i
    ensures 2 * p <= i <= 2 * p + 1
  {
    i / 2
  }

  /** `idxOfLeftChild`: `i * 2`, whose parent is `i` again. */
  function IdxOfLeftChild(i: nat): (c: nat)
    ensures IdxOfParent(c) == i
    ensures c % 2 == 0
    ensures i >= 1 ==> c > i
  {
    i * 2
  }

  /** `idxOfRightChild`: `i * 2 + 1`, the left child's sibling, whose parent is `i` again. */
  function IdxOfRightChild(i: nat): (c: nat)
    ensures IdxOfParent(c) == i
    ensures c == IdxOfLeftChild(i) + 1
    ensures c > i
  {
    i * 2 + 1
  }

  // ---------------------------------------------------------------------------
  // The array and its heap order, as predicates on the sequence
  // ---------------------------------------------------------------------------

  /** The layout every operation keeps: the placeholder at 0 and a key at every other index. */
  ghost predicate Shaped(h: seq<Option<int>>)
  {
    |h| >= 1 && h[0] == None && forall i :: 1 <= i < |h| ==> h[i].Some?
  }

  /** The stored keys in array order, without the placeholder. */
  ghost function KeysOf(h: seq<Option<int>>): (ks: seq<int>)
    requires Shaped(h)
    ensures |ks| == |h| - 1
    ensures forall i :: 1 <= i < |h| ==> ks[i - 1] == h[i].value
  {
    seq(|h| - 1, i requires 0 <= i < |h| - 1 => h[i + 1].value)
  }

  /** Heap order: no key is smaller than its parent's (`heap[floor(i/2)] <= heap[i]`). */
  ghost predicate Ordered(h: seq<Option<int>>)
    requires Shaped(h)
  {
    forall i :: 2 <= i < |h| ==> h[i / 2].value <= h[i].value
  }

  /** Heap order holds for every parent/child pair except possibly the pair (parent of `k`, `k`). */
  ghost predicate OrderedExceptAbove(h: seq<Option<int>>, k: nat)
    requires Shaped(h)
  {
    forall i :: 2 <= i < |h| && i != k ==> h[i / 2].value <= h[i].value
  }

  /** Heap order holds for every parent/child pair except possibly those whose parent is `k`. */
  ghost predicate OrderedExceptBelow(h: seq<Option<int>>, k: nat)
    requires Shaped(h)
  {
    forall i :: 2 <= i < |h| && i / 2 != k ==> h[i / 2].value <= h[i].value
  }

  /** The parent of `k` is no larger than the children of `k` (what lets `k` be skipped). */
  ghost predicate Bridged(h: seq<Option<int>>, k: nat)
    requires Shaped(h)
  {
    2 <= k < |h| ==>
      && (2 * k < |h| ==> h[k / 2].value <= h[2 * k].value)
      && (2 * k + 1 < |h| ==> h[k / 2].value <= h[2 * k + 1].value)
  }

  /** The sequence after `swap(i, j)`: `[heap[i], heap[j]] = [heap[j], heap[i]]`. */
  ghost function Swapped(h: seq<Option<int>>, i: nat, j: nat): (h': seq<Option<int>>)
    requires i < |h| && j < |h|
  {
    h[i := h[j]][j := h[i]]
  }

  /** Exchanging two keys keeps the layout and the multiset of keys. */
  lemma SwapPermutes(h: seq<Option<int>>, i: nat, j: nat)
    requires Shaped(h) && 1 <= i < |h| && 1 <= j < |h|
    ensures Shaped(Swapped(h, i, j))
    ensures multiset(KeysOf(Swapped(h, i, j))) == multiset(KeysOf(h))
  {
    var ks := KeysOf(h);
    assert KeysOf(Swapped(h, i, j)) == ks[i - 1 := ks[j - 1]][j - 1 := ks[i - 1]];
  }

  /** In an ordered heap the key at index 1 is no larger than any key. */
  lemma {:induction false} RootIsMinimal(h: seq<Option<int>>, i: nat)
    requires Shaped(h) && Ordered(h) && 1 <= i < |h|
    ensures h[1].value <= h[i].value
    decreases i
  {
    if i >= 2 {
      RootIsMinimal(h, i / 2);
    }
  }

  /** In an ordered heap the key at index 1 is the minimum of the stored keys. */
  lemma RootIsMinimum(h: seq<Option<int>>)
    requires Shaped(h) && |h| > 1
    ensures Ordered(h) ==> forall k :: k in KeysOf(h) ==> h[1].value <= k
  {
    var ks := KeysOf(h);
    forall k | Ordered(h) && k in ks
      ensures h[1].value <= k
    {
      var j :| 0 <= j < |ks| && ks[j] == k;
      RootIsMinimal(h, j + 1);
    }
  }

  /** One round of `shiftUp`: swapping `k` with its larger parent moves the only possible violation up to the parent. */
  lemma ShiftUpStep(h: seq<Option<int>>, k: nat)
    requires Shaped(h) && 2 <= k < |h|
    requires h[k / 2].value > h[k].value
    ensures Shaped(Swapped(h, k, k / 2))
    ensures OrderedExceptAbove(h, k) && Bridged(h, k) ==>
      OrderedExceptAbove(Swapped(h, k, k / 2), k / 2) && Bridged(Swapped(h, k, k / 2), k / 2)
  {
    var p := k / 2;
    var h' := Swapped(h, k, p);
    forall i | OrderedExceptAbove(h, k) && Bridged(h, k) && 2 <= i < |h'| && i != p
      ensures h'[i / 2].value <= h'[i].value
    {
      if i == k {
      } else if i / 2 == k {
        assert i == 2 * k || i == 2 * k + 1;
      } else if i / 2 == p {
        assert h[p].value <= h[i].value;
      } else if i / 2 == p && i != k {
      } else {
      }
    }
    if OrderedExceptAbove(h, k) && p >= 2 {
      assert h[p / 2].value <= h[p].value;
      assert h'[p / 2] == h[p / 2];
      if 2 * p < |h| {
        assert (2 * p) / 2 == p;
        assert 2 * p == k || h[p].value <= h[2 * p].value;
      }
      if 2 * p + 1 < |h| {
        assert (2 * p + 1) / 2 == p;
        assert 2 * p + 1 == k || h[p].value <= h[2 * p + 1].value;
      }
    }
  }

  /** One round of `shiftDown`: swapping `k` with its smaller child moves the only possible violation down to that child. */
  lemma ShiftDownStep(h: seq<Option<int>>, k: nat, c: nat)
    requires Shaped(h) && 1 <= k && 2 * k < |h|
    requires c == 2 * k || (c == 2 * k + 1 && c < |h|)
    requires 2 * k + 1 < |h| ==> h[c].value <= h[2 * k].value && h[c].value <= h[2 * k + 1].value
    requires h[k].value > h[c].value
    ensures Shaped(Swapped(h, k, c))
    ensures OrderedExceptBelow(h, k) && Bridged(h, k) ==>
      OrderedExceptBelow(Swapped(h, k, c), c) && Bridged(Swapped(h, k, c), c)
  {
    var h' := Swapped(h, k, c);
    forall i | OrderedExceptBelow(h, k) && Bridged(h, k) && 2 <= i < |h'| && i / 2 != c
      ensures h'[i / 2].value <= h'[i].value
    {
      if i == k {
        assert h[k / 2].value <= h[c].value;
      } else if i / 2 == k {
        assert i == 2 * k || i == 2 * k + 1;
      }
    }
    forall i | OrderedExceptBelow(h, k) && 2 <= i < |h| && i / 2 == c
      ensures h'[k].value <= h'[i].value
    {
      assert i != k && i != c;
    }
  }

  /** `shiftDown` stops: a node without children, or no larger than its smaller child, closes the last gap. */
  lemma ShiftDownSettled(h: seq<Option<int>>, k: nat, c: nat)
    requires Shaped(h) && 1 <= k
    requires 2 * k < |h| ==> c < |h| && (c == 2 * k || c == 2 * k + 1) && h[k].value <= h[c].value
    requires 2 * k + 1 < |h| ==> h[c].value <= h[2 * k].value && h[c].value <= h[2 * k + 1].value
    ensures OrderedExceptBelow(h, k) ==> Ordered(h)
  {
    forall i | OrderedExceptBelow(h, k) && 2 <= i < |h| && i / 2 == k
      ensures h[i / 2].value <= h[i].value
    {
      assert i == 2 * k || i == 2 * k + 1;
    }
  }

  /** `extract`'s first half: dropping the last cell and writing it over index 1 removes exactly the old root key, and leaves only the root out of order. */
  lemma MoveLastToRoot(h: seq<Option<int>>)
    requires Shaped(h) && |h| > 2
    ensures Shaped(h[..|h| - 1][1 := h[|h| - 1]])
    ensures multiset(KeysOf(h[..|h| - 1][1 := h[|h| - 1]])) == multiset(KeysOf(h)) - multiset{h[1].value}
    ensures Ordered(h) ==> OrderedExceptBelow(h[..|h| - 1][1 := h[|h| - 1]], 1)
  {
    var popped := h[..|h| - 1];
    var h' := popped[1 := h[|h| - 1]];
    var ks := KeysOf(h);
    assert KeysOf(popped) == ks[..|ks| - 1];
    assert ks == ks[..|ks| - 1] + [ks[|ks| - 1]];
    assert KeysOf(h') == ks[..|ks| - 1][0 := ks[|ks| - 1]];
    assert ks[..|ks| - 1][0] == ks[0] == h[1].value;
  }

  // ---------------------------------------------------------------------------
  // The class
  // ---------------------------------------------------------------------------

  class MinHeap {
    var heap: seq<Option<int>>

    /** The layout the constructor creates and every method keeps. */
    ghost predicate Valid()
      reads this
    {
      Shaped(heap)
    }

    /** The stored keys (the abstract contents). */
    ghost function Keys(): (ks: seq<int>)
      reads this
      requires Valid()
    {
      KeysOf(heap)
    }

    /** Heap order on the current array. */
    ghost predicate HeapOrdered()
      reads this
      requires Valid()
    {
      Ordered(heap)
    }

    /** `new MinHeap()`: the array holds only the `null` placeholder. */
    constructor ()
      ensures Valid() && heap == [None]
      ensures Keys() == [] && HeapOrdered()
      ensures Size() == 0 && Top() == None
    {
      heap := [None];
    }

    /** `size()`: the number of stored keys, the array length minus the placeholder. */
    function Size(): (n: int)
      reads this
      requires Valid()
      ensures n == |Keys()|
      ensures n + 1 == |heap|
    {
      |heap| - 1
    }

    /**
     * `top()`: `heap[1]` when the array holds more than the placeholder, `null`
     * otherwise; in an ordered heap that is the minimum stored key.
     */
    function Top(): (t: Option<int>)
      reads this
      requires Valid()
      ensures t.None? <==> Keys() == []
      ensures t.Some? ==> t.value == Keys()[0] && t.value in Keys()
      ensures HeapOrdered() && t.Some? ==> forall k :: k in Keys() ==> t.value <= k
    {
      if |heap| > 1 then
        RootIsMinimum(heap); heap[1]
      else None
    }

    /** `swap(i, j)`: exchanges the two cells and nothing else. */
    method Swap(i: nat, j: nat)
      requires i < |heap| && j < |heap|
      modifies this
      ensures |heap| == old(|heap|)
      ensures heap[i] == old(heap[j]) && heap[j] == old(heap[i])
      ensures forall k :: 0 <= k < |heap| && k != i && k != j ==> heap[k] == old(heap[k])
      ensures heap == Swapped(old(heap), i, j)
    {
      var atI, atJ := heap[i], heap[j];
      heap := heap[i := atJ][j := atI];
    }

    /**
     * `insert(num)`: push `num` and shift it up; returns the new size. The keys
     * grow by exactly `num`, the placeholder stays, and heap order is kept.
     */
    method Insert(num: int) returns (newSize: int)
      requires Valid()
      modifies this
      ensures Valid()
      ensures newSize == Size() == old(Size()) + 1
      ensures multiset(Keys()) == old(multiset(Keys())) + multiset{num}
      ensures old(HeapOrdered()) ==> HeapOrdered()
    {
      ghost var before := heap;
      heap := heap + [Some(num)];
      assert KeysOf(heap) == KeysOf(before) + [num];
      assert Ordered(before) ==> OrderedExceptAbove(heap, |heap| - 1);
      ShiftUp();
      newSize := Size();
    }

    /**
     * `shiftUp()`: starting from the last index, swap the node with its parent
     * while the parent is strictly larger; a tie stops the loop. Only permutes
     * the keys; if the array was ordered apart from its last key, it ends ordered.
     */
    method ShiftUp()
      requires Valid()
      modifies this
      ensures Valid() && |heap| == old(|heap|)
      ensures multiset(Keys()) == old(multiset(Keys()))
      ensures old(OrderedExceptAbove(heap, |heap| - 1)) ==> HeapOrdered()
    {
      var idxOfNodeToShiftUp: nat := |heap| - 1;
      ghost var repairing := OrderedExceptAbove(heap, idxOfNodeToShiftUp);
      while idxOfNodeToShiftUp > 1
        invariant Valid() && |heap| == old(|heap|)
        invariant idxOfNodeToShiftUp < |heap|
        invariant multiset(Keys()) == old(multiset(Keys()))
        invariant repairing ==> OrderedExceptAbove(heap, idxOfNodeToShiftUp) && Bridged(heap, idxOfNodeToShiftUp)
        decreases idxOfNodeToShiftUp
      {
        var idxOfParent := IdxOfParent(idxOfNodeToShiftUp);
        var isParentSmallerOrEqual := heap[idxOfParent].value <= heap[idxOfNodeToShiftUp].value;
        if isParentSmallerOrEqual {
          break;
        }
        ShiftUpStep(heap, idxOfNodeToShiftUp);
        SwapPermutes(heap, idxOfNodeToShiftUp, idxOfParent);
        Swap(idxOfNodeToShiftUp, idxOfParent);
        idxOfNodeToShiftUp := idxOfParent;
      }
    }

    /**
     * `extract()` (commented out in the source): `null` on an empty heap;
     * otherwise removes and returns `heap[1]`, moves the last key to index 1
     * and shifts it down. The keys lose exactly the returned one; heap order is
     * kept, so the returned key is the minimum.
     */
    method Extract() returns (min: Option<int>)
      requires Valid()
      modifies this
      ensures Valid()
      ensures old(Size()) == 0 ==> min == None && heap == old(heap)
      ensures old(Size()) > 0 ==> min == Some(old(Keys())[0]) && Size() == old(Size()) - 1
      ensures min.Some? ==> multiset(Keys()) == old(multiset(Keys())) - multiset{min.value}
      ensures old(HeapOrdered()) ==> HeapOrdered()
      ensures old(HeapOrdered()) && min.Some? ==> forall k :: k in old(Keys()) ==> min.value <= k
    {
      if |heap| == 1 {
        return None;
      }
      ghost var before := heap;
      RootIsMinimum(heap);
      min := heap[1];
      var lastNode := heap[|heap| - 1];
      heap := heap[..|heap| - 1];
      if |heap| == 1 {
        assert KeysOf(before) == [min.value];
        return min;
      }
      heap := heap[1 := lastNode];
      MoveLastToRoot(before);
      ShiftDown();
    }

    /**
     * `shiftDown()` (commented out in the source): starting from index 1, while
     * the node has a left child, pick the smaller child (the right one only when
     * it is in bounds and strictly smaller) and swap with it if it is strictly
     * smaller than the node. Only permutes the keys; if the array was ordered
     * apart from the root, it ends ordered.
     */
    method ShiftDown()
      requires Valid()
      modifies this
      ensures Valid() && |heap| == old(|heap|)
      ensures multiset(Keys()) == old(multiset(Keys()))
      ensures old(OrderedExceptBelow(heap, 1)) ==> HeapOrdered()
    {
      var idxOfNodeToShiftDown := 1;
      var idxOfLeftChild := IdxOfLeftChild(idxOfNodeToShiftDown);
      ghost var repairing := OrderedExceptBelow(heap, 1);
      while idxOfLeftChild < |heap|
        invariant Valid() && |heap| == old(|heap|)
        invariant 1 <= idxOfNodeToShiftDown && idxOfLeftChild == 2 * idxOfNodeToShiftDown
        invariant multiset(Keys()) == old(multiset(Keys()))
        invariant repairing ==> idxOfNodeToShiftDown < |heap| || |heap| == 1
        invariant repairing ==> OrderedExceptBelow(heap, idxOfNodeToShiftDown) && Bridged(heap, idxOfNodeToShiftDown)
        decreases |heap| - idxOfNodeToShiftDown
      {
        var idxOfRightChild := IdxOfRightChild(idxOfNodeToShiftDown);
        var idxOfSmallestChild := idxOfLeftChild;
        var isRightChildInBounds := idxOfRightChild < |heap|;
        var isRightChildSmaller :=
          isRightChildInBounds && heap[idxOfRightChild].value < heap[idxOfLeftChild].value;
        if isRightChildSmaller {
          idxOfSmallestChild := idxOfRightChild;
        }
        var isParentSmallerOrEqual := heap[idxOfNodeToShiftDown].value <= heap[idxOfSmallestChild].value;
        if isParentSmallerOrEqual {
          ShiftDownSettled(heap, idxOfNodeToShiftDown, idxOfSmallestChild);
          break;
        }
        ShiftDownStep(heap, idxOfNodeToShiftDown, idxOfSmallestChild);
        SwapPermutes(heap, idxOfNodeToShiftDown, idxOfSmallestChild);
        Swap(idxOfNodeToShiftDown, idxOfSmallestChild);
        idxOfNodeToShiftDown := idxOfSmallestChild;
        idxOfLeftChild := IdxOfLeftChild(idxOfNodeToShiftDown);
      }
      if idxOfLeftChild >= |heap| {
        ShiftDownSettled(heap, idxOfNodeToShiftDown, 0);
      }
    }
  }

  // ---------------------------------------------------------------------------
  // The demonstration at the end of the source
  // ---------------------------------------------------------------------------

  /**
   * `new MinHeap()` followed by `insert(10)`, `insert(5)`, `insert(1)` and
   * `insert(7)`: the heap holds four keys and `top()` is 1.
   */
  method ExampleInserts() returns (size: int, top: Option<int>)
    ensures size == 4 && top == Some(1)
  {
    var heap := new MinHeap();
    size := heap.Insert(10);
    size := heap.Insert(5);
    size := heap.Insert(1);
    size := heap.Insert(7);
    ghost var keys := multiset(heap.Keys());
    assert keys == multiset{10, 5, 1, 7};
    top := heap.Top();
    assert 1 in heap.Keys() && top.value in keys;
  }
}
