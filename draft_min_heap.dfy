/**
 * The earlier draft of the min-heap, Algorithm_Stack3_W3D1.js.
 *
 * Its `insert` pushes the key and then loops while the new cell is smaller
 * than its parent, but never moves `iLast` or `iParent`: after one exchange
 * the loop condition is false, so at most one swap happens. Its `top` tests
 * `heap[1]` for truthiness. JavaScript's `<` converts `null` to 0, which
 * matters when the first key inserted is negative: it is compared with the
 * placeholder at index 0 and swapped below it.
 */
module DraftHeap {
  import opened Wrappers
  import Heap

  /** The number JavaScript's `<` sees for a cell: `null` becomes 0. */
  function AsNumber(c: Option<int>): (n: int)
  {
    match c
    case None => 0
    case Some(v) => v
  }

  /** `a < b` on two cells of the array, with `null` coerced to 0. */
  predicate Less(a: Option<int>, b: Option<int>)
  {
    AsNumber(a) < AsNumber(b)
  }

  /**
   * `top()`: `heap[1]` when it is truthy, otherwise `null`. A missing cell
   * (`undefined`), the placeholder and the key 0 are all falsy.
   */
  function TopOf(h: seq<Option<int>>): (t: Option<int>)
    ensures t.Some? <==> |h| > 1 && h[1].Some? && h[1].value != 0
    ensures t.Some? ==> t == h[1] && t.value != 0
  {
    if |h| > 1 && h[1].Some? && h[1].value != 0 then h[1] else None
  }

  /**
   * The array after `insert(num)`: push `num`; if the new last cell is
   * smaller than the cell at `floor(iLast / 2)`, exchange the two. One
   * exchange at most, and nothing else moves.
   */
  function DraftInserted(h: seq<Option<int>>, num: int): (r: seq<Option<int>>)
    requires |h| >= 1
    ensures |r| == |h| + 1
    ensures multiset(r) == multiset(h) + multiset{Some(num)}
    ensures forall k :: 0 <= k < |h| && k != |h| / 2 ==> r[k] == h[k]
    ensures !Less(r[|h|], r[|h| / 2])
    ensures !Less(Some(num), h[|h| / 2]) ==> r == h + [Some(num)]
    ensures Less(Some(num), h[|h| / 2]) ==> r[|h| / 2] == Some(num) && r[|h|] == h[|h| / 2]
  {
    var pushed := h + [Some(num)];
    var iLast := |pushed| - 1;
    var iParent := iLast / 2;
    if Less(pushed[iLast], pushed[iParent]) then
      pushed[iParent := pushed[iLast]][iLast := pushed[iParent]]
    else
      pushed
  }

  class MinHeap {
    var heap: seq<Option<int>>

    /** The array is never empty: it starts as `[null]` and only grows. */
    ghost predicate Valid()
      reads this
    {
      |heap| >= 1
    }

    /** `new MinHeap()`: the array holds only the `null` placeholder, and `top()` is `null`. */
    constructor ()
      ensures Valid() && heap == [None]
      ensures Top() == None
    {
      heap := [None];
    }

    /**
     * `top()` on the current array. The rule itself is `TopOf`, stated on a
     * plain sequence so that the lemmas below can apply it to arrays the
     * heap reaches; this member is the method an instance exposes.
     */
    function Top(): (t: Option<int>)
      reads this
      ensures t == TopOf(heap)
    {
      TopOf(heap)
    }

    /**
     * `insert(num)`: push, then the `while` loop whose indices never change.
     * The loop body runs at most once; the method returns the array itself.
     */
    method Insert(num: int) returns (arr: seq<Option<int>>)
      requires Valid()
      modifies this
      ensures Valid()
      ensures heap == DraftInserted(old(heap), num)
      ensures arr == heap
    {
      heap := heap + [Some(num)];
      var iLast := |heap| - 1;
      var iParent := iLast / 2;
      ghost var pushed := heap;
      ghost var swaps := 0;
      while Less(heap[iLast], heap[iParent])
        invariant |heap| == |pushed| && iLast == |heap| - 1 && iParent == iLast / 2
        invariant swaps == 0 ==> heap == pushed
        invariant swaps == 1 ==> heap == pushed[iParent := pushed[iLast]][iLast := pushed[iParent]]
        invariant swaps == 1 ==> Less(pushed[iLast], pushed[iParent]) && !Less(heap[iLast], heap[iParent])
        invariant swaps <= 1
        decreases 1 - swaps
      {
        var temp := heap[iParent];
        heap := heap[iParent := heap[iLast]];
        heap := heap[iLast := temp];
        swaps := swaps + 1;
      }
      arr := heap;
    }
  }

  /** `top()` hides a stored minimum of 0: the heap holds a key, yet the answer is `null`. */
  lemma TopHidesZero()
    ensures TopOf([None, Some(0), Some(4)]) == None
    ensures Heap.Shaped([None, Some(0), Some(4)]) && Heap.Ordered([None, Some(0), Some(4)])
  {
  }

  /**
   * A negative first key is compared with the placeholder (`null` as 0) and
   * swapped below it, so the placeholder ends up at index 1 and `top()` is `null`.
   */
  lemma NegativeFirstInsert(num: int)
    requires num < 0
    ensures DraftInserted([None], num) == [Some(num), None]
    ensures TopOf(DraftInserted([None], num)) == None
  {
  }

  /**
   * One swap does not restore heap order: inserting 1 into the ordered array
   * `[null, 3, 5, 6, 7]` leaves 1 below 3.
   */
  lemma InsertBreaksOrder()
    ensures Heap.Shaped([None, Some(3), Some(5), Some(6), Some(7)])
    ensures Heap.Ordered([None, Some(3), Some(5), Some(6), Some(7)])
    ensures DraftInserted([None, Some(3), Some(5), Some(6), Some(7)], 1)
         == [None, Some(3), Some(1), Some(6), Some(7), Some(5)]
    ensures !Heap.Ordered(DraftInserted([None, Some(3), Some(5), Some(6), Some(7)], 1))
  {
    var r := DraftInserted([None, Some(3), Some(5), Some(6), Some(7)], 1);
    assert r[2 / 2].value > r[2].value;
  }

  /** The first two inserts of the demonstration: 5 is swapped above 10. */
  lemma ExampleFirstInserts()
    ensures DraftInserted(DraftInserted([None], 10), 5) == [None, Some(5), Some(10)]
  {
    var h1 := DraftInserted([None], 10);
    assert h1 == [None, Some(10)];
  }

  /**
   * The demonstration: `insert(10)`, `insert(5)`, `insert(1)`, `insert(7)` on
   * a new heap swap each of 5, 1 and 7 once with its parent and leave the
   * array `[null, 1, 7, 5, 10]`, whose `top()` is 1.
   */
  lemma ExampleInserts()
    ensures DraftInserted(DraftInserted(DraftInserted(DraftInserted([None], 10), 5), 1), 7)
         == [None, Some(1), Some(7), Some(5), Some(10)]
    ensures TopOf([None, Some(1), Some(7), Some(5), Some(10)]) == Some(1)
  {
    ExampleFirstInserts();
    var h3 := DraftInserted([None, Some(5), Some(10)], 1);
    assert h3 == [None, Some(1), Some(10), Some(5)];
  }
}
