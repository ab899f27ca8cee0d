/**
 * In-place reversal of an array by swapping the two ends towards the middle
 * (algo_01_05_reverseArray.js).
 */
module ArrayReverse {

  /** The reference definition: the last element first, then the rest reversed. */
  function Reversed<T>(s: seq<T>): (r: seq<T>)
  {
    if s == [] then [] else [s[|s| - 1]] + Reversed(s[..|s| - 1])
  }

  /** Reversal keeps the length. */
  lemma {:induction false} ReversedLength<T>(s: seq<T>)
    ensures |Reversed(s)| == |s|
  {
    if s != [] {
      ReversedLength(s[..|s| - 1]);
    }
  }

  /** Reversal sends position `k` to position `|s| - 1 - k`. */
  lemma {:induction false} ReversedAt<T>(s: seq<T>, k: nat)
    requires k < |s|
    ensures |Reversed(s)| == |s|
    ensures Reversed(s)[k] == s[|s| - 1 - k]
  {
    ReversedLength(s);
    var front := s[..|s| - 1];
    if k > 0 {
      // position k of the result is position k - 1 of the reversed front
      ReversedAt(front, k - 1);
      assert Reversed(s)[k] == Reversed(front)[k - 1];
    }
  }

  /** `t` holds the elements of `s` mirrored around the middle. */
  ghost predicate MirrorOf<T>(t: seq<T>, s: seq<T>)
  {
    |t| == |s| && forall k :: 0 <= k < |s| ==> t[k] == s[|s| - 1 - k]
  }

  /** Any mirror image of `s` is `Reversed(s)`: the two descriptions agree. */
  lemma {:induction false} MirrorIsReversed<T>(t: seq<T>, s: seq<T>)
    requires MirrorOf(t, s)
    ensures t == Reversed(s)
  {
    if s != [] {
      var front := s[..|s| - 1];
      assert MirrorOf(t[1..], front) by {
        forall k | 0 <= k < |front|
          ensures t[1..][k] == front[|front| - 1 - k]
        {
          assert t[k + 1] == s[|s| - 1 - (k + 1)];
        }
      }
      MirrorIsReversed(t[1..], front);
      assert t == [t[0]] + t[1..];
    }
  }

  /** Reversing twice gives back the original sequence. */
  lemma ReversedTwice<T>(s: seq<T>)
    ensures Reversed(Reversed(s)) == s
  {
    var r := Reversed(s);
    ReversedLength(s);
    forall k | 0 <= k < |r|
      ensures s[k] == r[|r| - 1 - k]
    {
      ReversedAt(s, |s| - 1 - k);
    }
    MirrorIsReversed(s, r);
  }

  /**
   * `reverseArr`: for `startIdx` from 0 while `startIdx < arr.length / 2`
   * (real division, so the middle element of an odd-length array is swapped
   * with itself), exchange `arr[startIdx]` and `arr[arr.length - 1 - startIdx]`
   * through a temporary; return the same array.
   */
  method ReverseArr<T>(arr: array<T>) returns (r: array<T>)
    modifies arr
    ensures r == arr
    ensures arr[..] == Reversed(old(arr[..]))
  {
    var n := arr.Length;
    var startIdx := 0;
    // `startIdx < n / 2` over the reals is `2 * startIdx < n` over the integers
    while 2 * startIdx < n
      invariant 0 <= startIdx <= (n + 1) / 2
      // the cells outside the middle window are already mirrored; the window is untouched
      invariant forall k :: 0 <= k < n ==>
        arr[k] == if k < startIdx || n - startIdx <= k then old(arr[n - 1 - k]) else old(arr[k])
    {
      var endIdx := n - 1 - startIdx;
      var temp := arr[startIdx];
      arr[startIdx] := arr[endIdx];
      arr[endIdx] := temp;
      startIdx := startIdx + 1;
    }
    assert MirrorOf(arr[..], old(arr[..]));
    MirrorIsReversed(arr[..], old(arr[..]));
    r := arr;
  }
}
