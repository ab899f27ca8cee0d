/**
 * The `mode` exercise of algo_02_20_modeInArray.js.
 *
 * A frequency table (a JavaScript object used as a dictionary) counts each
 * value; a second pass collects every key whose count is the largest; if
 * that collects every key, the answer is empty. The object is a `map` here
 * and the order in which `for ... in` visits its keys is left open: the
 * second loop picks any key it has not visited yet.
 */
module ArrayMode {

  /** The largest number of times any value occurs in `s` (0 for the empty sequence). */
  function MaxCount(s: seq<int>): (m: nat)
    ensures s == [] <==> m == 0
  {
    if s == [] then 0
    else
      var init := s[..|s| - 1];
      var last := s[|s| - 1];
      assert s == init + [last];
      var m := MaxCount(init);
      if multiset(s)[last] > m then multiset(s)[last] else m
  }

  /** `MaxCount` is the largest count: no value occurs more often, and some value of a non-empty `s` occurs that often. */
  lemma {:induction false} MaxCountIsLargest(s: seq<int>)
    ensures forall v :: multiset(s)[v] <= MaxCount(s)
    ensures s != [] ==> exists v :: v in s && multiset(s)[v] == MaxCount(s)
  {
    if s != [] {
      var init := s[..|s| - 1];
      var last := s[|s| - 1];
      assert s == init + [last];
      MaxCountIsLargest(init);
      if multiset(s)[last] <= MaxCount(init) {
        var w :| w in init && multiset(init)[w] == MaxCount(init);
        assert w in s;
      }
    }
  }

  /** The values that occur the largest number of times. */
  ghost function ModeSet(s: seq<int>): (modes: set<int>)
  {
    set v | v in s && multiset(s)[v] == MaxCount(s)
  }

  /** Every distinct value of `s` occurs equally often. */
  ghost predicate AllTie(s: seq<int>)
  {
    forall v :: v in s ==> multiset(s)[v] == MaxCount(s)
  }

  /** A non-empty sequence has at least one mode, so a tie is exactly "every value is a mode". */
  lemma ModeSetNonEmpty(s: seq<int>)
    requires s != []
    ensures ModeSet(s) != {}
    ensures AllTie(s) <==> ModeSet(s) == set v | v in s
  {
    MaxCountIsLargest(s);
    var v :| v in s && multiset(s)[v] == MaxCount(s);
    assert v in ModeSet(s);
    if AllTie(s) {
      assert forall x :: x in ModeSet(s) <==> x in s;
    }
    if ModeSet(s) == set v | v in s {
      forall v | v in s
        ensures multiset(s)[v] == MaxCount(s)
      {
        assert v in ModeSet(s);
      }
    }
  }

  /** The frequency table after counting `prefix`: one key per distinct value, holding its count. */
  ghost predicate Counts(freqTable: map<int, nat>, prefix: seq<int>)
  {
    && (forall k :: k in freqTable <==> k in prefix)
    && (forall k :: k in freqTable ==> freqTable[k] == multiset(prefix)[k])
  }

  /** Counting one more value: a new key starts at 1, a known key goes up by one. */
  lemma CountsStep(freqTable: map<int, nat>, nums: seq<int>, i: nat, next: map<int, nat>)
    requires i < |nums| && Counts(freqTable, nums[..i])
    requires next == if nums[i] in freqTable then freqTable[nums[i] := freqTable[nums[i]] + 1]
                     else freqTable[nums[i] := 1]
    ensures Counts(next, nums[..i + 1])
    ensures MaxCount(nums[..i + 1]) == if next[nums[i]] > MaxCount(nums[..i]) then next[nums[i]] else MaxCount(nums[..i])
  {
    assert nums[..i + 1] == nums[..i] + [nums[i]];
    assert nums[..i + 1][..i] == nums[..i];
  }

  /** No value appears twice in `s`. */
  predicate Distinct(s: seq<int>)
  {
    forall a, b :: 0 <= a < b < |s| ==> s[a] != s[b]
  }

  /**
   * The result array after the keys in `visited` have been examined: exactly
   * those with the largest count, each once; it is as long as `visited`
   * exactly when every examined key had the largest count.
   */
  ghost predicate Collected(resultArr: seq<int>, visited: set<int>, freqTable: map<int, nat>, maxFreq: nat)
  {
    && visited <= freqTable.Keys
    && (forall v :: v in resultArr <==> v in visited && freqTable[v] == maxFreq)
    && Distinct(resultArr)
    && |resultArr| <= |visited|
    && (|resultArr| == |visited| <==> forall v :: v in visited ==> freqTable[v] == maxFreq)
  }

  /** Examining one more key keeps `Collected`. */
  lemma CollectStep(resultArr: seq<int>, visited: set<int>, freqTable: map<int, nat>, maxFreq: nat, key: int, next: seq<int>)
    requires Collected(resultArr, visited, freqTable, maxFreq)
    requires key in freqTable && key !in visited
    requires next == if freqTable[key] == maxFreq then resultArr + [key] else resultArr
    ensures Collected(next, visited + {key}, freqTable, maxFreq)
  {
    assert |visited + {key}| == |visited| + 1;
  }

  /**
   * Once every key has been examined, the result array holds exactly the
   * modes, and it holds every key exactly when every value ties.
   */
  lemma CollectedAll(nums: seq<int>, resultArr: seq<int>, freqTable: map<int, nat>, maxFreq: nat)
    requires Counts(freqTable, nums) && maxFreq == MaxCount(nums)
    requires Collected(resultArr, freqTable.Keys, freqTable, maxFreq)
    ensures |resultArr| == |freqTable.Keys| <==> AllTie(nums)
    ensures forall v :: v in resultArr <==> v in nums && multiset(nums)[v] == MaxCount(nums)
  {
  }

  /**
   * The counting loop of `mode`: afterwards the table holds, for each
   * distinct value of `nums`, the number of times it occurs, and `maxFreq`
   * is the largest of those counts.
   */
  method CountFrequencies(nums: seq<int>) returns (freqTable: map<int, nat>, maxFreq: nat)
    ensures forall k :: k in freqTable <==> k in nums
    ensures forall k :: k in freqTable ==> freqTable[k] == multiset(nums)[k]
    ensures maxFreq == MaxCount(nums)
  {
    freqTable := map[];
    maxFreq := 0;
    for i := 0 to |nums|
      invariant Counts(freqTable, nums[..i])
      invariant maxFreq == MaxCount(nums[..i])
    {
      var key := nums[i];
      ghost var before := freqTable;
      if key !in freqTable {
        freqTable := freqTable[key := 1];
      } else {
        freqTable := freqTable[key := freqTable[key] + 1];
      }
      CountsStep(before, nums, i, freqTable);
      if freqTable[key] > maxFreq {
        maxFreq := freqTable[key];
      }
    }
    assert nums[..|nums|] == nums;
  }

  /**
   * `mode(nums)`: `[]` for an empty input, the input itself when it has one
   * element; otherwise every value occurring the largest number of times,
   * each once, in an unspecified order, unless every value ties, in which
   * case `[]`.
   */
  method Mode(nums: seq<int>) returns (result: seq<int>)
    ensures |nums| == 0 ==> result == []
    ensures |nums| == 1 ==> result == nums
    ensures |nums| >= 2 ==> (result == [] <==> AllTie(nums))
    ensures |nums| >= 2 && !AllTie(nums) ==>
      forall v :: v in result <==> v in nums && multiset(nums)[v] == MaxCount(nums)
    ensures |nums| >= 2 ==> Distinct(result)
  {
    var resultArr: seq<int> := [];
    var freqTable: map<int, nat> := map[];
    var maxFreq: nat := 0;

    if |nums| == 0 {
      return resultArr;
    }
    if |nums| == 1 {
      return nums;
    }

    freqTable, maxFreq := CountFrequencies(nums);

    var keys := freqTable.Keys;
    ghost var visited: set<int> := {};
    while keys != {}
      invariant keys <= freqTable.Keys && visited == freqTable.Keys - keys
      invariant Collected(resultArr, visited, freqTable, maxFreq)
      decreases |keys|
    {
      // the loop guard leaves a member to pick
      assert exists k :: k in keys by {
        if forall k :: k !in keys {
          assert false;
        }
      }
      var key :| key in keys;
      ghost var before := resultArr;
      if freqTable[key] == maxFreq {
        resultArr := resultArr + [key];
      }
      CollectStep(before, visited, freqTable, maxFreq, key, resultArr);
      keys := keys - {key};
      visited := visited + {key};
    }
    CollectedAll(nums, resultArr, freqTable, maxFreq);
    MaxCountIsLargest(nums);

    if |resultArr| == |freqTable.Keys| {
      resultArr := [];
    }
    return resultArr;
  }

  // ---------------------------------------------------------------------------
  // The expected outputs listed at the top of the source
  // ---------------------------------------------------------------------------

  /** `[5, 1, 4]` and `[5, 1, 4, 1, 5, 4]`: every value ties, so `mode` answers `[]`. */
  lemma ExamplesAllTie()
    ensures AllTie([5, 1, 4])
    ensures AllTie([5, 1, 4, 1, 5, 4])
  {
    var t := [5, 1, 4];
    MaxCountIsLargest(t);
    assert multiset(t)[5] == 1 && multiset(t)[1] == 1 && multiset(t)[4] == 1;
    var s := [5, 1, 4, 1, 5, 4];
    MaxCountIsLargest(s);
    assert multiset(s)[5] == 2 && multiset(s)[1] == 2 && multiset(s)[4] == 2;
    assert MaxCount(s) == 2;
  }

  /** `[5, 1, 4, 1]`: 1 is the only mode. */
  lemma ExampleOneMode()
    ensures !AllTie([5, 1, 4, 1])
    ensures ModeSet([5, 1, 4, 1]) == {1}
  {
    var s := [5, 1, 4, 1];
    MaxCountIsLargest(s);
    assert multiset(s)[5] == 1 && multiset(s)[1] == 2 && multiset(s)[4] == 1;
    assert MaxCount(s) == 2;
  }

  /** `[5, 1, 4, 1, 5]`: 5 and 1 are the modes. */
  lemma ExampleTwoModes()
    ensures !AllTie([5, 1, 4, 1, 5])
    ensures ModeSet([5, 1, 4, 1, 5]) == {5, 1}
  {
    var s := [5, 1, 4, 1, 5];
    MaxCountIsLargest(s);
    assert multiset(s)[5] == 2 && multiset(s)[1] == 2 && multiset(s)[4] == 1;
    assert MaxCount(s) == 2;
  }
}
