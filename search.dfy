/**
 * The branchless lower-bound binary search of Program.cs and its sequential
 * batch driver.
 *
 * The searched array and the query values are read-only for a whole batch, so
 * they are modelled as sequences (`keys`, `values`).  The prefetch hint has no
 * observable effect and is not modelled.
 */
module BinarySearch {

  datatype Option<T> = None | Some(value: T)

  /** `keys` is non-decreasing (a strictly increasing array is a special case). */
  ghost predicate Sorted(keys: seq<int>) {
    forall i, j :: 0 <= i <= j < |keys| ==> keys[i] <= keys[j]
  }

  /**
   * The lower bound of `val` in `keys`: the first index whose key is at least
   * `val`, or `|keys|` when there is none.
   */
  function LowerBound(keys: seq<int>, val: int): (r: nat)
    ensures r <= |keys|
    ensures forall k :: 0 <= k < r ==> keys[k] < val
    ensures r < |keys| ==> val <= keys[r]
  {
    if |keys| == 0 || val <= keys[0] then 0
    else
      var rest := LowerBound(keys[1..], val);
      assert forall k :: 1 <= k < rest + 1 ==> keys[k] == keys[1..][k - 1];
      1 + rest
  }

  /**
   * Number of iterations of the search loop for a window of `n` candidates:
   * every iteration replaces `n` by `n - n / 2`, whatever the comparison says.
   */
  function Steps(n: int): (k: nat)
    ensures k == 0 <==> n <= 1
    decreases n
  {
    if n <= 1 then 0 else 1 + Steps(n - n / 2)
  }

  function Pow2(k: nat): (p: nat)
    ensures p >= 1
  {
    if k == 0 then 1 else 2 * Pow2(k - 1)
  }

  /** The number of probes is the ceiling of log2 of the array length. */
  lemma {:induction false} StepsIsCeilLog2(n: int)
    ensures n <= Pow2(Steps(n))
    ensures n >= 2 ==> Pow2(Steps(n) - 1) < n
    decreases n
  {
    if n > 1 {
      var m := n - n / 2;
      StepsIsCeilLog2(m);
      assert Steps(n) == 1 + Steps(m);
      assert Pow2(Steps(n)) == 2 * Pow2(Steps(m));
      if m >= 2 {
        assert Pow2(Steps(m)) == 2 * Pow2(Steps(m) - 1);
      }
    }
  }

  /**
   * What the search loop and its final fix-up compute when started on the
   * window of `size` candidates beginning at `low`: halve the window towards
   * the upper half when the probed key is below `val`, and once at most one
   * candidate is left, step past it if its key is below `val`.
   */
  function SearchFrom(keys: seq<int>, val: int, low: int, size: int): (r: int)
    requires 0 <= low && 0 <= size && low + size <= |keys|
    ensures low <= r <= low + size
    decreases size
  {
    if size > 1 then
      var probe := low + size / 2;
      SearchFrom(keys, val, if keys[probe] < val then probe else low, size - size / 2)
    else if size == 1 && keys[low] < val then low + 1
    else low
  }

  /** The index one complete search for `val` returns. */
  function Answer(keys: seq<int>, val: int): (r: int)
    ensures 0 <= r <= |keys|
  {
    SearchFrom(keys, val, 0, |keys|)
  }

  /** On a sorted array, a key below `val` lies before the lower bound. */
  lemma BelowLowerBound(keys: seq<int>, val: int, p: int)
    requires Sorted(keys)
    requires 0 <= p < |keys| && keys[p] < val
    ensures p < LowerBound(keys, val)
  {
  }

  /** A key at least `val` lies at or after the lower bound. */
  lemma AtOrAfterLowerBound(keys: seq<int>, val: int, p: int)
    requires 0 <= p < |keys| && val <= keys[p]
    ensures LowerBound(keys, val) <= p
  {
  }

  /**
   * On a sorted array the search keeps the lower bound inside its window, so
   * it ends on the lower bound.
   */
  lemma {:induction false} SearchFromFindsLowerBound(keys: seq<int>, val: int, low: int, size: int)
    requires Sorted(keys)
    requires 0 <= low && 0 <= size && low + size <= |keys|
    requires low <= LowerBound(keys, val) <= low + size
    ensures SearchFrom(keys, val, low, size) == LowerBound(keys, val)
    decreases size
  {
    if size > 1 {
      var probe := low + size / 2;
      if keys[probe] < val {
        BelowLowerBound(keys, val, probe);
        SearchFromFindsLowerBound(keys, val, probe, size - size / 2);
      } else {
        AtOrAfterLowerBound(keys, val, probe);
        SearchFromFindsLowerBound(keys, val, low, size - size / 2);
      }
    } else if size == 1 {
      if keys[low] < val {
        BelowLowerBound(keys, val, low);
      } else {
        AtOrAfterLowerBound(keys, val, low);
      }
    }
  }

  /** A complete search on a sorted array returns the lower bound. */
  lemma AnswerIsLowerBound(keys: seq<int>, val: int)
    requires Sorted(keys)
    ensures Answer(keys, val) == LowerBound(keys, val)
  {
    SearchFromFindsLowerBound(keys, val, 0, |keys|);
  }

  /**
   * One search of the sequential driver.  Every probe reads inside the array,
   * the loop runs `Steps(|keys|)` times whatever `val` is, and on a sorted
   * array the result is the lower bound.  With an empty array the loop and
   * the fix-up are skipped and the result is 0.
   */
  method Search(keys: seq<int>, val: int) returns (low: int, ghost probes: nat)
    ensures low == Answer(keys, val)
    ensures 0 <= low <= |keys|
    ensures Sorted(keys) ==> low == LowerBound(keys, val)
    ensures probes == Steps(|keys|)
  {
    var size := |keys|;
    low := 0;
    probes := 0;
    while size > 1
      invariant 0 <= low && 0 <= size && low + size <= |keys|
      invariant SearchFrom(keys, val, low, size) == Answer(keys, val)
      invariant probes + Steps(size) == Steps(|keys|)
    {
      var probe := low + size / 2;
      var v := keys[probe];
      if v < val {
        low := probe;
      }
      size := size - size / 2;
      probes := probes + 1;
    }
    if size == 1 && keys[low] < val {
      low := low + 1;
    }
    ghost var sorted := Sorted(keys);
    if sorted {
      AnswerIsLowerBound(keys, val);
    }
  }

  /** The answers of a whole batch, in query order. */
  function Expected(keys: seq<int>, values: seq<int>): seq<int> {
    seq(|values|, q requires 0 <= q < |values| => Answer(keys, values[q]))
  }

  /**
   * The sequential driver: one complete search per query, appended in query
   * order.  `capacity` is the `V` given to `res.Capacity`, which rejects a
   * negative value before any search runs.
   */
  method Sequential(capacity: int, keys: seq<int>, values: seq<int>) returns (res: Option<seq<int>>)
    ensures res.None? <==> capacity < 0
    ensures res.Some? ==> |res.value| == |values|
    ensures res.Some? ==> forall q :: 0 <= q < |values| ==> res.value[q] == Answer(keys, values[q])
    ensures res.Some? && Sorted(keys) ==>
              forall q :: 0 <= q < |values| ==> res.value[q] == LowerBound(keys, values[q])
    ensures res.Some? ==> res.value == Expected(keys, values)
  {
    if capacity < 0 {
      // List<int>.Capacity rejects a value below the list's count, here 0
      return None;
    }
    var found := [];
    for q := 0 to |values|
      invariant |found| == q
      invariant forall k :: 0 <= k < q ==> found[k] == Answer(keys, values[k])
      invariant Sorted(keys) ==> forall k :: 0 <= k < q ==> found[k] == LowerBound(keys, values[k])
    {
      var low;
      ghost var probes;
      low, probes := Search(keys, values[q]);
      found := found + [low];
    }
    return Some(found);
  }
}
