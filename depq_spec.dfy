/**
 * The contract shared by both double-ended priority queue backings.
 *
 * Elements are ordered by a key projection `key: T -> int`: the comparison
 * `myCompare(a, b)` of either backing is negative, zero or positive exactly
 * when `key(a)` is below, equal to or above `key(b)`.  Two distinct elements
 * may share a key, which is what lets the order of equal elements be
 * observed.
 */
module DepqSpec {

  /** What findMin, findMax, deleteMin and deleteMax hand back: the element,
      or the Underflow error of an empty queue. */
  datatype Result<T> = Ok(value: T) | Underflow

  /** `s` is non-decreasing front to back under `key`. */
  ghost predicate Sorted<T>(key: T -> int, s: seq<T>)
  {
    forall i, j :: 0 <= i < j < |s| ==> key(s[i]) <= key(s[j])
  }

  /** `x` is stored in `m` and no stored element has a smaller key. */
  ghost predicate IsMin<T>(key: T -> int, m: multiset<T>, x: T)
  {
    x in m && forall y :: y in m ==> key(x) <= key(y)
  }

  /** `x` is stored in `m` and no stored element has a larger key. */
  ghost predicate IsMax<T>(key: T -> int, m: multiset<T>, x: T)
  {
    x in m && forall y :: y in m ==> key(y) <= key(x)
  }

  /** The front of a sorted sequence is a minimum of its elements. */
  lemma SortedFrontIsMin<T>(key: T -> int, s: seq<T>)
    requires Sorted(key, s) && s != []
    ensures IsMin(key, multiset(s), s[0])
  {
  }

  /** The back of a sorted sequence is a maximum of its elements. */
  lemma SortedBackIsMax<T>(key: T -> int, s: seq<T>)
    requires Sorted(key, s) && s != []
    ensures IsMax(key, multiset(s), s[|s| - 1])
  {
  }
}
