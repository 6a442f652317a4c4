/**
 * The min-priority queue that `container/heap` maintains over a slice,
 * abstracted from its array layout: `heap.Push` adds an element, and the root
 * (`h[0]`, removed by `heap.Pop`) is an element of minimal key. Among equal
 * minimal keys the model takes the earliest-added one.
 */
module Heaps {

  /** No element of `s` has a smaller key than `x`. */
  predicate IsMinimal<T>(x: T, s: seq<T>, key: T -> real) {
    forall k :: 0 <= k < |s| ==> key(x) <= key(s[k])
  }

  /** The position of the first element of minimal key. */
  function MinIndex<T>(s: seq<T>, key: T -> real): (m: nat)
    requires |s| > 0
    ensures m < |s|
    ensures IsMinimal(s[m], s, key)
    ensures forall k :: 0 <= k < m ==> key(s[k]) > key(s[m])
  {
    if |s| == 1 then 0
    else
      var m := MinIndex(s[1..], key);
      assert forall k :: 1 <= k < |s| ==> s[k] == s[1..][k - 1];
      if key(s[0]) <= key(s[1..][m]) then 0 else m + 1
  }

  /** The heap's root: an element of minimal key. */
  function Root<T>(s: seq<T>, key: T -> real): (x: T)
    requires |s| > 0
    ensures x in s && IsMinimal(x, s, key)
  {
    s[MinIndex(s, key)]
  }

  /** `heap.Push`: the element joins the queue. */
  function HeapPush<T(==)>(s: seq<T>, x: T): (r: seq<T>)
    ensures multiset(r) == multiset(s) + multiset{x}
    ensures |r| == |s| + 1
  {
    s + [x]
  }

  /** `heap.Pop`: remove and return the root. */
  function HeapPop<T(==)>(s: seq<T>, key: T -> real): (r: (seq<T>, T))
    requires |s| > 0
    ensures r.1 == Root(s, key)
    ensures multiset(r.0) == multiset(s) - multiset{r.1}
    ensures |r.0| == |s| - 1
  {
    var m := MinIndex(s, key);
    assert s == s[..m] + [s[m]] + s[m + 1..];
    (s[..m] + s[m + 1..], s[m])
  }

  /** Popping right after pushing an element strictly below all others gives that element back. */
  lemma HeapPopAfterPush<T>(s: seq<T>, x: T, key: T -> real)
    requires forall k :: 0 <= k < |s| ==> key(x) < key(s[k])
    ensures HeapPop(HeapPush(s, x), key).1 == x
    ensures multiset(HeapPop(HeapPush(s, x), key).0) == multiset(s)
  {
    var t := HeapPush(s, x);
    assert t[|s|] == x;
    assert IsMinimal(t[MinIndex(t, key)], t, key);
  }

  /** The remaining elements after a pop are no smaller than the popped root. */
  lemma PopLeavesLarger<T>(s: seq<T>, key: T -> real)
    requires |s| > 0
    ensures var (rest, x) := HeapPop(s, key);
      forall k :: 0 <= k < |rest| ==> key(x) <= key(rest[k])
  {
    var (rest, x) := HeapPop(s, key);
    forall k | 0 <= k < |rest| ensures key(x) <= key(rest[k]) {
      assert rest[k] in multiset(rest);
      var j :| 0 <= j < |s| && s[j] == rest[k];
    }
  }

  // ----- Draining the queue -----

  /** Keys in non-increasing order. */
  predicate NonIncreasing<T>(s: seq<T>, key: T -> real) {
    forall i, j :: 0 <= i < j < |s| ==> key(s[i]) >= key(s[j])
  }

  /** Every element still queued has a key no smaller than every element already drained. */
  predicate Dominates<T>(rest: seq<T>, drained: seq<T>, key: T -> real) {
    forall a, k :: 0 <= a < |rest| && 0 <= k < |drained| ==> key(rest[a]) >= key(drained[k])
  }

  /**
   * One round of a drain that pops the root and places it in front of what
   * was drained before: the drained elements stay in non-increasing order
   * and nothing is lost.
   */
  lemma DrainStep<T>(all: seq<T>, rest: seq<T>, drained: seq<T>, key: T -> real)
    requires |rest| > 0
    requires multiset(rest) + multiset(drained) == multiset(all)
    requires NonIncreasing(drained, key) && Dominates(rest, drained, key)
    ensures var (rest', x) := HeapPop(rest, key);
      && multiset(rest') + multiset([x] + drained) == multiset(all)
      && NonIncreasing([x] + drained, key)
      && Dominates(rest', [x] + drained, key)
  {
    var (rest', x) := HeapPop(rest, key);
    assert x in multiset(rest);
    var i :| 0 <= i < |rest| && rest[i] == x;
    PrependKeepsOrder(x, drained, key);
    PopKeepsDominance(rest, drained, key);
  }

  lemma PrependKeepsOrder<T>(x: T, drained: seq<T>, key: T -> real)
    requires NonIncreasing(drained, key)
    requires forall k :: 0 <= k < |drained| ==> key(x) >= key(drained[k])
    ensures NonIncreasing([x] + drained, key)
  {
    var out := [x] + drained;
    forall p, q | 0 <= p < q < |out| ensures key(out[p]) >= key(out[q]) {
      assert out[q] == drained[q - 1];
      if p > 0 {
        assert out[p] == drained[p - 1];
      }
    }
  }

  lemma PopKeepsDominance<T>(rest: seq<T>, drained: seq<T>, key: T -> real)
    requires |rest| > 0
    requires Dominates(rest, drained, key)
    ensures var (rest', x) := HeapPop(rest, key); Dominates(rest', [x] + drained, key)
  {
    var (rest', x) := HeapPop(rest, key);
    var out := [x] + drained;
    PopLeavesLarger(rest, key);
    forall a, k | 0 <= a < |rest'| && 0 <= k < |out| ensures key(rest'[a]) >= key(out[k]) {
      if k > 0 {
        assert rest'[a] in multiset(rest');
        var j :| 0 <= j < |rest| && rest[j] == rest'[a];
        assert out[k] == drained[k - 1];
      }
    }
  }
}
