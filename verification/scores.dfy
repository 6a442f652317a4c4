/**
 * Scores and the heap adapter over them (scores.go).
 *
 * `Scores` implements Go's `heap.Interface`; `container/heap` itself is not
 * part of this model. The result store sees it as the priority queue of
 * module `Heaps`, keyed by the signed `PercentScore`.
 */
module Scores {
  import opened Wrappers
  import opened Labels
  import opened Numbers

  /** One cross-correlation result; `labels` is `None` for Go's nil pointer. */
  datatype Score = Score(labels: Option<Labels>, lag: int, percentScore: real)

  type Scores = seq<Score>

  // ----- heap.Interface -----

  /** `Len`: the number of scores. */
  function Len(s: Scores): nat {
    |s|
  }

  /** `Swap`: exchange positions `i` and `j`. */
  function Swap(s: Scores, i: int, j: int): (r: Scores)
    requires 0 <= i < |s| && 0 <= j < |s|
    ensures |r| == |s|
    ensures r[i] == s[j] && r[j] == s[i]
    ensures forall k :: 0 <= k < |s| && k != i && k != j ==> r[k] == s[k]
  {
    s[i := s[j]][j := s[i]]
  }

  /** `Less`: orders by the signed score, not by its magnitude. */
  predicate Less(s: Scores, i: int, j: int)
    requires 0 <= i < |s| && 0 <= j < |s|
  {
    s[i].percentScore < s[j].percentScore
  }

  /** `Push`: append at the end. */
  function Push(s: Scores, x: Score): (r: Scores)
    ensures |r| == |s| + 1 && r[..|s|] == s && r[|s|] == x
  {
    s + [x]
  }

  /** `Pop`: remove and return the last element (Go panics on an empty slice). */
  function Pop(s: Scores): (r: (Scores, Score))
    requires |s| > 0
    ensures |r.0| == |s| - 1
    ensures r.0 + [r.1] == s
  {
    (s[..|s| - 1], s[|s| - 1])
  }

  /** `Pop` undoes `Push`. */
  lemma PopAfterPush(s: Scores, x: Score)
    ensures Pop(Push(s, x)) == (s, x)
  {
    assert Push(s, x)[..|s|] == s;
  }

  /** `Push` of what `Pop` returned restores the slice. */
  lemma PushAfterPop(s: Scores)
    requires |s| > 0
    ensures Push(Pop(s).0, Pop(s).1) == s
  {
  }

  /** `Swap` only rearranges: the same scores, and swapping back restores the slice. */
  lemma SwapPermutes(s: Scores, i: int, j: int)
    requires 0 <= i < |s| && 0 <= j < |s|
    ensures multiset(Swap(s, i, j)) == multiset(s)
    ensures Swap(Swap(s, i, j), i, j) == s
  {
    SwapKeepsMultiset(s, i, j);
    assert Swap(Swap(s, i, j), i, j) == s;
  }

  lemma SwapKeepsMultiset(s: Scores, i: int, j: int)
    requires 0 <= i < |s| && 0 <= j < |s|
    ensures multiset(Swap(s, i, j)) == multiset(s)
  {
    if i != j {
      var t := s[i := s[j]];
      assert multiset(t) == multiset(s) - multiset{s[i]} + multiset{s[j]};
      assert multiset(t[j := s[i]]) == multiset(t) - multiset{s[j]} + multiset{s[i]};
    }
  }

  /** A score of larger magnitude can still be `Less`: the order is signed. */
  lemma LessIsSigned()
    ensures var s := [Score(None, 0, -0.9), Score(None, 0, 0.5)];
      Less(s, 0, 1) && Abs(s[0].percentScore) > Abs(s[1].percentScore)
  {
  }

  /** The heap key: the signed score `Less` compares. */
  function Key(x: Score): real {
    x.percentScore
  }
}
