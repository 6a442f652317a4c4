/**
 * The bounded result store (results.go): keeps at most `TopN` scores that
 * pass the lag and threshold filter, in a min-priority queue ordered by the
 * signed score, and drains them in non-increasing order.
 *
 * The mutex only makes `Update` atomic; each call is modelled as one step.
 */
module Results {
  import opened Wrappers
  import opened Labels
  import opened Scores
  import opened Heaps
  import opened Numbers

  datatype Results = Results(maxLag: int, topN: int, threshold: real, scores: Scores)

  /** `NewResults`: an empty store (`make` with a negative capacity panics). */
  function NewResults(maxLag: int, topN: int, threshold: real): (r: Results)
    requires topN >= 0
    ensures Inv(r) && r.scores == []
    ensures r.maxLag == maxLag && r.topN == topN && r.threshold == threshold
  {
    Results(maxLag, topN, threshold, [])
  }

  /** `passed`: the lag is within `MaxLag` and the score's magnitude reaches `Threshold`. */
  predicate Passed(r: Results, s: Score) {
    IntAbs(s.lag) <= r.maxLag && Abs(s.percentScore) >= r.threshold
  }

  /**
   * The store's invariant: never more than `TopN` scores, and every stored
   * score has labels and passes the filter.
   */
  predicate Inv(r: Results) {
    |r.scores| <= r.topN && Admissible(r, r.scores)
  }

  /** `Update` reads the heap root only when the store is full and the score is admissible; an empty full store panics. */
  predicate CanUpdate(r: Results, s: Score) {
    s.labels.None? || !Passed(r, s) || |r.scores| != r.topN || |r.scores| > 0
  }

  /**
   * `Update`: ignore scores without labels and scores that fail the filter;
   * below capacity, add the score; at capacity, replace the signed minimum
   * only when the new score's MAGNITUDE exceeds that minimum's magnitude.
   */
  function Update(r: Results, s: Score): (r': Results)
    requires CanUpdate(r, s)
    ensures r'.maxLag == r.maxLag && r'.topN == r.topN && r'.threshold == r.threshold
    ensures s.labels.None? || !Passed(r, s) ==> r' == r
    ensures s.labels.Some? && Passed(r, s) && |r.scores| != r.topN ==>
      multiset(r'.scores) == multiset(r.scores) + multiset{s}
    ensures s.labels.Some? && Passed(r, s) && |r.scores| == r.topN ==>
      var m := Root(r.scores, Key);
      && |r'.scores| == |r.scores|
      && (Abs(s.percentScore) > Abs(m.percentScore) ==>
            multiset(r'.scores) == multiset(r.scores) - multiset{m} + multiset{s})
      && (Abs(s.percentScore) <= Abs(m.percentScore) ==> r' == r)
  {
    if s.labels.None? then r
    else if !Passed(r, s) then r
    else if |r.scores| == r.topN then
      if Abs(s.percentScore) > Abs(Root(r.scores, Key).percentScore) then
        r.(scores := HeapPush(HeapPop(r.scores, Key).0, s))
      else r
    else r.(scores := HeapPush(r.scores, s))
  }

  /** With room for at least one score, every update is well-defined on a store that keeps `Inv`. */
  lemma InvAllowsUpdate(r: Results, s: Score)
    requires Inv(r) && r.topN >= 1
    ensures CanUpdate(r, s)
  {
  }

  /** Every score of `xs` has labels and passes the filter. */
  predicate Admissible(r: Results, xs: Scores) {
    forall k :: 0 <= k < |xs| ==> xs[k].labels.Some? && Passed(r, xs[k])
  }

  lemma AdmissibleSubMultiset(r: Results, a: Scores, b: Scores)
    requires Admissible(r, b)
    requires multiset(a) <= multiset(b)
    ensures Admissible(r, a)
  {
    forall k | 0 <= k < |a| ensures a[k].labels.Some? && Passed(r, a[k]) {
      assert a[k] in multiset(b);
      var j :| 0 <= j < |b| && b[j] == a[k];
    }
  }

  /** `Update` keeps the invariant: the store stays within `TopN` and holds only admissible scores. */
  lemma UpdateKeepsInv(r: Results, s: Score)
    requires Inv(r) && CanUpdate(r, s)
    ensures Inv(Update(r, s))
  {
    var r' := Update(r, s);
    if s.labels.Some? && Passed(r, s) {
      var ext := r.scores + [s];
      assert Admissible(r, r.scores);
      assert Admissible(r, ext);
      assert multiset(ext) == multiset(r.scores) + multiset{s};
      assert multiset(r'.scores) <= multiset(ext);
      AdmissibleSubMultiset(r, r'.scores, ext);
      assert Admissible(r', r'.scores);
    }
  }

  /** A sequence of updates. */
  function UpdateAll(r: Results, ss: seq<Score>): (r': Results)
    requires Inv(r) && r.topN >= 1
    ensures Inv(r') && r'.topN == r.topN
    decreases |ss|
  {
    if |ss| == 0 then r
    else
      InvAllowsUpdate(r, ss[0]);
      UpdateKeepsInv(r, ss[0]);
      UpdateAll(Update(r, ss[0]), ss[1..])
  }

  /** Starting from an empty store with room for one score, no sequence of updates overfills it. */
  lemma StoreBounded(maxLag: int, topN: int, threshold: real, ss: seq<Score>)
    requires topN >= 1
    ensures var r := UpdateAll(NewResults(maxLag, topN, threshold), ss);
      |r.scores| <= topN && Admissible(r, r.scores)
  {
  }

  /**
   * The store is not a top-N by magnitude: with `TopN = 2` holding -0.9 and
   * 0.5, a score of 0.7 is rejected (it is compared with the signed minimum
   * -0.9, not with 0.5), and a score of 0.95 evicts -0.9 while 0.5 stays.
   */
  lemma NotTopByMagnitude()
    ensures var l := Some(Labels(map[], []));
      var r := Results(10, 2, 0.0, [Score(l, 0, -0.9), Score(l, 0, 0.5)]);
      && Update(r, Score(l, 0, 0.7)) == r
      && multiset(Update(r, Score(l, 0, 0.95)).scores) == multiset{Score(l, 0, 0.5), Score(l, 0, 0.95)}
  {
    var l := Some(Labels(map[], []));
    var r := Results(10, 2, 0.0, [Score(l, 0, -0.9), Score(l, 0, 0.5)]);
    assert MinIndex(r.scores, Key) == 0;
  }

  // ----- Fetch -----

  /** A score's magnitude. */
  function Magnitude(x: Score): real {
    Abs(x.percentScore)
  }

  /** The mean magnitude; `None` stands for the NaN of 0/0 on an empty store. */
  function MeanAbs(s: Scores): (m: Option<real>)
    ensures m.None? <==> |s| == 0
  {
    if |s| == 0 then None else Some(Sum(s, Magnitude) / |s| as real)
  }

  /**
   * `Fetch`: pop the root repeatedly, filling the result from its end, so the
   * scores come out in non-increasing order (the doc comment says ascending;
   * the code and its tests give non-increasing). Also returns the mean
   * magnitude and leaves the store empty.
   */
  method Fetch(r: Results) returns (sorted: Scores, mean: Option<real>, r': Results)
    ensures multiset(sorted) == multiset(r.scores)
    ensures NonIncreasing(sorted, Key)
    ensures mean == MeanAbs(r.scores)
    ensures r' == r.(scores := [])
  {
    var rest := r.scores;
    sorted := [];
    var sum := 0.0;
    while |rest| > 0
      invariant multiset(rest) + multiset(sorted) == multiset(r.scores)
      invariant NonIncreasing(sorted, Key)
      invariant Dominates(rest, sorted, Key)
      invariant sum == Sum(sorted, Magnitude)
      decreases |rest|
    {
      var (rest', x) := HeapPop(rest, Key);
      DrainStep(r.scores, rest, sorted, Key);
      sum := Magnitude(x) + sum;
      sorted := [x] + sorted;
      rest := rest';
    }
    SumPermutation(sorted, r.scores, Magnitude);
    mean := if |r.scores| == 0 then None else Some(sum / |r.scores| as real);
    r' := r.(scores := []);
  }
}
