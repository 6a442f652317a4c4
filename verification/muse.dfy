/**
 * The engine of the integer-score revision (muse.go): validating a run,
 * choosing the padding length, reducing each cohort to its best score, and
 * merging the cohort scores into a bounded store of integer percent scores.
 *
 * The run is sequential here. Goroutines, the semaphore and the channels only
 * parallelise the per-cohort scoring; the merge reads the channels in cohort
 * order, so the merged sequence is the cohort scores in cohort order.
 */
module Muse {
  import opened Wrappers
  import opened Numbers
  import opened StringOrder
  import opened Labels
  import opened Heaps
  import opened XCorr
  import Groups

  // ----- Score and Results of this revision -----

  /** A score of this revision: the percent score is an integer. */
  datatype Score = Score(labels: Option<Labels>, lag: int, percentScore: int)

  type Scores = seq<Score>

  /** Go's zero `Score{}`: nil labels, lag 0, percent score 0. */
  const NoScore := Score(None, 0, 0)

  /** The heap key: the signed percent score `Less` compares. */
  function Key(s: Score): real {
    s.percentScore as real
  }

  datatype Results = Results(maxLag: int, topN: int, threshold: real, scores: Scores)

  /** `NewResults`: an empty store (`make` with a negative capacity panics). */
  function NewResults(maxLag: int, topN: int, threshold: real): (r: Results)
    requires topN >= 0
    ensures Inv(r) && r.scores == []
    ensures r.maxLag == maxLag && r.topN == topN && r.threshold == threshold
  {
    Results(maxLag, topN, threshold, [])
  }

  /**
   * `passed`: the lag is within `MaxLag` and the percent score's magnitude
   * reaches `Threshold * 100` (the threshold is a fraction, the score a
   * percentage).
   */
  predicate Passed(r: Results, s: Score) {
    IntAbs(s.lag) <= r.maxLag && IntAbs(s.percentScore) as real >= r.threshold * 100.0
  }

  /** Every score of `xs` passes the store's filter. */
  predicate AllPassed(r: Results, xs: Scores) {
    forall k :: 0 <= k < |xs| ==> Passed(r, xs[k])
  }

  /** The store's invariant: never more than `TopN` scores, all of which pass the filter. */
  predicate Inv(r: Results) {
    |r.scores| <= r.topN && AllPassed(r, r.scores)
  }

  /** The merge reads the heap root only when the store is full; an empty full store (`TopN = 0`) panics. */
  predicate CanMerge(r: Results, s: Score) {
    !Passed(r, s) || |r.scores| != r.topN || |r.scores| > 0
  }

  /**
   * One round of the merge loop of `Run`: a passing score is pushed while
   * there is room; at capacity it replaces the root only when it is strictly
   * greater as a SIGNED score. Unlike the store of results.go there is no
   * check for nil labels.
   */
  function Merge(r: Results, s: Score): (r': Results)
    requires CanMerge(r, s)
    ensures r'.maxLag == r.maxLag && r'.topN == r.topN && r'.threshold == r.threshold
    ensures !Passed(r, s) ==> r' == r
    ensures Passed(r, s) && |r.scores| != r.topN ==>
      multiset(r'.scores) == multiset(r.scores) + multiset{s} && |r'.scores| == |r.scores| + 1
    ensures Passed(r, s) && |r.scores| == r.topN ==>
      var m := Root(r.scores, Key);
      && |r'.scores| == |r.scores|
      && (s.percentScore > m.percentScore ==>
            multiset(r'.scores) == multiset(r.scores) - multiset{m} + multiset{s})
      && (s.percentScore <= m.percentScore ==> r' == r)
  {
    if !Passed(r, s) then r
    else if |r.scores| == r.topN then
      if s.percentScore > Root(r.scores, Key).percentScore then
        r.(scores := HeapPush(HeapPop(r.scores, Key).0, s))
      else r
    else r.(scores := HeapPush(r.scores, s))
  }

  lemma AllPassedSubMultiset(r: Results, a: Scores, b: Scores)
    requires AllPassed(r, b)
    requires multiset(a) <= multiset(b)
    ensures AllPassed(r, a)
  {
    forall k | 0 <= k < |a| ensures Passed(r, a[k]) {
      assert a[k] in multiset(b);
      var j :| 0 <= j < |b| && b[j] == a[k];
    }
  }

  /** A merge keeps the invariant: at most `TopN` scores, all passing. */
  lemma MergeKeepsInv(r: Results, s: Score)
    requires Inv(r) && CanMerge(r, s)
    ensures Inv(Merge(r, s))
  {
    var r' := Merge(r, s);
    if Passed(r, s) {
      var ext := r.scores + [s];
      assert AllPassed(r, ext);
      assert multiset(ext) == multiset(r.scores) + multiset{s};
      assert multiset(r'.scores) <= multiset(ext);
      AllPassedSubMultiset(r, r'.scores, ext);
    }
  }

  /** The merge loop over the cohort scores. */
  function MergeAll(r: Results, ss: Scores): (r': Results)
    requires Inv(r) && r.topN >= 1
    ensures Inv(r')
    ensures r'.maxLag == r.maxLag && r'.topN == r.topN && r'.threshold == r.threshold
    decreases |ss|
  {
    if |ss| == 0 then r
    else
      MergeKeepsInv(r, ss[0]);
      MergeAll(Merge(r, ss[0]), ss[1..])
  }

  /** The scores of `ss` that pass the filter, in order. */
  function Passing(r: Results, ss: Scores): (p: Scores)
    ensures AllPassed(r, p)
    ensures multiset(p) <= multiset(ss)
    ensures forall k :: 0 <= k < |ss| && Passed(r, ss[k]) ==> ss[k] in p
  {
    if |ss| == 0 then []
    else
      assert ss == [ss[0]] + ss[1..];
      (if Passed(r, ss[0]) then [ss[0]] else []) + Passing(r, ss[1..])
  }

  /** The filter reads only `MaxLag` and `Threshold`. */
  lemma {:induction false} PassingIgnoresStore(r: Results, r': Results, ss: Scores)
    requires r.maxLag == r'.maxLag && r.threshold == r'.threshold
    ensures Passing(r, ss) == Passing(r', ss)
    decreases |ss|
  {
    if |ss| > 0 {
      PassingIgnoresStore(r, r', ss[1..]);
    }
  }

  /** The scores of `pool` that `kept` leaves out. */
  function Dropped(kept: Scores, pool: Scores): multiset<Score> {
    multiset(pool) - multiset(kept)
  }

  /**
   * `kept` is a top-`topN` selection of `pool` by signed score: it is drawn
   * from `pool`, holds `min(topN, |pool|)` scores, and no score left out is
   * greater than any score kept.
   */
  predicate TopOf(kept: Scores, pool: Scores, topN: int) {
    && multiset(kept) <= multiset(pool)
    && |kept| == (if |pool| < topN then |pool| else topN)
    && forall x, k :: x in Dropped(kept, pool) && 0 <= k < |kept| ==> x.percentScore <= kept[k].percentScore
  }

  /**
   * Starting from an empty store, the merge loop keeps exactly a top-`TopN`
   * of the passing scores by signed score: the comparison at the root and the
   * order of the heap agree in this revision.
   */
  lemma MergeIsTopN(maxLag: int, topN: int, threshold: real, ss: Scores)
    requires topN >= 1
    ensures var r := NewResults(maxLag, topN, threshold);
      TopOf(MergeAll(r, ss).scores, Passing(r, ss), topN)
  {
    var r := NewResults(maxLag, topN, threshold);
    MergeAllTop(r, ss, []);
    assert [] + Passing(r, ss) == Passing(r, ss);
  }

  lemma {:induction false} MergeAllTop(r: Results, ss: Scores, pool: Scores)
    requires Inv(r) && r.topN >= 1
    requires TopOf(r.scores, pool, r.topN)
    ensures TopOf(MergeAll(r, ss).scores, pool + Passing(r, ss), r.topN)
    decreases |ss|
  {
    if |ss| == 0 {
      assert pool + Passing(r, ss) == pool;
    } else {
      var s := ss[0];
      var head := if Passed(r, s) then [s] else [];
      MergeKeepsInv(r, s);
      var r' := Merge(r, s);
      MergeTopStep(r, s, pool);
      MergeAllTop(r', ss[1..], pool + head);
      PassingIgnoresStore(r, r', ss[1..]);
      assert Passing(r, ss) == head + Passing(r, ss[1..]);
      assert pool + Passing(r, ss) == (pool + head) + Passing(r, ss[1..]);
    }
  }

  /** One merge keeps the store a top-`TopN` of the scores that passed so far. */
  lemma MergeTopStep(r: Results, s: Score, pool: Scores)
    requires Inv(r) && r.topN >= 1
    requires TopOf(r.scores, pool, r.topN)
    ensures TopOf(Merge(r, s).scores, pool + (if Passed(r, s) then [s] else []), r.topN)
  {
    var r' := Merge(r, s);
    if !Passed(r, s) {
      assert pool + [] == pool;
    } else if |r.scores| != r.topN {
      TopStepGrow(r.scores, r'.scores, pool, s, r.topN);
    } else {
      var m := Root(r.scores, Key);
      assert IsMinimal(m, r.scores, Key);
      if s.percentScore > m.percentScore {
        TopStepReplace(r.scores, r'.scores, pool, s, m, r.topN);
      } else {
        assert r' == r;
        TopStepReject(r.scores, pool, s, r.topN);
      }
    }
  }

  /** A sub-multiset of the same size is the whole multiset. */
  lemma SubMultisetSameSize(a: multiset<Score>, b: multiset<Score>)
    requires a <= b && |a| == |b|
    ensures a == b
  {
    var d := b - a;
    assert b == a + d;
    assert |d| == 0;
    assert d == multiset{};
  }

  /** Below capacity the store holds the whole pool, and the new score joins both. */
  lemma TopStepGrow(kept: Scores, kept': Scores, pool: Scores, s: Score, topN: int)
    requires TopOf(kept, pool, topN) && |kept| < topN
    requires multiset(kept') == multiset(kept) + multiset{s} && |kept'| == |kept| + 1
    ensures TopOf(kept', pool + [s], topN)
  {
    assert |kept| == |pool|;
    SubMultisetSameSize(multiset(kept), multiset(pool));
    assert multiset(pool + [s]) == multiset(kept');
    assert Dropped(kept', pool + [s]) == multiset{};
  }

  /** At capacity, a greater score takes the root's place; the root joins the scores left out. */
  lemma TopStepReplace(kept: Scores, kept': Scores, pool: Scores, s: Score, m: Score, topN: int)
    requires TopOf(kept, pool, topN) && |kept| == topN >= 1
    requires m in kept && forall k :: 0 <= k < |kept| ==> m.percentScore <= kept[k].percentScore
    requires s.percentScore > m.percentScore
    requires multiset(kept') == multiset(kept) - multiset{m} + multiset{s} && |kept'| == |kept|
    ensures TopOf(kept', pool + [s], topN)
  {
    var pool' := pool + [s];
    assert multiset(pool') == multiset(pool) + multiset{s};
    assert multiset(kept) - multiset{m} <= multiset(pool);
    forall x, k | x in Dropped(kept', pool') && 0 <= k < |kept'|
      ensures x.percentScore <= kept'[k].percentScore
    {
      var y := kept'[k];
      assert y in multiset(kept');
      assert y == s || y in multiset(kept) by {
        if y != s {
          assert multiset(kept')[y] == (multiset(kept) - multiset{m})[y];
        }
      }
      assert x.percentScore <= m.percentScore by {
        if x != m {
          assert multiset(pool')[x] > multiset(kept')[x];
          assert multiset(kept')[x] == multiset(kept)[x] + (if x == s then 1 else 0);
          assert x in Dropped(kept, pool);
          var i :| 0 <= i < |kept| && kept[i] == m;
        }
      }
      if y != s {
        var j :| 0 <= j < |kept| && kept[j] == y;
      }
    }
  }

  /** At capacity, a score no greater than the root is left out; it is no greater than anything kept. */
  lemma TopStepReject(kept: Scores, pool: Scores, s: Score, topN: int)
    requires TopOf(kept, pool, topN) && |kept| == topN >= 1
    requires forall k :: 0 <= k < |kept| ==> s.percentScore <= kept[k].percentScore
    ensures TopOf(kept, pool + [s], topN)
  {
    var pool' := pool + [s];
    assert multiset(pool') == multiset(pool) + multiset{s};
    forall x, k | x in Dropped(kept, pool') && 0 <= k < |kept|
      ensures x.percentScore <= kept[k].percentScore
    {
      if x != s {
        assert x in Dropped(kept, pool);
      }
    }
  }

  /** An empty cohort's zero score enters the store when the threshold is not positive: there is no nil-labels check. */
  lemma EmptyCohortScoreEnters()
    ensures Merge(NewResults(0, 1, 0.0), NoScore).scores == [NoScore]
  {
    assert Passed(NewResults(0, 1, 0.0), NoScore);
  }

  // ----- Fetch -----

  /** The mean signed percent score; `None` stands for the NaN of 0/0 on an empty store. */
  function Mean(s: Scores): (m: Option<real>)
    ensures m.None? <==> |s| == 0
  {
    if |s| == 0 then None else Some(Sum(s, Key) / |s| as real)
  }

  /**
   * The old `Fetch`: drain the store into non-increasing order and return the
   * integer sum of the signed percent scores divided by their count.
   */
  method Fetch(r: Results) returns (sorted: Scores, mean: Option<real>, r': Results)
    ensures multiset(sorted) == multiset(r.scores)
    ensures NonIncreasing(sorted, Key)
    ensures mean == Mean(r.scores)
    ensures r' == r.(scores := [])
  {
    var rest := r.scores;
    sorted := [];
    var sum := 0;
    while |rest| > 0
      invariant multiset(rest) + multiset(sorted) == multiset(r.scores)
      invariant NonIncreasing(sorted, Key)
      invariant Dominates(rest, sorted, Key)
      invariant sum as real == Sum(sorted, Key)
      decreases |rest|
    {
      var (rest', x) := HeapPop(rest, Key);
      DrainStep(r.scores, rest, sorted, Key);
      sum := sum + x.percentScore;
      sorted := [x] + sorted;
      rest := rest';
    }
    SumPermutation(sorted, r.scores, Key);
    mean := if |r.scores| == 0 then None else Some(sum as real / |r.scores| as real);
    r' := r.(scores := []);
  }

  // ----- calculateN -----

  /**
   * `calculateN`: the next power of two of the longer length, doubled once
   * more when it is shorter than twice the reference.
   */
  function CalculateN(refLen: int, compLen: int): (n: int)
    ensures refLen >= 1 ==> IsPow2(n) && n >= 2 * refLen && n >= compLen
  {
    var n := if refLen > compLen then NextPowOf2(refLen) else NextPowOf2(compLen);
    if n < 2 * refLen then
      var n' := NextPowOf2(n + 1);
      if refLen >= 1 then
        Pow2Spacing(n, n');
        n'
      else n'
    else n
  }

  /** For a non-empty reference, `calculateN` is the SMALLEST power of two at least `2 * refLen` and `compLen`. */
  lemma CalculateNIsLeast(refLen: int, compLen: int, p: int)
    requires refLen >= 1
    requires IsPow2(p) && p >= 2 * refLen && p >= compLen
    ensures CalculateN(refLen, compLen) <= p
  {
    var longer := if refLen > compLen then refLen else compLen;
    var n0 := NextPowOf2(longer);
    NextPowOf2IsLeast(longer, p);
    if n0 < 2 * refLen {
      assert n0 < p;
      Pow2Spacing(n0, p);
      NextPowOf2IsLeast(n0 + 1, p);
    }
  }

  // ----- scoreSingle -----

  /**
   * `int(math.Abs(v*100) + 0.5)`: the magnitude as a percentage, rounded
   * half up (the conversion truncates a non-negative value, i.e. floors it).
   */
  function PercentOf(v: real): (p: int)
    ensures p >= 0
    ensures p as real - 0.5 <= Abs(v * 100.0) < p as real + 0.5
  {
    (Abs(v * 100.0) + 0.5).Floor
  }

  /** The score of one cohort member against the transformed reference. */
  function MemberScore(sp: Spectral, xPadded: seq<real>, s: Groups.Series): (r: Score)
    requires WellFormed(sp)
    requires |xPadded| >= 1 && |s.y| <= |xPadded|
    ensures r.labels == Some(s.labels) && r.percentScore >= 0
    ensures sp.zNormalize(s.y).None? ==> r.lag == 0 && r.percentScore == 0
    ensures sp.zNormalize(s.y).Some? ==>
      var n := |xPadded|;
      var cc := Scale(sp.correlate(xPadded, ZeroPad(sp.zNormalize(s.y).value, n)), ScaleFactor(n, false));
      && LagInRange(r.lag, n)
      && IsFirstMaxAbs(cc, LagToIndex(r.lag, n))
      && r.percentScore == PercentOf(cc[LagToIndex(r.lag, n)])
  {
    var c := XCorrWithX(sp, xPadded, s.y);
    Score(Some(s.labels), c.lag, PercentOf(c.value))
  }

  /** One round of the reduction: the candidate wins on a strictly greater score, or when nothing is held yet. */
  function KeepBest(best: Score, cand: Score): Score {
    if cand.percentScore > best.percentScore || best.labels.None? then cand else best
  }

  /** `cs[i]` is the first score of maximal percent score in `cs`. */
  predicate IsFirstBest(cs: Scores, i: int) {
    && 0 <= i < |cs|
    && (forall k :: 0 <= k < |cs| ==> cs[k].percentScore <= cs[i].percentScore)
    && (forall k :: 0 <= k < i ==> cs[k].percentScore < cs[i].percentScore)
  }

  /** Labelled scores only. */
  predicate Labelled(cs: Scores) {
    forall k :: 0 <= k < |cs| ==> cs[k].labels.Some?
  }

  /**
   * The loop of `scoreSingle` over labelled candidate scores, starting from
   * the zero score: it settles on the first candidate of maximal score, and
   * yields the zero score when there is none.
   */
  function BestOf(cs: Scores): (r: Score)
    requires Labelled(cs)
    ensures |cs| == 0 ==> r == NoScore
    ensures |cs| > 0 ==> exists i :: IsFirstBest(cs, i) && r == cs[i]
  {
    if |cs| == 0 then NoScore
    else
      var b := BestOf(cs[..|cs| - 1]);
      BestStep(cs, b);
      KeepBest(b, cs[|cs| - 1])
  }

  /** One round of the reduction extends "first best of the prefix" to the whole sequence. */
  lemma BestStep(cs: Scores, b: Score)
    requires |cs| > 0 && Labelled(cs)
    requires |cs| == 1 ==> b == NoScore
    requires |cs| > 1 ==> exists i :: IsFirstBest(cs[..|cs| - 1], i) && b == cs[i]
    ensures exists i :: IsFirstBest(cs, i) && KeepBest(b, cs[|cs| - 1]) == cs[i]
  {
    var last := |cs| - 1;
    var c := cs[last];
    if |cs| == 1 {
      assert IsFirstBest(cs, 0);
    } else {
      var p := cs[..last];
      var i :| IsFirstBest(p, i) && b == cs[i];
      assert forall k :: 0 <= k < last ==> cs[k] == p[k];
      if c.percentScore > b.percentScore {
        assert IsFirstBest(cs, last);
      } else {
        assert b.labels.Some?;
        assert IsFirstBest(cs, i);
      }
    }
  }

  /** The first best score is unique. */
  lemma FirstBestUnique(cs: Scores, i: int, j: int)
    requires IsFirstBest(cs, i) && IsFirstBest(cs, j)
    ensures i == j
  {
    assert cs[i].percentScore == cs[j].percentScore;
  }

  /** The candidate scores of a cohort's members. */
  function Candidates(sp: Spectral, xPadded: seq<real>, members: seq<Groups.Series>): (cs: Scores)
    requires WellFormed(sp) && |xPadded| >= 1
    requires forall k :: 0 <= k < |members| ==> |members[k].y| <= |xPadded|
    ensures |cs| == |members| && Labelled(cs)
    ensures forall k :: 0 <= k < |members| ==> cs[k] == MemberScore(sp, xPadded, members[k])
  {
    seq(|members|, k requires 0 <= k < |members| => MemberScore(sp, xPadded, members[k]))
  }

  /**
   * `scoreSingle`: the first member of maximal percent score in the cohort,
   * or the zero score with nil labels for an empty cohort.
   */
  function ScoreSingle(sp: Spectral, xPadded: seq<real>, members: seq<Groups.Series>): (r: Score)
    requires WellFormed(sp) && |xPadded| >= 1
    requires forall k :: 0 <= k < |members| ==> |members[k].y| <= |xPadded|
    ensures |members| == 0 ==> r == NoScore
    ensures |members| > 0 ==>
      exists i :: IsFirstBest(Candidates(sp, xPadded, members), i) && r == MemberScore(sp, xPadded, members[i])
    ensures |members| > 0 ==> r.labels.Some? && r.percentScore >= 0
  {
    BestOf(Candidates(sp, xPadded, members))
  }

  // ----- New and Run -----

  /** A configured run: the reference, the comparison group, the store and the concurrency limit. */
  datatype Muse = Muse(reference: Groups.Series, comparison: Groups.Group, results: Results, concurrency: int)

  datatype NewError = LengthMismatch(uid: string)

  datatype RunError = InvalidQuery

  /** Every comparison member has the reference's length. */
  predicate SameLengths(ref: Groups.Series, comp: Groups.Group) {
    forall uid :: uid in comp.registry ==> Groups.SeriesLength(comp.registry[uid]) == Groups.SeriesLength(ref)
  }

  /** The first member in iteration order whose length differs from the reference's. */
  function FirstMismatch(ref: Groups.Series, registry: map<string, Groups.Series>, order: seq<string>): (r: Option<string>)
    requires forall i :: 0 <= i < |order| ==> order[i] in registry
    ensures r.None? <==> forall i :: 0 <= i < |order| ==> |registry[order[i]].y| == |ref.y|
    ensures r.Some? ==> r.value in registry && |registry[r.value].y| != |ref.y|
    decreases |order|
  {
    if |order| == 0 then None
    else if |registry[order[0]].y| != |ref.y| then Some(order[0])
    else
      var r := FirstMismatch(ref, registry, order[1..]);
      assert forall i :: 1 <= i < |order| ==> order[i] == order[1..][i - 1];
      r
  }

  /**
   * `New`: fail, naming a member, when some comparison member's length
   * differs from the reference's (the member reported depends on the map's
   * iteration `order`); otherwise clamp the concurrency to at least 1.
   */
  function New(ref: Groups.Series, comp: Groups.Group, results: Results, cc: int, order: seq<string>): (r: Result<Muse, NewError>)
    requires Enumerates(order, comp.registry.Keys)
    ensures r.Failure? <==> !SameLengths(ref, comp)
    ensures r.Failure? ==>
      r.error.uid in comp.registry && Groups.SeriesLength(comp.registry[r.error.uid]) != Groups.SeriesLength(ref)
    ensures r.Success? ==>
      && r.value.reference == ref && r.value.comparison == comp && r.value.results == results
      && r.value.concurrency >= 1
      && (cc >= 1 ==> r.value.concurrency == cc)
  {
    match FirstMismatch(ref, comp.registry, order)
    case Some(uid) => Failure(LengthMismatch(uid))
    case None =>
      assert SameLengths(ref, comp) by {
        forall uid | uid in comp.registry ensures |comp.registry[uid].y| == |ref.y| {
          var i :| 0 <= i < |order| && order[i] == uid;
        }
      }
      Success(Muse(ref, comp, results, if cc < 1 then 1 else cc))
  }

  /**
   * What `Run` may be called on: a non-empty reference, an iteration order
   * of the comparison registry, and a valid store with room in it.
   */
  predicate Runnable(m: Muse, order: seq<string>) {
    && Enumerates(order, m.comparison.registry.Keys)
    && |m.reference.y| >= 1
    && Inv(m.results) && m.results.topN >= 1
  }

  /**
   * No member is longer than the transform: a longer member is left unpadded
   * by `zeroPad` and its transform has the wrong length.
   */
  predicate MembersWithin(g: Groups.Group, n: int) {
    forall uid :: uid in g.registry ==> |g.registry[uid].y| <= n
  }

  /** Every member has the group's recorded length, as `Add` keeps it. */
  predicate LengthsAgree(g: Groups.Group) {
    forall uid :: uid in g.registry ==> Groups.SeriesLength(g.registry[uid]) == Groups.Length(g)
  }

  /** `floats.Scale(1/float64(len(x)-1), x)`; a zero divisor (a reference of one value) is modelled as 0. */
  function ReferenceScale(len: int): real {
    if len - 1 == 0 then 0.0 else 1.0 / (len - 1) as real
  }

  /** The reference as the run transforms it: normalised, scaled, and padded to `n`. */
  function Prepare(x: seq<real>, n: int): (r: seq<real>)
    ensures |r| == Max(n, |x|)
    ensures forall k :: 0 <= k < |r| - |x| ==> r[k] == 0.0
    ensures r[|r| - |x|..] == Scale(x, ReferenceScale(|x|))
  {
    var xs := Scale(x, ReferenceScale(|x|));
    ZeroPadKeepsSignal(xs, n);
    ZeroPad(xs, n)
  }

  /** The best score of every cohort, in cohort order. */
  function CohortScores(sp: Spectral, xPadded: seq<real>, g: Groups.Group, cohorts: seq<Labels>): (ss: Scores)
    requires WellFormed(sp) && |xPadded| >= 1
    requires Groups.IndexInRegistry(g)
    requires forall uid :: uid in g.registry ==> |g.registry[uid].y| <= |xPadded|
    ensures |ss| == |cohorts|
    ensures forall i :: 0 <= i < |cohorts| ==>
      ss[i] == ScoreSingle(sp, xPadded, Groups.FilterByLabelValues(g, cohorts[i]))
  {
    seq(|cohorts|, i requires 0 <= i < |cohorts| =>
      ScoreSingle(sp, xPadded, Groups.FilterByLabelValues(g, cohorts[i])))
  }

  /**
   * The steps of a run with transform length `n`, shared by both engine
   * revisions: normalise the reference (an error when its deviation is
   * zero), scale it in place and pad a copy, rebuild the cohort index, score
   * every cohort, and merge the scores into the store.
   */
  function RunWith(sp: Spectral, m: Muse, groupBy: seq<string>, order: seq<string>, n: int): (r: Result<Muse, RunError>)
    requires WellFormed(sp) && Runnable(m, order)
    requires n >= |m.reference.y| && MembersWithin(m.comparison, n)
    ensures sp.zNormalize(m.reference.y).None? <==> r.Failure?
    ensures r.Success? ==>
      var x := sp.zNormalize(m.reference.y).value;
      && r.value.reference.labels == m.reference.labels
      && r.value.reference.y == Scale(x, ReferenceScale(|m.reference.y|))
      && r.value.concurrency == m.concurrency
      && r.value.comparison == Groups.IndexLabelValues(m.comparison, groupBy, order).0
      && Inv(r.value.results)
      && r.value.results.maxLag == m.results.maxLag && r.value.results.topN == m.results.topN
      && r.value.results.threshold == m.results.threshold
      && r.value.results == MergeAll(m.results, RunScores(sp, m, groupBy, order, n))
  {
    match sp.zNormalize(m.reference.y)
    case None => Failure(InvalidQuery)
    case Some(x) =>
      var ss := RunScores(sp, m, groupBy, order, n);
      Success(m.(reference := m.reference.(y := Scale(x, ReferenceScale(|x|))),
                 comparison := Groups.IndexLabelValues(m.comparison, groupBy, order).0,
                 results := MergeAll(m.results, ss)))
  }

  /**
   * The cohort scores a run merges: one per cohort label set returned by
   * `indexLabelValues`. With duplicate-free grouping keys every cohort is
   * non-empty, so every score is labelled.
   */
  function RunScores(sp: Spectral, m: Muse, groupBy: seq<string>, order: seq<string>, n: int): (ss: Scores)
    requires WellFormed(sp) && Runnable(m, order)
    requires n >= |m.reference.y| && MembersWithin(m.comparison, n)
    requires sp.zNormalize(m.reference.y).Some?
    ensures |ss| == |Groups.IndexLabelValues(m.comparison, groupBy, order).1|
    ensures Groups.Inv(m.comparison) && Distinct(groupBy) ==> Labelled(ss)
  {
    var x := Prepare(sp.zNormalize(m.reference.y).value, n);
    var (g, cohorts) := Groups.IndexLabelValues(m.comparison, groupBy, order);
    Groups.IndexPartitionsRegistry(m.comparison, groupBy, order);
    var ss := CohortScores(sp, x, g, cohorts);
    if Groups.Inv(m.comparison) && Distinct(groupBy) then
      Groups.IndexCohortsRoundTrip(m.comparison, groupBy, order);
      ss
    else ss
  }

  /**
   * `Run`: pad to `calculateN` of the reference and group lengths and run
   * the shared steps. Starting from an empty store, the store afterwards
   * holds a top-`TopN` by signed score of the passing cohort scores.
   */
  function Run(sp: Spectral, m: Muse, groupBy: seq<string>, order: seq<string>): (r: Result<Muse, RunError>)
    requires WellFormed(sp) && Runnable(m, order) && LengthsAgree(m.comparison)
    ensures sp.zNormalize(m.reference.y).None? <==> r.Failure?
    ensures r.Success? ==>
      var n := CalculateN(|m.reference.y|, Groups.Length(m.comparison));
      var ss := RunScores(sp, m, groupBy, order, n);
      && r.value.comparison == Groups.IndexLabelValues(m.comparison, groupBy, order).0
      && Inv(r.value.results) && r.value.results.topN == m.results.topN
      && (m.results.scores == [] ==> TopOf(r.value.results.scores, Passing(m.results, ss), m.results.topN))
  {
    var n := CalculateN(|m.reference.y|, Groups.Length(m.comparison));
    assert MembersWithin(m.comparison, n);
    var r := RunWith(sp, m, groupBy, order, n);
    if r.Success? && m.results.scores == [] then
      MergeIsTopN(m.results.maxLag, m.results.topN, m.results.threshold, RunScores(sp, m, groupBy, order, n));
      r
    else r
  }
}
