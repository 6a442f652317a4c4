/**
 * The batch engine (muse_batch.go). It has the same fields, the same
 * validation, the same per-cohort reduction and the same merge as the engine
 * of muse.go; only the padding length differs, computed by a one-argument
 * `calculateN` that is not part of this model and is therefore a parameter.
 */
module MuseBatch {
  import opened Wrappers
  import opened StringOrder
  import opened XCorr
  import Groups
  import Muse

  /**
   * `NewBatch`: fail, naming a member, when some comparison member's length
   * differs from the reference's; otherwise clamp the concurrency to at
   * least 1.
   */
  function NewBatch(ref: Groups.Series, comp: Groups.Group, results: Muse.Results, cc: int, order: seq<string>)
    : (r: Result<Muse.Muse, Muse.NewError>)
    requires Enumerates(order, comp.registry.Keys)
    ensures r.Failure? <==> exists uid :: uid in comp.registry && |comp.registry[uid].y| != |ref.y|
    ensures r.Failure? ==> r.error.uid in comp.registry && |comp.registry[r.error.uid].y| != |ref.y|
    ensures r.Success? ==>
      && r.value.reference == ref && r.value.comparison == comp && r.value.results == results
      && r.value.concurrency >= 1
      && (cc >= 1 ==> r.value.concurrency == cc)
  {
    Muse.New(ref, comp, results, cc, order)
  }

  /**
   * `Run` with transform length `n`: fails exactly when the reference cannot
   * be normalised; otherwise reindexes the group and merges the best score
   * of every cohort. Starting from an empty store, the store afterwards holds
   * a top-`TopN` by signed score of the passing cohort scores, and with
   * duplicate-free grouping keys every merged score is labelled.
   */
  function Run(sp: Spectral, m: Muse.Muse, groupBy: seq<string>, order: seq<string>, n: int)
    : (r: Result<Muse.Muse, Muse.RunError>)
    requires WellFormed(sp) && Muse.Runnable(m, order)
    requires n >= |m.reference.y| && Muse.MembersWithin(m.comparison, n)
    ensures sp.zNormalize(m.reference.y).None? <==> r.Failure?
    ensures r.Success? ==>
      var ss := Muse.RunScores(sp, m, groupBy, order, n);
      && r.value.comparison == Groups.IndexLabelValues(m.comparison, groupBy, order).0
      && Muse.Inv(r.value.results) && r.value.results.topN == m.results.topN
      && (m.results.scores == [] ==> Muse.TopOf(r.value.results.scores, Muse.Passing(m.results, ss), m.results.topN))
      && (Groups.Inv(m.comparison) && Distinct(groupBy) ==> Muse.Labelled(ss))
  {
    var r := Muse.RunWith(sp, m, groupBy, order, n);
    if r.Success? && m.results.scores == [] then
      Muse.MergeIsTopN(m.results.maxLag, m.results.topN, m.results.threshold, Muse.RunScores(sp, m, groupBy, order, n));
      r
    else r
  }
}
