# go-muse in Dafny

A model of the core of go-muse, a Go library for ranking a group of labelled
time series by how closely each resembles a reference series. The ranking
works in four steps:

1. Each series is filed under a label identity string (`"k1:v1,k2:v2"`).
2. The group is split into cohorts by a set of grouping keys.
3. Each member is scored by the peak of its normalised cross-correlation
   with the reference (a percent score and a signed lag), and each cohort
   keeps its best member.
4. The cohort scores go into a bounded store that keeps a top-`TopN` and
   drains it in order.

The repository holds two revisions side by side, and both are modelled:

- **Current revision.** Label sets with a cached key list (`labels.go`),
  groups (`group.go`), float scores in a heap-backed store (`scores.go`,
  `results.go`), and the correlation steps (`xcorr.go`).
- **Integer-score engine.** The engine with its own integer-score store
  (`muse.go`) and its batch twin (`muse_batch.go`).
- **Earlier revision.** Labels as a plain map, series and groups keyed by
  the older `UID` (`series.go`).

| module | file | what it holds |
|---|---|---|
| `Wrappers` | — | `Option` and `Result`. |
| `Numbers` | — | `Abs`, and sums of a sequence with their permutation lemma. |
| `StringOrder` | — | Go's byte-wise string order, insertion sort (`sort.Strings`), and the sorted enumeration of a set of strings. |
| `Cohorts` | — | The cohort index (grouping identity to member UIDs) and the append step both index folds share. |
| `Heaps` | — | `container/heap` seen as a min-priority queue over a slice. |
| `Labels` | labels.go | `NewLabels`, `Len`, `Keys`, `Get`, `ID`. |
| `Groups` | group.go | `NewGroup`, `Length`, `Add`, `FilterByLabelValues`, `indexLabelValues`. |
| `Scores` | scores.go | `Score` and its `heap.Interface` methods. |
| `Results` | results.go | `NewResults`, `passed`, `Update`, `Fetch`. |
| `XCorr` | xcorr.go | `nextPowOf2`, `maxAbsIndex`, `zeroPad`, the lag remap, `xCorr`, `xCorrWithX`. |
| `Muse` | muse.go | `New`, `scoreSingle`, `Run`, the integer-score `Results` (`NewResults`, `passed`, `Fetch`), and `calculateN`. |
| `MuseBatch` | muse_batch.go | `NewBatch`, `Run`. |
| `LegacySeries` | series.go | `Keys`, `UID`, `NewSeries`, `Series.UID`, `NewGroup`, `Length`, `Add`, `FilterByLabelValues`, `IndexLabelValues`. |

How Go constructs are represented:

- **Map iteration order.** Go's map iteration order is unspecified. Wherever
  the code ranges over a map, it becomes an explicit `order` parameter, a
  duplicate-free enumeration of the keys.
- **The heap.** `container/heap` is a queue whose root is the first element
  of minimal key.
- **The numerical library.** The FFT and z-normalisation are a `Spectral`
  value of two functions. The only thing assumed about them is that they
  keep lengths.
- **Integers and reals.** Go `int` is unbounded `int`, and `float64` is
  `real`.

### Where the code's own comments and tests disagree with it (the model follows the code)

- **The store is not a top-N by magnitude.** results.go:9-10 describes
  `Results` as tracking the top scores. But `Update` compares the new
  score's magnitude with the root, and the root is the minimum by signed
  score. `Results.NotTopByMagnitude` shows a score of larger magnitude
  being rejected while a smaller one stays. The integer-score merge of
  muse.go, by contrast, compares signed scores, and `Muse.MergeIsTopN`
  proves it keeps a top-`TopN` by signed score.
- **`Fetch` order.** Both `Fetch` functions are documented as returning
  ascending order (results.go:61, muse.go:163). Both fill the result from
  its end while popping the minimum, so the scores come out non-increasing.
- **No grouping keys.** muse.go:76-78 and group.go:74-75 say that with no
  grouping keys every series is scored on its own. The code instead groups
  every member by the first visited member's key set, so members holding
  other keys can share a bucket (`Groups.IndexBucketKeys`).
- **`UID` with a nil request.** series_test.go:31-32 expects the legacy
  `UID` with a nil request to give the full identity `"a:v1,b:v3,c:v2"`.
  That is how `ID` in labels.go behaves (`Labels.IdEmptyRequestIsFull`).
  `UID` in series.go sorts and walks an empty slice, so it gives `""`
  (`LegacySeries.UidOfNoKeys`).

### Behaviours of the code that the model exhibits

- **A member of zero deviation still scores.** `xCorrWithX` returns lag 0
  and value 0 for it (xcorr.go:162-170), and `scoreSingle` still builds a
  labelled score of 0 from it (`Muse.MemberScore`).
- **An empty cohort is merged.** `scoreSingle` starts from Go's zero
  `Score{}` (muse.go:47) and sends it for a cohort with no members. The
  merge in muse.go has no nil-labels check, so with a non-positive
  threshold that zero score is stored (`Muse.EmptyCohortScoreEnters`). Only
  the `Update` of results.go skips nil labels.
- **A reference that cannot be normalised.** `New` never looks at the
  values (muse.go:23-38). `Run` reports the error (muse.go:85-88,
  `Muse.Run`).
- **The run rewrites the reference.** `zNormalize` and `floats.Scale` work
  in place on the reference's own slice (muse.go:85-89), so after a
  successful run the reference holds its normalised values times
  `1/(len-1)` (`Muse.RunWith`).

- **A repeated grouping key loses its cohort.** In group.go, a member
  grouped by `["a", "a"]` is filed under `"a:1,a:1"`. Its cohort label set
  `{a:1}` identifies as `"a:1"`, so `FilterByLabelValues` finds nothing for
  it (`Groups.RepeatedGroupKeyLosesCohort`). With duplicate-free grouping
  keys, every cohort label set leads back to a non-empty bucket
  (`Groups.IndexCohortsRoundTrip`).
- **An empty `groupBy` takes the first member's keys.** In
  `indexLabelValues`, an empty `groupBy` is overwritten by the first
  visited member's key set. Every later member is then grouped by those
  keys, not by its own (`Groups.IndexBucketKeys`).
- **A missing key repeats the previous entry.** The legacy `UID` keeps the
  last rendered entry in a variable across iterations. A requested key the
  map does not hold therefore repeats the previous entry:
  for every value `v`, `UID({a:v}, [a, b]) == "a:v,a:v"`
  (`LegacySeries.UidRepeatsStaleEntry`).
- **A missing key loses the cohort.** In the legacy index, the cohort label
  set maps the missing key to `""` and so identifies as `"a:v,b:"`. The
  member's cohort can then never be found again
  (`LegacySeries.MissingKeyLosesCohort`).

## Model

| member | source | states |
|---|---|---|
| Labels.FromMap | labels.go:20-30 | The label set built from a map holds that map, and its cached key list is strictly ascending and lists exactly the map's keys. |
| Labels.NewLabels | labels.go:20-30 | Whatever order the map iteration visits the keys in, the constructed label set has the canonical sorted key list of the map. |
| Labels.Keys | labels.go:38-40 | For a label set built by `NewLabels`, the returned keys are strictly ascending and exactly the keys of the map. |
| Labels.LenIsKeyCount | labels.go:33-40 | The number of labels equals the length of the sorted key list. |
| Labels.Get | labels.go:44-49 | The flag is true exactly when the key is present; then the value is the mapped one, otherwise it is the empty string. |
| Labels.IdArgumentAfter | labels.go:56-60 | After `ID`, the caller's non-empty key slice is a sorted permutation of what it was; an empty request is left as it was. |
| Labels.IdIsCommaJoin | labels.go:54-73 | `ID` is the comma-join of `key:value` over the requested keys present in the map, sorted, with no trailing comma; an empty request uses all the label set's keys. |
| Labels.PairsAreTerminatedEntries | labels.go:61-65 | The loop appends `key:value,` exactly for the present keys, in order. |
| Labels.TrimTerminatedIsJoin | labels.go:67-72 | Trimming the last comma of comma-terminated parts gives their comma-join. |
| Labels.IdEmptyRequestIsFull | labels.go:56-57 | An empty or nil request renders the same identity as requesting every key of the label set. |
| Labels.IdIgnoresRequestOrder | labels.go:59 | Two requests with the same keys in any order render the same identity. |
| Labels.IdDependsOnlyOnMap | labels.go:54-73 | Two label sets built over the same map render the same identity for every request. |
| Labels.IdEmptyIffNonePresent | labels.go:61-72 | A non-empty request renders the empty string exactly when none of the requested keys is present. |
| Labels.OwnIdIsJoin | labels.go:54-73 | Requesting a label set's own keys renders the comma-join of all its entries. |
| Groups.NewGroup | group.go:15-21 | A new group is named as given, has an empty registry and index and length 0, and satisfies the group invariant. |
| Groups.AddOne | group.go:32-53 | One series is accepted exactly when it has a label, its identity is not registered, and its length matches (or the group is empty); the error names the failed check, and a length mismatch reports the series' length and the group's; on success it is registered under its identity and the first member fixes the length. |
| Groups.Add | group.go:31-55 | Members registered before stay registered unchanged; without an error every series is registered under its identity; name and index are untouched. |
| Groups.AddKeepsInv | group.go:31-55 | Adding keeps the invariant: each member sits under its own full identity, has a label, and has the group's length. |
| Groups.MembersShareLength | group.go:45-51 | Under the invariant any two members have the same length, the group's `Length`. |
| Groups.AddSequential | group.go:31-55 | Adding a concatenation adds the first part and then, only if no error occurred, the second: processing stops at the first error and nothing is rolled back. |
| Groups.AddRejectsUnchanged | group.go:33-50 | A rejected series leaves the group exactly as it was and reports the error. |
| Groups.FilterByLabelValues | group.go:60-71 | Returns nothing when the identity of the label set's own keys is not indexed, and otherwise the registered members of that bucket, in bucket order. |
| Groups.Restrict | group.go:90-96 | The cohort map holds exactly the requested names the member has, with the member's values. |
| Groups.CohortIdentity | group.go:85-98 | With duplicate-free grouping keys, the cohort label set built from a member identifies as the bucket the member was filed under. |
| Groups.PresentIsCohortKeys | group.go:90-97 | The grouping keys a member holds, sorted, are exactly the keys of its cohort label set. |
| Groups.IndexLabelValues | group.go:76-104 | Reindexing leaves the registry, length and name unchanged. |
| Groups.IndexPartitionsRegistry | group.go:81-101 | After reindexing, the buckets partition the registry (every member filed exactly once, buckets non-empty), there is one cohort label set per bucket, and the index only names members. |
| Groups.IndexBucketKeys | group.go:83-100 | Every member is filed under its identity for the effective grouping keys: those given, or, when none are given, the first visited member's key set. |
| Groups.FirstVisitBucketed | group.go:84-89 | With no grouping keys, the first member is filed under its full identity and its keys become the grouping keys for the rest of the loop. |
| Groups.IndexCohortsRoundTrip | group.go:76-104 | With duplicate-free grouping keys, the cohort label sets and the buckets correspond both ways, and filtering by each label set finds a non-empty cohort. |
| Groups.CohortsFindBuckets | group.go:60-71 | When every cohort label set identifies as a non-empty bucket, filtering by it returns at least one member. |
| Groups.RepeatedGroupKeyLosesCohort | group.go:85-97 | A concrete group whose member, grouped by a repeated key, is filed under `"a:1,a:1"` while its cohort label set identifies as `"a:1"`, so filtering finds nothing. |
| Cohorts.InsertKeepsPartition | group.go:100 | Appending a new member to a bucket keeps the index a partition of the members seen so far. |
| Scores.Swap | scores.go:17-19 | Positions `i` and `j` are exchanged and every other position is unchanged. |
| Scores.SwapPermutes | scores.go:17-19 | `Swap` keeps the same scores, and swapping twice restores the slice. |
| Scores.LessIsSigned | scores.go:21-23 | `Less` orders by signed score: a score of larger magnitude can be less. |
| Scores.Push | scores.go:26-28 | The score is appended after the unchanged slice. |
| Scores.Pop | scores.go:31-35 | The last score is removed and returned; the rest, followed by it, is the slice. |
| Scores.PopAfterPush | scores.go:26-35 | `Pop` after `Push` returns the pushed score and the original slice. |
| Scores.PushAfterPop | scores.go:26-35 | `Push` of what `Pop` returned restores the slice. |
| Heaps.Root | results.go:50 | The root is a queued element with no smaller key in the queue. |
| Heaps.HeapPush | results.go:55 | The element joins the queue; nothing else changes. |
| Heaps.HeapPop | results.go:51 | The root is removed and returned; the other elements stay. |
| Heaps.HeapPopAfterPush | results.go:51-52 | Pushing an element below all others and popping returns that element and leaves the queue as it was. |
| Heaps.PopLeavesLarger | results.go:68-72 | No element left after a pop has a smaller key than the popped one. |
| Heaps.DrainStep | results.go:68-72 | Popping the root into the front of what was drained keeps the drained part non-increasing, dominated by what is still queued, and loses nothing. |
| Results.NewResults | results.go:20-32 | The store starts empty with the given lag bound, capacity and threshold, and satisfies the store invariant. |
| Results.Update | results.go:42-58 | Scores without labels or failing the filter change nothing; below capacity a passing score is added; at capacity it replaces the signed minimum exactly when its magnitude exceeds that minimum's magnitude; the settings never change. |
| Results.InvAllowsUpdate | results.go:49-50 | With capacity at least 1, the root is read only from a non-empty store. |
| Results.UpdateKeepsInv | results.go:42-58 | An update keeps the store within capacity and holding only labelled, passing scores. |
| Results.UpdateAll | results.go:42-58 | Any sequence of updates keeps the store invariant and the capacity. |
| Results.StoreBounded | results.go:42-58 | From a new store, no sequence of updates holds more than `TopN` scores or an unlabelled or failing one. |
| Results.NotTopByMagnitude | results.go:49-52 | A concrete full store that rejects a score of larger magnitude than a stored one, and evicts the negative score instead of the smaller positive one. |
| Results.MeanAbs | results.go:73 | The mean is undefined (NaN) exactly for an empty store. |
| Results.Fetch | results.go:62-74 | Returns the stored scores rearranged into non-increasing signed order, the mean magnitude of the store, and an empty store with the same settings. |
| XCorr.NextPowOf2 | xcorr.go:19-24 | 0 for a non-positive value; otherwise a power of two at least the value whose half is below it. |
| XCorr.NextPowOf2IsLeast | xcorr.go:19-24 | For a positive value, the result is the smallest power of two not below it. |
| XCorr.Pow2Spacing | xcorr.go:23 | Two distinct powers of two differ by at least a factor of two. |
| XCorr.MaxAbsIndex | xcorr.go:39-50 | The index is the first of largest magnitude; 0 for an empty input. |
| XCorr.MaxAbsIndexOfZeros | xcorr.go:39-50 | An all-zero input gives index 0. |
| XCorr.FirstMaxAbsUnique | xcorr.go:39-50 | There is only one first index of largest magnitude. |
| XCorr.ZeroPad | xcorr.go:70-80 | An input longer than `n` is returned unchanged; otherwise the result has length `n`, leading zeros, and the input as its tail. |
| XCorr.ZeroPadKeepsSignal | xcorr.go:70-80 | Whichever branch is taken, the padded signal ends with the original signal. |
| XCorr.ZeroPadIdempotent | xcorr.go:70-80 | Padding an already padded signal to the same length changes nothing. |
| XCorr.RemapLagRoundTrip | xcorr.go:148-150 | Every correlation index remaps to a lag in range, negative exactly for the upper half, and maps back to the same index. |
| XCorr.LagToIndexRoundTrip | xcorr.go:148-150 | Every lag in range comes from exactly one index, which remaps back to it. |
| XCorr.Scale | xcorr.go:139-143 | Every element is multiplied by the factor; the length is kept. |
| XCorr.Peak | xcorr.go:145-152 | The reported lag is in range and refers to the first index of largest magnitude, whose value is reported. |
| XCorr.XCorr | xcorr.go:102-153 | When normalising and either signal has zero deviation, the degenerate result (no sequence, lag 0, value 0); otherwise the correlation is the library's correlation of the two signals (normalised when asked), each zero-padded to `max(n, len x, len y)`, scaled by `1/(n(n-1))` when normalising and `1/n` otherwise; its lag is in range and points at its first peak by magnitude, with that peak's value. |
| XCorr.XCorrWithX | xcorr.go:158-187 | A signal of zero deviation gives the degenerate result; otherwise the correlation is the library's correlation of the transform's padded signal with the normalised signal zero-padded to the transform's length `n`, scaled by `1/n`; its lag is in range and points at its first peak by magnitude, with that peak's value. |
| XCorr.ScaleKeepsFirstMaxAbs | xcorr.go:139-145 | A non-zero scale factor does not move the first peak by magnitude. |
| XCorr.PeakLagIgnoresScale | xcorr.go:139-150 | The choice of non-zero scale factor changes the peak's value by that factor and leaves its lag unchanged. |
| Muse.NewResults | muse.go:148-155 | The integer-score store starts empty with the given settings and satisfies its invariant. |
| Muse.Merge | muse.go:124-133 | A failing score changes nothing (labels are not checked); below capacity a passing score is added; at capacity it replaces the root exactly when its SIGNED score is strictly greater; the settings never change. |
| Muse.MergeKeepsInv | muse.go:121-134 | A merge keeps the store within capacity and holding only passing scores. |
| Muse.MergeAll | muse.go:121-134 | The merge loop keeps the store invariant and the settings. |
| Muse.Passing | muse.go:124 | The scores that pass the filter: all pass, all are drawn from the input, and every passing input score is among them. |
| Muse.PassingIgnoresStore | muse.go:158-161 | The filter depends only on the lag bound and the threshold, not on what is stored. |
| Muse.MergeIsTopN | muse.go:121-134 | From an empty store, the merge loop keeps exactly a top-`TopN` by signed score of the passing scores: drawn from them, `min(TopN, count)` of them, and nothing left out is greater than anything kept. |
| Muse.MergeTopStep | muse.go:124-133 | One merge keeps the store a top-`TopN` of the scores that passed so far. |
| Muse.EmptyCohortScoreEnters | muse.go:121-131 | A concrete run where an empty cohort's zero score with nil labels enters the store. |
| Muse.Mean | muse.go:175 | The mean is undefined (NaN) exactly for an empty store. |
| Muse.Fetch | muse.go:164-176 | Returns the stored scores rearranged into non-increasing order, their mean signed score, and an empty store with the same settings. |
| Muse.CalculateN | muse.go:212-223 | For a non-empty reference, a power of two at least twice the reference length and at least the group length. |
| Muse.CalculateNIsLeast | muse.go:212-223 | For a non-empty reference, no smaller power of two meets both bounds. |
| Muse.PercentOf | muse.go:62 | A non-negative integer within one half of the magnitude in percent (rounded half up). |
| Muse.MemberScore | muse.go:58-63 | The score carries the member's labels and a non-negative percent; a member of zero deviation scores 0 at lag 0; otherwise the lag is in range and points at the first peak by magnitude of the member's scaled correlation with the reference, and the percent score is that peak's value in percent, rounded half up. |
| Muse.BestOf | muse.go:47-70 | The reduction over labelled candidates yields the first candidate of maximal percent score, or the zero score when there is none. |
| Muse.BestStep | muse.go:67-69 | One round of the keep rule extends the first best of a prefix to the first best of the longer sequence. |
| Muse.FirstBestUnique | muse.go:67-69 | There is only one first best candidate. |
| Muse.Candidates | muse.go:53-63 | One labelled score per cohort member, in member order. |
| Muse.ScoreSingle | muse.go:42-73 | An empty cohort gives the zero score with nil labels; otherwise the labelled score of the first member of maximal percent score. |
| Muse.FirstMismatch | muse.go:24-28 | Nothing exactly when every member visited has the reference's length; otherwise a registered member of a different length. |
| Muse.New | muse.go:23-38 | Fails exactly when some comparison member's length differs from the reference's, naming such a member; otherwise keeps the inputs and clamps the concurrency to at least 1. |
| Muse.Prepare | muse.go:89-90 | The prepared reference has length `max(n, len)`: leading zeros, then the normalised reference scaled by `1/(len-1)`. |
| Muse.CohortScores | muse.go:109-115 | One score per cohort label set, in order, each the best of the members filtered by it. |
| Muse.RunWith | muse.go:84-134 | Fails exactly when the reference cannot be normalised; otherwise the reference keeps its labels and now holds its normalised values scaled by `1/(len-1)`, the group is reindexed, and the cohort scores are merged, keeping the concurrency, the store invariant and the store settings. |
| Muse.RunScores | muse.go:93-115 | One score per cohort; with a valid group and duplicate-free grouping keys every cohort is non-empty, so every score is labelled. |
| Muse.Run | muse.go:79-136 | For a group whose members all have its recorded length: fails exactly when the reference cannot be normalised; otherwise reindexes the group and, from an empty store, leaves a top-`TopN` by signed score of the passing cohort scores. |
| MuseBatch.NewBatch | muse_batch.go:23-38 | Fails exactly when some member's length differs from the reference's, naming such a member; otherwise keeps the inputs and clamps the concurrency to at least 1. |
| MuseBatch.Run | muse_batch.go:79-136 | Fails exactly when the reference cannot be normalised; otherwise reindexes, keeps the store invariant, from an empty store leaves a top-`TopN` of the passing cohort scores, and with duplicate-free keys every merged cohort score is labelled. |
| LegacySeries.Keys | series.go:12-19 | The map's keys, strictly ascending, each once. |
| LegacySeries.UidAllPresent | series.go:21-37 | When the map holds every requested key, `UID` is the comma-join of `key:value` over the requested keys sorted. |
| LegacySeries.UidFromAllPresent | series.go:24-34 | Over held keys, the loop appends exactly one comma-terminated entry per key before the trim. |
| LegacySeries.UidIgnoresRequestOrder | series.go:23 | Two requests with the same keys in any order give the same `UID`. |
| LegacySeries.UidArgumentAfter | series.go:23 | After `UID`, the caller's slice is a sorted permutation of what it was; an already sorted slice is left as it was. |
| LegacySeries.UidOfAbsentKey | series.go:24-36 | A single requested key the map lacks gives the empty identity. |
| LegacySeries.UidOfNoKeys | series.go:21-37 | An empty request gives the empty identity. |
| LegacySeries.UidRepeatsStaleEntry | series.go:24-29 | For every value `v`, the map `{a:v}` requested by `a, b` renders `"a:v,a:v"`: the absent key repeats the previous entry. |
| LegacySeries.NewSeries | series.go:45-51 | Fails exactly for an empty label map; otherwise keeps the values and labels. |
| LegacySeries.SeriesUidIsUid | series.go:81-83 | A series' identity is `UID` over its own sorted keys. |
| LegacySeries.SeriesUidIsFullIdentity | series.go:81-83 | A series' identity is the comma-join of all its entries, and equals the full `ID` of labels.go for the same map. |
| LegacySeries.NewGroup | series.go:96-102 | A new group is named as given, with an empty registry and index and length 0, and satisfies the invariant. |
| LegacySeries.AddOne | series.go:113-135 | One series is accepted exactly when it has a label, its `UID` is not registered, and its length matches (or the group is empty); the error names the failed check, and a length mismatch reports the series' length and the group's. |
| LegacySeries.Add | series.go:112-137 | Members registered before stay registered unchanged; name and index are untouched. |
| LegacySeries.AddRegistersAll | series.go:112-137 | Without an error, every series is registered under its `UID`. |
| LegacySeries.AddKeepsInv | series.go:112-137 | Adding keeps every member under its own `UID`, labelled, and of the group's length. |
| LegacySeries.AddRejectsDuplicate | series.go:119-122 | A series whose `UID` is registered is rejected with that `UID` and the group is unchanged. |
| LegacySeries.FilterByLabelValues | series.go:141-152 | Returns nothing when the label map's `UID` over its own keys is not indexed, and otherwise the registered members of that bucket. |
| LegacySeries.CohortLabels | series.go:166-169 | The cohort label map holds every requested key, with the member's value or `""` when it has none. |
| LegacySeries.IndexLabelValues | series.go:156-177 | Reindexing leaves the registry, length and name unchanged. |
| LegacySeries.CohortLabelsIgnoreOrder | series.go:166-169 | The cohort label map depends on the requested keys only as a set. |
| LegacySeries.IndexFromIgnoresRequestOrder | series.go:162-174 | The index loop files every member alike and collects the same label maps under any arrangement of the same requested keys. |
| LegacySeries.IndexArgumentAfter | series.go:162-164 | After `IndexLabelValues`, the caller's `groupByLabels` holds the same keys, sorted once the registry holds a member, and untouched for an empty registry. |
| LegacySeries.IndexAgainAfterSort | series.go:156-177 | Reindexing with the slice the previous call left behind gives the same index and cohort label maps. |
| LegacySeries.IndexPartitionsRegistry | series.go:156-177 | The buckets partition the registry, there is one label map per bucket holding exactly the requested keys, and every member sits in the bucket of its own `UID` of the requested keys. |
| LegacySeries.MissingKeyLosesCohort | series.go:163-173 | For every value `v`, a group whose one member `{a:v}` lacks the requested key `b` files it under `"a:v,a:v"`, while its cohort label map `{a:v, b:""}` finds nothing. |

## Left out

- **Numerical library.** The FFT, `zNormalize` and `floats.Scale` are the
  gonum library and are not part of this model. They enter as the
  `Spectral` oracle, assumed only to keep lengths. Peaks, lags and
  correlation values are therefore stated relative to that oracle.
  `zNormalize` also rewrites its argument in place; the model returns a new
  sequence.
- **Floating point.** `float64` is modelled as exact `real`. The model does
  not cover rounding in sums, means or scale factors, or NaN and infinity
  beyond the named cases below.
- XCorr.NextPowOf2: computed with integers. The Go code goes through
  `math.Log` and `math.Pow`, whose rounding could differ for very large
  values.
- XCorr.ScaleFactor: a zero divisor gives Go an infinite factor. The model
  uses 0 there. Muse.ReferenceScale does the same for a one-value
  reference.
- Results.MeanAbs: NaN for an empty store is `None`.
- Muse.Mean: NaN for an empty store is `None`.
- **Concurrency.** The goroutines, the semaphore, the channels and the
  store's mutex are left out. The merge reads the channels in cohort order,
  so the run is modelled as a sequential fold. Each `Update` is one atomic
  step.
- **Heap array layout.** `container/heap` is not part of this model. The
  queue is abstracted to its contents and its root. Among equal minimal
  keys, the root is the earliest-added element, whereas the real heap may
  pick another one of equal key. `heap.Init` only reorders and is not
  modelled.
- **Map iteration order.** It is an `order` parameter. Muse.New and
  MuseBatch.NewBatch state which members can be reported, not which one
  Go's runtime picks.
- MuseBatch.Run: its one-argument `calculateN` is not part of this model.
  The padding length is a parameter, required to be at least the
  reference length and every member's length.
- Muse.Runnable: requires a non-empty reference. The model does not cover
  an empty reference, for which the normalised values are NaN.
- Muse.RunWith: requires every member to be no longer than the transform
  length `n`. A longer member is returned unpadded by `zeroPad`, and the
  FFT of the wrong length panics. `Muse.Run` meets this for every group
  whose members have its recorded length, as `Add` keeps them; the same
  requirement carries over to MuseBatch.Run.
- Muse.RunWith: the run also z-normalises each scored member's values in
  place (`xCorrWithX`, xcorr.go:162; `Values` returns the member's own
  slice, series.go:59-61). The model returns the members' values as they
  were; only the reference's rewrite is modelled. On the error path Go
  has already centred the reference's values in place; the model returns
  only the error.
- XCorr.XCorr: requires a positive padded length, since an FFT of length 0
  (`fourier.NewFFT(0)`) panics.
- Results.NewResults: requires a non-negative capacity, since `make` with a
  negative capacity panics.
- Muse.NewResults: requires a non-negative capacity, since `make` with a
  negative capacity panics.
- Muse.Run, Muse.MergeAll and Results.UpdateAll: require a capacity of at
  least 1. A full store of capacity 0 panics on the root read; see
  `Muse.CanMerge` and `Results.CanUpdate`.
- Muse.Run: the top-`TopN` property is stated for a run that starts from
  an empty store. For a store that already holds scores, only the
  invariant is stated.
- Muse.RunScores: every score is labelled only for a group built by `Add`
  and duplicate-free grouping keys. Otherwise empty cohorts can occur, as
  `Groups.RepeatedGroupKeyLosesCohort` shows.
- **Duplicate heap methods.** The `Scores` methods of muse.go
  (muse.go:188-210) are those of scores.go with an integer score. They are
  modelled once, in `Scores`.
- **Error text.** Error messages are error constructors; their text is not
  modelled.
- **Small legacy accessors.** series.go's `Length`, `Values`,
  `GetLabelValue` and `LabelValues` are plain accessors and are not
  modelled separately. `GetLabelValue` is a map lookup written as a loop.
- **group.go's `Series`.** The file defining the `Series` type that
  group.go uses is not part of this model. Only its values, labels, length
  and full-identity `UID` are modelled (`Groups.Series`).
- **Mutation of the caller's slice.** `ID` and the legacy `UID` sort the
  caller's slice in place. The model returns that effect as a value
  (`Labels.IdArgumentAfter`, `LegacySeries.UidArgumentAfter`,
  `LegacySeries.IndexArgumentAfter`) and threads it through the index loop
  of group.go. The legacy index loop is modelled with the grouping keys as
  given; `LegacySeries.IndexAgainAfterSort` shows the in-place sort changes
  none of its results. `Muse.Run` and `MuseBatch.Run` pass the caller's
  `groupByLabels` on, so the same sort reaches the caller's slice there.
- **`xCorr`'s logging** of unknown normalisation errors is not modelled.
