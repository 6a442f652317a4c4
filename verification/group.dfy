/**
 * The comparison group (group.go): a registry of series keyed by their full
 * label identity, and a per-run index that files every member under the
 * identity of its grouping keys.
 */
module Groups {
  import opened Wrappers
  import opened StringOrder
  import opened Labels
  import Cohorts

  /**
   * A labelled series of this revision. Its own file is not part of this
   * model; the group relies only on its values, its labels, `Length` and a
   * `UID` equal to the full label identity.
   */
  datatype Series = Series(y: seq<real>, labels: Labels)

  function SeriesLength(s: Series): nat {
    |s.y|
  }

  /** The series' full identity: `ID` with no requested keys. */
  function SeriesUID(s: Series): string {
    ID(s.labels, [])
  }

  datatype Group = Group(
    name: string,
    n: int,                               // length shared by every member
    index: Cohorts.Index,                 // grouping identity -> member UIDs
    registry: map<string, Series>)        // full identity -> member

  datatype AddError =
    | NoLabels
    | Duplicate(uid: string)
    | LengthMismatch(got: int, want: int)

  /** Every index entry names a registered member. */
  predicate IndexInRegistry(g: Group) {
    forall k, i :: k in g.index && 0 <= i < |g.index[k]| ==> g.index[k][i] in g.registry
  }

  /**
   * The group invariant `Add` maintains: members are filed under their own
   * full identity, carry at least one (validly cached) label, all have the
   * group's length, and the index only names members.
   */
  predicate Inv(g: Group) {
    && (forall uid :: uid in g.registry ==>
          && SeriesUID(g.registry[uid]) == uid
          && Valid(g.registry[uid].labels)
          && |Keys(g.registry[uid].labels)| > 0
          && SeriesLength(g.registry[uid]) == g.n)
    && IndexInRegistry(g)
  }

  /** `NewGroup`: an empty registry and index, length 0. */
  function NewGroup(name: string): (g: Group)
    ensures Inv(g)
    ensures g.name == name && g.registry == map[] && g.index == map[] && Length(g) == 0
  {
    Group(name, 0, map[], map[])
  }

  /** `Length`: the length shared by all members. */
  function Length(g: Group): int {
    g.n
  }

  /** One iteration of the loop in `Add`. */
  function AddOne(g: Group, s: Series): (r: Result<Group, AddError>)
    ensures r.Success? <==>
      |Keys(s.labels)| > 0 && SeriesUID(s) !in g.registry && (|g.registry| == 0 || SeriesLength(s) == g.n)
    ensures |Keys(s.labels)| == 0 ==> r == Failure(NoLabels)
    ensures |Keys(s.labels)| > 0 && SeriesUID(s) in g.registry ==> r == Failure(Duplicate(SeriesUID(s)))
    ensures |Keys(s.labels)| > 0 && SeriesUID(s) !in g.registry && |g.registry| > 0 && SeriesLength(s) != g.n ==>
      r == Failure(LengthMismatch(SeriesLength(s), g.n))
    ensures r.Success? ==>
      && r.value.registry == g.registry[SeriesUID(s) := s]
      && r.value.n == SeriesLength(s)
      && (|g.registry| > 0 ==> r.value.n == g.n)
      && r.value.name == g.name && r.value.index == g.index
  {
    if |Keys(s.labels)| == 0 then Failure(NoLabels)
    else
      var uid := SeriesUID(s);
      if uid in g.registry then Failure(Duplicate(uid))
      else if |g.registry| == 0 then Success(g.(n := SeriesLength(s), registry := g.registry[uid := s]))
      else if SeriesLength(s) != g.n then Failure(LengthMismatch(SeriesLength(s), g.n))
      else Success(g.(registry := g.registry[uid := s]))
  }

  /**
   * `Add`: register the series in order, stopping at the first error. Series
   * registered before the error stay registered.
   */
  function Add(g: Group, series: seq<Series>): (r: (Group, Option<AddError>))
    ensures forall uid :: uid in g.registry ==> uid in r.0.registry && r.0.registry[uid] == g.registry[uid]
    ensures r.1.None? ==> forall i :: 0 <= i < |series| ==> SeriesUID(series[i]) in r.0.registry
    ensures r.0.name == g.name && r.0.index == g.index
    decreases |series|
  {
    if |series| == 0 then (g, None)
    else
      match AddOne(g, series[0])
      case Failure(e) => (g, Some(e))
      case Success(g') =>
        var r := Add(g', series[1..]);
        assert forall i :: 1 <= i < |series| ==> series[i] == series[1..][i - 1];
        r
  }

  /** A series whose labels were built by `NewLabels`. */
  predicate WellBuilt(s: Series) {
    Valid(s.labels)
  }

  /** `Add` keeps the group invariant: identities unique, one shared length. */
  lemma {:induction false} AddKeepsInv(g: Group, series: seq<Series>)
    requires Inv(g)
    requires forall i :: 0 <= i < |series| ==> WellBuilt(series[i])
    ensures Inv(Add(g, series).0)
    decreases |series|
  {
    if |series| > 0 {
      var s := series[0];
      match AddOne(g, s)
      case Failure(_) =>
      case Success(g') =>
        assert SeriesUID(s) == ID(s.labels, []);
        assert Inv(g');
        AddKeepsInv(g', series[1..]);
    }
  }

  /** Once `Inv` holds, any two members have the same length. */
  lemma MembersShareLength(g: Group, u1: string, u2: string)
    requires Inv(g)
    requires u1 in g.registry && u2 in g.registry
    ensures SeriesLength(g.registry[u1]) == SeriesLength(g.registry[u2]) == Length(g)
  {
  }

  /**
   * `Add` of a concatenation is `Add` of the first part, then — only if that
   * succeeded — `Add` of the rest: processing stops at the first error with
   * no rollback.
   */
  lemma {:induction false} AddSequential(g: Group, a: seq<Series>, b: seq<Series>)
    ensures Add(g, a + b) ==
      (var (g1, e1) := Add(g, a); if e1.Some? then (g1, e1) else Add(g1, b))
    decreases |a|
  {
    if |a| == 0 {
      assert a + b == b;
    } else {
      assert (a + b)[0] == a[0];
      assert (a + b)[1..] == a[1..] + b;
      match AddOne(g, a[0])
      case Failure(e) =>
        assert Add(g, a + b) == (g, Some(e));
        assert Add(g, a) == (g, Some(e));
      case Success(g') =>
        assert Add(g, a + b) == Add(g', a[1..] + b);
        assert Add(g, a) == Add(g', a[1..]);
        AddSequential(g', a[1..], b);
    }
  }

  /** A rejected series leaves the group exactly as it was. */
  lemma AddRejectsUnchanged(g: Group, s: Series)
    requires AddOne(g, s).Failure?
    ensures Add(g, [s]) == (g, Some(AddOne(g, s).error))
  {
  }

  // ----- FilterByLabelValues -----

  /** `FilterByLabelValues`: the members filed under the identity of `lv`'s own keys. */
  function FilterByLabelValues(g: Group, lv: Labels): (r: seq<Series>)
    requires IndexInRegistry(g)
    ensures ID(lv, Keys(lv)) !in g.index ==> r == []
    ensures ID(lv, Keys(lv)) in g.index ==>
      var bucket := g.index[ID(lv, Keys(lv))];
      |r| == |bucket| && forall i :: 0 <= i < |r| ==> r[i] == g.registry[bucket[i]]
  {
    var guid := ID(lv, Keys(lv));
    if guid in g.index then
      var bucket := g.index[guid];
      seq(|bucket|, i requires 0 <= i < |bucket| => g.registry[bucket[i]])
    else []
  }

  // ----- indexLabelValues -----

  /** The label map restricted to `names` (absent names are skipped). */
  function Restrict(l: Labels, names: seq<string>): (m: LabelMap)
    ensures forall k :: k in m <==> k in names && k in l.labels
    ensures forall k :: k in m ==> m[k] == l.labels[k]
  {
    map k | k in names && k in l.labels :: l.labels[k]
  }

  /** The identity `FilterByLabelValues` files a cohort label set under. */
  function CohortID(d: Labels): string {
    ID(d, Keys(d))
  }

  /**
   * The cohort label set built from a member (its labels restricted to the
   * grouping keys) has, as its own identity, the bucket the member was filed
   * under — provided no grouping key is repeated.
   */
  lemma CohortIdentity(l: Labels, groupBy: seq<string>, names: seq<string>)
    requires |groupBy| > 0 && Distinct(groupBy)
    requires multiset(names) == multiset(groupBy)
    ensures CohortID(FromMap(Restrict(l, names))) == ID(l, groupBy)
  {
    var d := FromMap(Restrict(l, names));
    var p := Present(l, Sort(groupBy));
    PresentIsCohortKeys(l, groupBy, names);
    OwnIdIsJoin(d);
    IdIsCommaJoin(l, groupBy);
    EntriesAgree(l, d, p);
  }

  /** The requested keys a member holds, sorted, are exactly its cohort label set's keys. */
  lemma PresentIsCohortKeys(l: Labels, groupBy: seq<string>, names: seq<string>)
    requires Distinct(groupBy)
    requires multiset(names) == multiset(groupBy)
    ensures Present(l, Sort(groupBy)) == Keys(FromMap(Restrict(l, names)))
  {
    var d := FromMap(Restrict(l, names));
    var sorted := Sort(groupBy);
    DistinctByMultiset(groupBy, sorted);
    PresentKeepsStrictlySorted(l, sorted);
    var p := Present(l, sorted);
    CohortKeysPresent(l, sorted, names);
    PresentCohortKeys(l, sorted, names);
    SortedEnumerationUnique(p, d.labels.Keys);
  }

  lemma CohortKeysPresent(l: Labels, sorted: seq<string>, names: seq<string>)
    requires multiset(names) == multiset(sorted)
    ensures forall k :: k in Restrict(l, names) ==> k in Present(l, sorted)
  {
    forall k | k in Restrict(l, names) ensures k in Present(l, sorted) {
      assert k in multiset(sorted);
      var i :| 0 <= i < |sorted| && sorted[i] == k;
    }
  }

  lemma PresentCohortKeys(l: Labels, sorted: seq<string>, names: seq<string>)
    requires multiset(names) == multiset(sorted)
    ensures forall i :: 0 <= i < |Present(l, sorted)| ==> Present(l, sorted)[i] in Restrict(l, names)
  {
    var p := Present(l, sorted);
    forall i | 0 <= i < |p| ensures p[i] in Restrict(l, names) {
      assert p[i] in p;
      assert p[i] in multiset(names);
    }
  }

  /** The state threaded through the loop of `indexLabelValues`. */
  datatype IndexState = IndexState(
    index: Cohorts.Index,        // the index built so far
    distinct: seq<Labels>,       // one label set per bucket, in creation order
    groupBy: seq<string>)        // the current value of the `groupByLabels` variable

  /** The bucket a member is filed under, given the current grouping keys. */
  function GroupKey(uid: string, s: Series, groupBy: seq<string>): string {
    if |groupBy| != 0 then ID(s.labels, groupBy) else uid
  }

  /**
   * The grouping keys after visiting `s`: `ID` sorts a non-empty slice in
   * place, and an empty one is overwritten with the member's own keys.
   */
  function NextGroupBy(s: Series, groupBy: seq<string>): seq<string> {
    if |groupBy| != 0 then IdArgumentAfter(groupBy) else Keys(s.labels)
  }

  /** One iteration of the loop of `indexLabelValues`, visiting member `uid`. */
  function Visit(st: IndexState, uid: string, s: Series): IndexState {
    var guid := GroupKey(uid, s, st.groupBy);
    var keys := NextGroupBy(s, st.groupBy);
    var distinct := if guid in st.index then st.distinct else st.distinct + [FromMap(Restrict(s.labels, keys))];
    IndexState(Cohorts.Insert(st.index, guid, uid), distinct, keys)
  }

  /** The loop of `indexLabelValues` over the members in iteration order `order`. */
  function IndexFrom(registry: map<string, Series>, order: seq<string>, st: IndexState): IndexState
    requires forall i :: 0 <= i < |order| ==> order[i] in registry
    decreases |order|
  {
    if |order| == 0 then st
    else IndexFrom(registry, order[1..], Visit(st, order[0], registry[order[0]]))
  }

  /**
   * `indexLabelValues`: discard the old index and rebuild it, visiting the
   * registry in `order` (Go's map iteration order, which is unspecified);
   * returns the group with its new index and one label set per cohort.
   */
  function IndexLabelValues(g: Group, groupBy: seq<string>, order: seq<string>): (r: (Group, seq<Labels>))
    requires Enumerates(order, g.registry.Keys)
    ensures r.0.registry == g.registry && r.0.n == g.n && r.0.name == g.name
  {
    var st := IndexFrom(g.registry, order, IndexState(map[], [], groupBy));
    (g.(index := st.index), st.distinct)
  }

  /** The grouping keys every member ends up keyed by: the first member's keys when none are given. */
  function EffectiveKeys(g: Group, groupBy: seq<string>, order: seq<string>): seq<string>
    requires |order| > 0 ==> order[0] in g.registry
  {
    if |groupBy| > 0 || |order| == 0 then groupBy else Keys(g.registry[order[0]].labels)
  }

  function SetOf(s: seq<string>): set<string> {
    set x | x in s
  }

  lemma {:induction false} IndexFromPartitions(registry: map<string, Series>, order: seq<string>,
                                               st: IndexState, done: set<string>)
    requires forall i :: 0 <= i < |order| ==> order[i] in registry && order[i] !in done
    requires Distinct(order)
    requires Cohorts.Partitions(st.index, done)
    requires |st.distinct| == |st.index|
    ensures Cohorts.Partitions(IndexFrom(registry, order, st).index, done + SetOf(order))
    ensures |IndexFrom(registry, order, st).distinct| == |IndexFrom(registry, order, st).index|
    decreases |order|
  {
    if |order| == 0 {
      SetOfEmpty(done, order);
    } else {
      var uid := order[0];
      VisitFiles(st, uid, registry[uid], done);
      TailFresh(registry, order, done);
      IndexFromPartitions(registry, order[1..], Visit(st, uid, registry[uid]), done + {uid});
      SetOfCons(done, order);
    }
  }

  lemma SetOfCons(done: set<string>, s: seq<string>)
    requires |s| > 0
    ensures done + SetOf(s) == (done + {s[0]}) + SetOf(s[1..])
  {
    assert s == [s[0]] + s[1..];
  }

  lemma SetOfEmpty(done: set<string>, s: seq<string>)
    requires |s| == 0
    ensures done + SetOf(s) == done
  {
    assert SetOf(s) == {};
  }

  /** A duplicate-free enumeration of `keys` has exactly `keys` as its set. */
  lemma SetOfEnumeration(order: seq<string>, keys: set<string>)
    requires Enumerates(order, keys)
    ensures {} + SetOf(order) == keys
  {
    assert SetOf(order) == keys;
  }

  lemma TailRegistered<V>(registry: map<string, V>, order: seq<string>)
    requires |order| > 0
    requires forall i :: 0 <= i < |order| ==> order[i] in registry
    ensures forall i :: 0 <= i < |order[1..]| ==> order[1..][i] in registry
  {
    forall i | 0 <= i < |order[1..]| ensures order[1..][i] in registry {
      assert order[1..][i] == order[i + 1];
    }
  }

  /** After the first member, the rest of the visiting order is registered, unvisited and duplicate-free. */
  lemma TailFresh<V>(registry: map<string, V>, order: seq<string>, done: set<string>)
    requires |order| > 0
    requires forall i :: 0 <= i < |order| ==> order[i] in registry && order[i] !in done
    requires Distinct(order)
    ensures forall i :: 0 <= i < |order[1..]| ==> order[1..][i] in registry && order[1..][i] !in done + {order[0]}
    ensures Distinct(order[1..])
  {
    var rest := order[1..];
    forall i | 0 <= i < |rest| ensures rest[i] in registry && rest[i] !in done + {order[0]} {
      assert rest[i] == order[i + 1];
    }
    forall i, j | 0 <= i < j < |rest| ensures rest[i] != rest[j] {
      assert rest[i] == order[i + 1] && rest[j] == order[j + 1];
    }
  }

  /** One visit files the member and keeps one label set per bucket. */
  lemma VisitFiles(st: IndexState, uid: string, s: Series, done: set<string>)
    requires Cohorts.Partitions(st.index, done)
    requires uid !in done
    requires |st.distinct| == |st.index|
    ensures Cohorts.Partitions(Visit(st, uid, s).index, done + {uid})
    ensures |Visit(st, uid, s).distinct| == |Visit(st, uid, s).index|
  {
    var guid := GroupKey(uid, s, st.groupBy);
    assert Visit(st, uid, s).index == Cohorts.Insert(st.index, guid, uid);
    Cohorts.InsertKeepsPartition(st.index, done, guid, uid);
  }

  /**
   * After `indexLabelValues` the buckets partition the registry: every
   * member is filed exactly once, and there is one cohort label set per
   * bucket.
   */
  lemma IndexPartitionsRegistry(g: Group, groupBy: seq<string>, order: seq<string>)
    requires Enumerates(order, g.registry.Keys)
    ensures var (g', distinct) := IndexLabelValues(g, groupBy, order);
      && Cohorts.Partitions(g'.index, g.registry.Keys)
      && |distinct| == |g'.index|
      && IndexInRegistry(g')
  {
    IndexFromPartitions(g.registry, order, IndexState(map[], [], groupBy), {});
    SetOfEnumeration(order, g.registry.Keys);
  }

  /** Every member filed under `index` sits in the bucket `ID(labels, keys)`. */
  predicate BucketedBy(registry: map<string, Series>, index: Cohorts.Index, keys: seq<string>) {
    forall guid, i :: guid in index && 0 <= i < |index[guid]| && index[guid][i] in registry ==>
      guid == ID(registry[index[guid][i]].labels, keys)
  }

  lemma InsertKeepsBucketed(registry: map<string, Series>, index: Cohorts.Index, keys: seq<string>, uid: string)
    requires BucketedBy(registry, index, keys)
    requires uid in registry
    ensures BucketedBy(registry, Cohorts.Insert(index, ID(registry[uid].labels, keys), uid), keys)
  {
    var guid := ID(registry[uid].labels, keys);
    var r := Cohorts.Insert(index, guid, uid);
    forall k, i | k in r && 0 <= i < |r[k]| && r[k][i] in registry
      ensures k == ID(registry[r[k][i]].labels, keys)
    {
      if k == guid && i < |Cohorts.Lookup(index, guid)| {
        assert r[k][i] == index[k][i];
      }
    }
  }

  lemma {:induction false} IndexFromBucketed(registry: map<string, Series>, order: seq<string>,
                                             st: IndexState, keys: seq<string>)
    requires forall i :: 0 <= i < |order| ==> order[i] in registry
    requires |st.groupBy| > 0 && multiset(st.groupBy) == multiset(keys)
    requires BucketedBy(registry, st.index, keys)
    ensures BucketedBy(registry, IndexFrom(registry, order, st).index, keys)
    decreases |order|
  {
    if |order| > 0 {
      var uid := order[0];
      var s := registry[uid];
      IdIgnoresRequestOrder(s.labels, st.groupBy, keys);
      InsertKeepsBucketed(registry, st.index, keys, uid);
      IndexFromBucketed(registry, order[1..], Visit(st, uid, s), keys);
    }
  }

  /**
   * Every member is filed under the identity of the effective grouping keys.
   * With grouping keys given, that is `ID(labels, groupBy)`. With none given,
   * the first member visited is filed under its full identity and the loop
   * then overwrites the grouping keys with that member's key set, so every
   * later member is keyed by the FIRST member's keys, not by its own.
   */
  lemma IndexBucketKeys(g: Group, groupBy: seq<string>, order: seq<string>)
    requires Inv(g)
    requires Enumerates(order, g.registry.Keys)
    ensures var g' := IndexLabelValues(g, groupBy, order).0;
      IndexInRegistry(g') && BucketedBy(g.registry, g'.index, EffectiveKeys(g, groupBy, order))
  {
    IndexPartitionsRegistry(g, groupBy, order);
    var st0 := IndexState(map[], [], groupBy);
    if |groupBy| > 0 {
      IndexFromBucketed(g.registry, order, st0, groupBy);
    } else if |order| > 0 {
      FirstVisitBucketed(g.registry, order, st0);
    }
  }

  /** With no grouping keys, the first visit files its member under its own identity and fixes the keys. */
  lemma FirstVisitBucketed(registry: map<string, Series>, order: seq<string>, st0: IndexState)
    requires |order| > 0 && forall i :: 0 <= i < |order| ==> order[i] in registry
    requires st0 == IndexState(map[], [], [])
    requires SeriesUID(registry[order[0]]) == order[0]
    requires Valid(registry[order[0]].labels) && |Keys(registry[order[0]].labels)| > 0
    ensures BucketedBy(registry, IndexFrom(registry, order, st0).index, Keys(registry[order[0]].labels))
  {
    var uid := order[0];
    var keys := Keys(registry[uid].labels);
    var st1 := Visit(st0, uid, registry[uid]);
    FirstVisit(registry, uid);
    TailRegistered(registry, order);
    IndexFromBucketed(registry, order[1..], st1, keys);
    assert IndexFrom(registry, order, st0) == IndexFrom(registry, order[1..], st1);
  }

  /** The first visit with no grouping keys files its member alone under its own identity. */
  lemma FirstVisit(registry: map<string, Series>, uid: string)
    requires uid in registry && SeriesUID(registry[uid]) == uid
    requires Valid(registry[uid].labels) && |Keys(registry[uid].labels)| > 0
    ensures var st1 := Visit(IndexState(map[], [], []), uid, registry[uid]);
      && st1.index == map[uid := [uid]]
      && st1.groupBy == Keys(registry[uid].labels)
      && BucketedBy(registry, st1.index, st1.groupBy)
  {
    var s := registry[uid];
    IdEmptyRequestIsFull(s.labels);
    var st1 := Visit(IndexState(map[], [], []), uid, s);
    assert GroupKey(uid, s, []) == uid;
    assert Cohorts.Lookup(map[], uid) + [uid] == [uid];
    assert st1.index == map[uid := [uid]];
  }

  /**
   * The cohort label sets and the index agree: every label set's identity is
   * a bucket, and every bucket is some label set's identity.
   */
  predicate CohortsMatch(index: Cohorts.Index, distinct: seq<Labels>) {
    && (forall i :: 0 <= i < |distinct| ==> CohortID(distinct[i]) in index)
    && (forall k :: k in index ==> exists i :: 0 <= i < |distinct| && CohortID(distinct[i]) == k)
  }

  lemma VisitKeepsCohorts(st: IndexState, uid: string, s: Series)
    requires CohortsMatch(st.index, st.distinct)
    requires |st.groupBy| > 0 && Distinct(st.groupBy)
    ensures var next := Visit(st, uid, s);
      CohortsMatch(next.index, next.distinct) && |next.groupBy| > 0 && Distinct(next.groupBy)
  {
    var next := Visit(st, uid, s);
    var guid := ID(s.labels, st.groupBy);
    DistinctByMultiset(st.groupBy, next.groupBy);
    assert next.index == Cohorts.Insert(st.index, guid, uid);
    if guid in st.index {
      assert next.distinct == st.distinct;
      RefileCohort(st.index, st.distinct, guid, uid);
    } else {
      var d := FromMap(Restrict(s.labels, next.groupBy));
      assert next.distinct == st.distinct + [d];
      CohortIdentity(s.labels, st.groupBy, next.groupBy);
      AppendCohort(st.index, st.distinct, guid, uid, d);
    }
  }

  /** Filing under a new bucket together with its label set keeps the two in step. */
  lemma AppendCohort(index: Cohorts.Index, distinct: seq<Labels>, guid: string, uid: string, d: Labels)
    requires CohortsMatch(index, distinct)
    requires CohortID(d) == guid
    ensures CohortsMatch(Cohorts.Insert(index, guid, uid), distinct + [d])
  {
    AppendCohortCovered(index, distinct, guid, uid, d);
    AppendCohortOnly(index, distinct, guid, uid, d);
  }

  /** After appending, every label set's identity is still a bucket. */
  lemma AppendCohortCovered(index: Cohorts.Index, distinct: seq<Labels>, guid: string, uid: string, d: Labels)
    requires forall i :: 0 <= i < |distinct| ==> CohortID(distinct[i]) in index
    requires CohortID(d) == guid
    ensures var r := Cohorts.Insert(index, guid, uid);
      forall i :: 0 <= i < |distinct + [d]| ==> CohortID((distinct + [d])[i]) in r
  {
    var r := Cohorts.Insert(index, guid, uid);
    var ds := distinct + [d];
    forall i | 0 <= i < |ds| ensures CohortID(ds[i]) in r {
      if i < |distinct| {
        assert ds[i] == distinct[i];
      }
    }
  }

  /** After appending, every bucket is still some label set's identity. */
  lemma AppendCohortOnly(index: Cohorts.Index, distinct: seq<Labels>, guid: string, uid: string, d: Labels)
    requires forall k :: k in index ==> exists i :: 0 <= i < |distinct| && CohortID(distinct[i]) == k
    requires CohortID(d) == guid
    ensures var r := Cohorts.Insert(index, guid, uid);
      forall k :: k in r ==> exists i :: 0 <= i < |distinct + [d]| && CohortID((distinct + [d])[i]) == k
  {
    var r := Cohorts.Insert(index, guid, uid);
    var ds := distinct + [d];
    forall k | k in r ensures exists i :: 0 <= i < |ds| && CohortID(ds[i]) == k {
      if k == guid {
        assert CohortID(ds[|distinct|]) == k;
      } else {
        var i :| 0 <= i < |distinct| && CohortID(distinct[i]) == k;
        assert ds[i] == distinct[i];
      }
    }
  }

  /** Filing under an existing bucket keeps the label sets in step. */
  lemma RefileCohort(index: Cohorts.Index, distinct: seq<Labels>, guid: string, uid: string)
    requires CohortsMatch(index, distinct)
    requires guid in index
    ensures CohortsMatch(Cohorts.Insert(index, guid, uid), distinct)
  {
  }

  lemma {:induction false} IndexFromCohorts(registry: map<string, Series>, order: seq<string>, st: IndexState)
    requires forall i :: 0 <= i < |order| ==> order[i] in registry
    requires CohortsMatch(st.index, st.distinct)
    requires |st.groupBy| > 0 && Distinct(st.groupBy)
    ensures var r := IndexFrom(registry, order, st); CohortsMatch(r.index, r.distinct)
    decreases |order|
  {
    if |order| > 0 {
      var next := Visit(st, order[0], registry[order[0]]);
      VisitKeepsCohorts(st, order[0], registry[order[0]]);
      TailRegistered(registry, order);
      IndexFromCohorts(registry, order[1..], next);
      assert IndexFrom(registry, order, st) == IndexFrom(registry, order[1..], next);
    }
  }

  /** With no grouping keys, the first member's cohort is its full identity. */
  lemma FirstVisitCohorts(uid: string, s: Series)
    requires SeriesUID(s) == uid
    requires Valid(s.labels) && |Keys(s.labels)| > 0
    ensures var next := Visit(IndexState(map[], [], []), uid, s);
      CohortsMatch(next.index, next.distinct) && |next.groupBy| > 0 && Distinct(next.groupBy)
  {
    var st0 := IndexState(map[], [], []);
    var next := Visit(st0, uid, s);
    var keys := Keys(s.labels);
    var d := FromMap(Restrict(s.labels, keys));
    IdEmptyRequestIsFull(s.labels);
    CohortIdentity(s.labels, keys, keys);
    assert GroupKey(uid, s, []) == uid;
    assert next.groupBy == keys;
    assert next.index == Cohorts.Insert(map[], uid, uid);
    assert next.distinct == [] + [d];
    AppendCohort(map[], [], uid, uid, d);
  }

  /**
   * After `indexLabelValues` with duplicate-free grouping keys, the returned
   * label sets are exactly the cohorts of the index: `FilterByLabelValues` on
   * each finds a non-empty bucket, and every bucket is reached by one of them.
   */
  lemma IndexCohortsRoundTrip(g: Group, groupBy: seq<string>, order: seq<string>)
    requires Inv(g)
    requires Enumerates(order, g.registry.Keys)
    requires Distinct(groupBy)
    ensures var (g', distinct) := IndexLabelValues(g, groupBy, order);
      && CohortsMatch(g'.index, distinct)
      && IndexInRegistry(g')
      && forall i :: 0 <= i < |distinct| ==> |FilterByLabelValues(g', distinct[i])| > 0
  {
    var r := IndexFrom(g.registry, order, IndexState(map[], [], groupBy));
    var g' := g.(index := r.index);
    assert IndexLabelValues(g, groupBy, order) == (g', r.distinct);
    IndexPartitionsRegistry(g, groupBy, order);
    assert IndexInRegistry(g');
    assert forall k :: k in g'.index ==> |g'.index[k]| > 0;
    LoopCohortsMatch(g, groupBy, order);
    CohortsFindBuckets(g', r.distinct);
  }

  lemma LoopCohortsMatch(g: Group, groupBy: seq<string>, order: seq<string>)
    requires Inv(g)
    requires Enumerates(order, g.registry.Keys)
    requires Distinct(groupBy)
    ensures var r := IndexFrom(g.registry, order, IndexState(map[], [], groupBy));
      CohortsMatch(r.index, r.distinct)
  {
    var st0 := IndexState(map[], [], groupBy);
    if |groupBy| > 0 {
      IndexFromCohorts(g.registry, order, st0);
    } else if |order| > 0 {
      var uid := order[0];
      var st1 := Visit(st0, uid, g.registry[uid]);
      FirstVisitCohorts(uid, g.registry[uid]);
      IndexFromCohorts(g.registry, order[1..], st1);
      assert IndexFrom(g.registry, order, st0) == IndexFrom(g.registry, order[1..], st1);
    }
  }

  /** Each cohort label set of a matching index leads `FilterByLabelValues` to a non-empty bucket. */
  lemma CohortsFindBuckets(g: Group, distinct: seq<Labels>)
    requires IndexInRegistry(g)
    requires CohortsMatch(g.index, distinct)
    requires forall k :: k in g.index ==> |g.index[k]| > 0
    ensures forall i :: 0 <= i < |distinct| ==> |FilterByLabelValues(g, distinct[i])| > 0
  {
    forall i | 0 <= i < |distinct| ensures |FilterByLabelValues(g, distinct[i])| > 0 {
      assert CohortID(distinct[i]) in g.index;
    }
  }

  /**
   * A repeated grouping key breaks the round trip: the member is filed under
   * `"a:1,a:1"`, while its cohort label set `{a:1}` identifies as `"a:1"`, so
   * `FilterByLabelValues` finds nothing for it.
   */
  lemma RepeatedGroupKeyLosesCohort()
    ensures var l := FromMap(map["a" := "1"]);
      var g := Group("g", 1, map[], map["a:1" := Series([0.0], l)]);
      var (g', distinct) := IndexLabelValues(g, ["a", "a"], ["a:1"]);
      && g'.index == map["a:1,a:1" := ["a:1"]]
      && |distinct| == 1 && CohortID(distinct[0]) == "a:1"
      && FilterByLabelValues(g', distinct[0]) == []
  {
    var l := FromMap(map["a" := "1"]);
    RepeatedKeyIdentities();
    var g := Group("g", 1, map[], map["a:1" := Series([0.0], l)]);
    var st0 := IndexState(map[], [], ["a", "a"]);
    var st1 := Visit(st0, "a:1", Series([0.0], l));
    assert GroupKey("a:1", Series([0.0], l), st0.groupBy) == "a:1,a:1";
    assert Cohorts.Lookup(st0.index, "a:1,a:1") + ["a:1"] == ["a:1"];
    assert st1.index == map["a:1,a:1" := ["a:1"]];
    assert NextGroupBy(Series([0.0], l), st0.groupBy) == ["a", "a"];
    assert st1.distinct == [l];
    assert IndexFrom(g.registry, ["a:1"], st0) == IndexFrom(g.registry, [], st1) == st1;
    var g' := g.(index := st1.index);
    assert IndexLabelValues(g, ["a", "a"], ["a:1"]) == (g', [l]);
    assert FilterByLabelValues(g', l) == [];
  }

  lemma RepeatedKeyIdentities()
    ensures var l := FromMap(map["a" := "1"]);
      && Sort(["a", "a"]) == ["a", "a"]
      && ID(l, ["a", "a"]) == "a:1,a:1"
      && FromMap(Restrict(l, ["a", "a"])) == l
      && CohortID(l) == "a:1"
  {
    SingleLabel();
    SortRepeatedKey();
    IdOfRepeatedKey();
    CohortIdOfSingleLabel();
    RestrictRepeatedKey();
  }

  /** The label set `{a:1}` lists its one key. */
  lemma SingleLabel()
    ensures FromMap(map["a" := "1"]) == Labels(map["a" := "1"], ["a"])
  {
    SortedEnumerationUnique(["a"], {"a"});
  }

  lemma SortRepeatedKey()
    ensures Sort(["a", "a"]) == ["a", "a"]
  {
    LessEqReflexive("a");
    SortOfSorted(["a", "a"]);
  }

  lemma IdOfRepeatedKey()
    ensures ID(Labels(map["a" := "1"], ["a"]), ["a", "a"]) == "a:1,a:1"
  {
    var l := Labels(map["a" := "1"], ["a"]);
    SortRepeatedKey();
    assert Pairs(l, ["a"]) == "a:1,";
    assert Pairs(l, ["a", "a"]) == "a:1," + Pairs(l, ["a"]);
  }

  lemma CohortIdOfSingleLabel()
    ensures CohortID(Labels(map["a" := "1"], ["a"])) == "a:1"
  {
    var l := Labels(map["a" := "1"], ["a"]);
    assert Pairs(l, ["a"]) == "a:1,";
  }

  lemma RestrictRepeatedKey()
    ensures Restrict(Labels(map["a" := "1"], ["a"]), ["a", "a"]) == map["a" := "1"]
  {
  }
}
