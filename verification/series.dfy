/**
 * The earlier revision of labels, series and groups (series.go). Labels are
 * a plain map; identities come from `UID`, which walks the requested keys in
 * sorted order and, for a key the map does not hold, appends the entry of
 * the previous present key again; the cohort index groups members by `UID`
 * of the requested keys.
 */
module LegacySeries {
  import opened Wrappers
  import opened StringOrder
  import Labels
  import Groups
  import Cohorts

  type LabelMap = map<string, string>

  // ----- Labels -----

  /** `Labels.Keys`: the map's keys in ascending byte-wise order. */
  function Keys(l: LabelMap): (r: seq<string>)
    ensures StrictlySorted(r) && Enumerates(r, l.Keys)
    ensures |r| == |l|
  {
    SortedSeqOf(l.Keys)
  }

  /**
   * The loop of `UID` from the given keys on, then the trim: `acc` is the
   * string built so far and `lv` the last rendered entry, which is appended
   * again for a key the map does not hold.
   */
  function UidFrom(l: LabelMap, keys: seq<string>, lv: string, acc: string): string {
    if |keys| == 0 then Labels.TrimComma(acc)
    else
      var lv' := if keys[0] in l then Labels.Entry(keys[0], l[keys[0]]) + "," else lv;
      UidFrom(l, keys[1..], lv', acc + lv')
  }

  /** `UID`: walk the requested keys in sorted order and drop the trailing comma. */
  function UID(l: LabelMap, request: seq<string>): string {
    UidFrom(l, Sort(request), "", "")
  }

  /**
   * What `UID` leaves in the caller's slice: `sort.Strings` sorts it in
   * place, so afterwards it holds the same keys in ascending order, and an
   * already sorted slice is left as it was.
   */
  function UidArgumentAfter(request: seq<string>): (r: seq<string>)
    ensures Sorted(r) && multiset(r) == multiset(request)
    ensures Sorted(request) ==> r == request
  {
    var r := Sort(request);
    if Sorted(request) then SortedUnique(r, request); r else r
  }

  /** The label set `Entries` of the new revision reads: the same map. */
  function AsLabels(l: LabelMap): Labels.Labels {
    Labels.FromMap(l)
  }

  lemma {:induction false} UidFromAllPresent(l: LabelMap, keys: seq<string>, lv: string, acc: string)
    requires forall i :: 0 <= i < |keys| ==> keys[i] in l
    ensures UidFrom(l, keys, lv, acc) == Labels.TrimComma(acc + Labels.Terminated(Labels.Entries(AsLabels(l), keys)))
    decreases |keys|
  {
    if |keys| == 0 {
      assert acc + "" == acc;
    } else {
      var lv' := Labels.Entry(keys[0], l[keys[0]]) + ",";
      UidFromAllPresent(l, keys[1..], lv', acc + lv');
      var rest := Labels.Terminated(Labels.Entries(AsLabels(l), keys[1..]));
      TerminatedEntriesCons(AsLabels(l), keys);
      assert acc + lv' + rest == acc + (lv' + rest);
    }
  }

  /** The rendering of the first entry followed by the rendering of the rest. */
  lemma TerminatedEntriesCons(l: Labels.Labels, keys: seq<string>)
    requires |keys| > 0 && forall i :: 0 <= i < |keys| ==> keys[i] in l.labels
    ensures Labels.Terminated(Labels.Entries(l, keys))
      == Labels.Entry(keys[0], l.labels[keys[0]]) + "," + Labels.Terminated(Labels.Entries(l, keys[1..]))
  {
    var e := Labels.Entries(l, keys);
    assert e[1..] == Labels.Entries(l, keys[1..]);
  }

  /**
   * When the map holds every requested key, `UID` is the comma-join of
   * `key:value` over the requested keys in sorted order.
   */
  lemma UidAllPresent(l: LabelMap, request: seq<string>)
    requires forall i :: 0 <= i < |request| ==> request[i] in l
    ensures forall i :: 0 <= i < |Sort(request)| ==> Sort(request)[i] in l
    ensures UID(l, request) == Labels.JoinComma(Labels.Entries(AsLabels(l), Sort(request)))
  {
    var sorted := Sort(request);
    forall i | 0 <= i < |sorted| ensures sorted[i] in l {
      assert sorted[i] in multiset(request);
    }
    UidFromAllPresent(l, sorted, "", "");
    var t := Labels.Terminated(Labels.Entries(AsLabels(l), sorted));
    assert "" + t == t;
    Labels.TrimTerminatedIsJoin(Labels.Entries(AsLabels(l), sorted));
  }

  /** `UID` does not depend on the order in which keys are requested. */
  lemma UidIgnoresRequestOrder(l: LabelMap, a: seq<string>, b: seq<string>)
    requires multiset(a) == multiset(b)
    ensures UID(l, a) == UID(l, b)
  {
    SortIgnoresOrder(a, b);
  }

  /** A single requested key the map does not hold gives the empty identity. */
  lemma UidOfAbsentKey(l: LabelMap, k: string)
    requires k !in l
    ensures UID(l, [k]) == ""
  {
    assert Sort([k]) == [k];
    assert UidFrom(l, [k], "", "") == UidFrom(l, [], "", "");
  }

  /** An empty request gives the empty identity: the loop never runs. */
  lemma UidOfNoKeys(l: LabelMap)
    ensures UID(l, []) == ""
  {
  }

  /**
   * An absent key repeats the previous entry: with `a` present and `b`
   * absent, requesting both renders `a` twice.
   */
  lemma UidRepeatsStaleEntry(v: string)
    ensures UID(map["a" := v], ["a", "b"]) == "a:" + v + ",a:" + v
  {
    var l := map["a" := v];
    var e := Labels.Entry("a", v) + ",";
    var x := "a:" + v + ",a:" + v;
    TwoKeysSorted();
    assert UidFrom(l, ["a", "b"], "", "") == UidFrom(l, ["b"], e, "" + e);
    assert UidFrom(l, ["b"], e, "" + e) == UidFrom(l, [], e, "" + e + e);
    assert "" + e + e == x + ",";
    TrimTerminated(x);
  }

  /** Trimming removes exactly the one comma appended. */
  lemma TrimTerminated(x: string)
    ensures Labels.TrimComma(x + ",") == x
  {
    assert (x + ",")[..|x|] == x;
  }

  /** `["a", "b"]` is already sorted. */
  lemma TwoKeysSorted()
    ensures Sort(["a", "b"]) == ["a", "b"]
    ensures SortedSeqOf({"a", "b"}) == ["a", "b"]
  {
    assert Less("a", "b") by {
      assert LessEq("a", "b");
      assert "a" != "b";
    }
    assert StrictlySorted(["a", "b"]);
    SortOfSorted(["a", "b"]);
    SortedEnumerationUnique(["a", "b"], {"a", "b"});
  }

  // ----- Series -----

  /** A series of this revision: values and a plain label map. */
  datatype Series = Series(y: seq<real>, labels: LabelMap)

  datatype SeriesError = NoLabelMap

  /** `NewSeries`: a series needs at least one label. */
  function NewSeries(y: seq<real>, labels: LabelMap): (r: Result<Series, SeriesError>)
    ensures r.Failure? <==> |labels| == 0
    ensures r.Success? ==> r.value.y == y && r.value.labels == labels
  {
    if |labels| == 0 then Failure(NoLabelMap) else Success(Series(y, labels))
  }

  /**
   * `Series.UID`: `UID` over all of the series' own keys. The keys are
   * already sorted, so the loop runs on them directly (`SeriesUidIsUid`).
   */
  function SeriesUID(s: Series): string {
    UidFrom(s.labels, Keys(s.labels), "", "")
  }

  lemma SeriesUidIsUid(s: Series)
    ensures SeriesUID(s) == UID(s.labels, Keys(s.labels))
  {
    StrictlySortedIsSorted(Keys(s.labels));
    SortOfSorted(Keys(s.labels));
  }

  /**
   * A series' identity is the comma-join of all its entries in sorted key
   * order, and equals the full identity `ID` of the same map in labels.go.
   */
  lemma SeriesUidIsFullIdentity(s: Series)
    ensures SeriesUID(s) == Labels.JoinComma(Labels.Entries(AsLabels(s.labels), Keys(s.labels)))
    ensures SeriesUID(s) == Labels.ID(Labels.FromMap(s.labels), [])
  {
    var keys := Keys(s.labels);
    var d := Labels.FromMap(s.labels);
    SeriesUidIsUid(s);
    UidAllPresent(s.labels, keys);
    StrictlySortedIsSorted(keys);
    SortOfSorted(keys);
    Labels.IdEmptyRequestIsFull(d);
    Labels.OwnIdIsJoin(d);
    SortedEnumerationUnique(d.keys, s.labels.Keys);
  }

  // ----- Group -----

  datatype Group = Group(
    name: string,
    n: int,                               // length shared by every member
    index: Cohorts.Index,                 // grouping identity -> member UIDs
    registry: map<string, Series>)        // UID -> member

  /** Every index entry names a registered member. */
  predicate IndexInRegistry(g: Group) {
    forall k, i :: k in g.index && 0 <= i < |g.index[k]| ==> g.index[k][i] in g.registry
  }

  /** Members are filed under their own UID, carry a label, and share the group's length. */
  predicate MembersValid(g: Group) {
    forall uid :: uid in g.registry ==>
      && SeriesUID(g.registry[uid]) == uid
      && |g.registry[uid].labels| > 0
      && |g.registry[uid].y| == g.n
  }

  /** The group's invariant: valid members, and an index that names only members. */
  predicate Inv(g: Group) {
    MembersValid(g) && IndexInRegistry(g)
  }

  /** `NewGroup`: an empty registry and index, length 0. */
  function NewGroup(name: string): (g: Group)
    ensures Inv(g)
    ensures g.name == name && g.registry == map[] && g.index == map[] && Length(g) == 0
  {
    Group(name, 0, map[], map[])
  }

  /** `Length`: the length shared by all members. */
  function Length(g: Group): int {
    g.n
  }

  /** One iteration of the loop in `Add`. */
  function AddOne(g: Group, s: Series): (r: Result<Group, Groups.AddError>)
    ensures r.Success? <==>
      |s.labels| > 0 && SeriesUID(s) !in g.registry && (|g.registry| == 0 || |s.y| == g.n)
    ensures |s.labels| == 0 ==> r == Failure(Groups.NoLabels)
    ensures |s.labels| > 0 && SeriesUID(s) in g.registry ==> r == Failure(Groups.Duplicate(SeriesUID(s)))
    ensures |s.labels| > 0 && SeriesUID(s) !in g.registry && |g.registry| > 0 && |s.y| != g.n ==>
      r == Failure(Groups.LengthMismatch(|s.y|, g.n))
    ensures r.Success? ==>
      && r.value.registry == g.registry[SeriesUID(s) := s]
      && r.value.n == |s.y|
      && (|g.registry| > 0 ==> r.value.n == g.n)
      && r.value.name == g.name && r.value.index == g.index
  {
    if |Keys(s.labels)| == 0 then Failure(Groups.NoLabels)
    else
      var uid := SeriesUID(s);
      if uid in g.registry then Failure(Groups.Duplicate(uid))
      else if |g.registry| == 0 then Success(g.(n := |s.y|, registry := g.registry[uid := s]))
      else if |s.y| != g.n then Failure(Groups.LengthMismatch(|s.y|, g.n))
      else Success(g.(registry := g.registry[uid := s]))
  }

  /**
   * `Add`: register the series in order, stopping at the first error. Series
   * registered before the error stay registered.
   */
  function Add(g: Group, series: seq<Series>): (r: (Group, Option<Groups.AddError>))
    ensures forall uid :: uid in g.registry ==> uid in r.0.registry && r.0.registry[uid] == g.registry[uid]
    ensures r.0.name == g.name && r.0.index == g.index
    decreases |series|
  {
    if |series| == 0 then (g, None)
    else
      match AddOne(g, series[0])
      case Failure(e) => (g, Some(e))
      case Success(g') => Add(g', series[1..])
  }

  /** Without an error, every series ends up registered under its UID. */
  lemma {:induction false} AddRegistersAll(g: Group, series: seq<Series>)
    ensures var r := Add(g, series);
      r.1.None? ==> forall i :: 0 <= i < |series| ==> SeriesUID(series[i]) in r.0.registry
    decreases |series|
  {
    if |series| > 0 {
      match AddOne(g, series[0])
      case Failure(_) =>
      case Success(g') =>
        var rest := series[1..];
        var r := Add(g', rest);
        assert Add(g, series) == r;
        AddRegistersAll(g', rest);
        if r.1.None? {
          forall i | 0 <= i < |series| ensures SeriesUID(series[i]) in r.0.registry {
            if i == 0 {
              assert SeriesUID(series[0]) in g'.registry;
            } else {
              assert series[i] == rest[i - 1];
            }
          }
        }
    }
  }

  /** `Add` keeps the group invariant: UIDs unique, one shared length. */
  lemma {:induction false} AddKeepsInv(g: Group, series: seq<Series>)
    requires Inv(g)
    ensures Inv(Add(g, series).0)
    decreases |series|
  {
    if |series| > 0 {
      match AddOne(g, series[0])
      case Failure(_) =>
      case Success(g') =>
        AddOneKeepsInv(g, series[0]);
        AddKeepsInv(g', series[1..]);
    }
  }

  lemma AddOneKeepsInv(g: Group, s: Series)
    requires Inv(g)
    requires AddOne(g, s).Success?
    ensures Inv(AddOne(g, s).value)
  {
    RegisterKeepsInv(g, AddOne(g, s).value, s, SeriesUID(s));
  }

  /** Registering a labelled series of the right length under its own `UID` keeps the invariant. */
  lemma RegisterKeepsInv(g: Group, g': Group, s: Series, uid: string)
    requires Inv(g)
    requires uid == SeriesUID(s) && |s.labels| > 0 && |s.y| == g'.n
    requires g'.registry == g.registry[uid := s] && g'.index == g.index
    requires |g.registry| > 0 ==> g'.n == g.n
    ensures Inv(g')
  {
    RegisterKeepsMembers(g, g', s, uid);
    RegisterKeepsIndex(g, g', s, uid);
  }

  lemma RegisterKeepsMembers(g: Group, g': Group, s: Series, uid: string)
    requires MembersValid(g)
    requires uid == SeriesUID(s) && |s.labels| > 0 && |s.y| == g'.n
    requires g'.registry == g.registry[uid := s]
    requires |g.registry| > 0 ==> g'.n == g.n
    ensures MembersValid(g')
  {
    forall u | u in g'.registry
      ensures SeriesUID(g'.registry[u]) == u && |g'.registry[u].labels| > 0 && |g'.registry[u].y| == g'.n
    {
      if u != uid {
        assert g'.registry[u] == g.registry[u];
      }
    }
  }

  lemma RegisterKeepsIndex(g: Group, g': Group, s: Series, uid: string)
    requires IndexInRegistry(g)
    requires g'.registry == g.registry[uid := s] && g'.index == g.index
    ensures IndexInRegistry(g')
  {
  }

  /** A series whose UID is already registered is rejected and the group is unchanged. */
  lemma AddRejectsDuplicate(g: Group, s: Series)
    requires |s.labels| > 0 && SeriesUID(s) in g.registry
    ensures Add(g, [s]) == (g, Some(Groups.Duplicate(SeriesUID(s))))
  {
  }

  // ----- FilterByLabelValues -----

  /** `FilterByLabelValues`: the members filed under `UID` of all of `l`'s keys. */
  function FilterByLabelValues(g: Group, l: LabelMap): (r: seq<Series>)
    requires IndexInRegistry(g)
    ensures UID(l, Keys(l)) !in g.index ==> r == []
    ensures UID(l, Keys(l)) in g.index ==>
      var bucket := g.index[UID(l, Keys(l))];
      |r| == |bucket| && forall i :: 0 <= i < |r| ==> r[i] == g.registry[bucket[i]]
  {
    var guid := UID(l, Keys(l));
    if guid in g.index then
      var bucket := g.index[guid];
      seq(|bucket|, i requires 0 <= i < |bucket| => g.registry[bucket[i]])
    else []
  }

  // ----- IndexLabelValues -----

  /** A cohort's label set: every requested key, mapped to the member's value or to "" when it has none. */
  function CohortLabels(l: LabelMap, names: seq<string>): (lv: LabelMap)
    ensures lv.Keys == Groups.SetOf(names)
    ensures forall k :: k in lv ==> lv[k] == if k in l then l[k] else ""
  {
    map k | k in names :: if k in l then l[k] else ""
  }

  /** The state threaded through the loop of `IndexLabelValues`. */
  datatype IndexState = IndexState(index: Cohorts.Index, distinct: seq<LabelMap>)

  /** One iteration of the loop, visiting member `uid`. */
  function Visit(st: IndexState, groupBy: seq<string>, uid: string, s: Series): IndexState {
    var guid := UID(s.labels, groupBy);
    var distinct := if guid in st.index then st.distinct else st.distinct + [CohortLabels(s.labels, groupBy)];
    IndexState(Cohorts.Insert(st.index, guid, uid), distinct)
  }

  /** The loop over the members in iteration order `order`. */
  function IndexFrom(registry: map<string, Series>, groupBy: seq<string>, order: seq<string>, st: IndexState): IndexState
    requires forall i :: 0 <= i < |order| ==> order[i] in registry
    decreases |order|
  {
    if |order| == 0 then st
    else IndexFrom(registry, groupBy, order[1..], Visit(st, groupBy, order[0], registry[order[0]]))
  }

  /**
   * `IndexLabelValues`: discard the old index and rebuild it, visiting the
   * registry in `order` (Go's unspecified map iteration order); returns the
   * group with its new index and one label set per cohort.
   */
  function IndexLabelValues(g: Group, groupBy: seq<string>, order: seq<string>): (r: (Group, seq<LabelMap>))
    requires Enumerates(order, g.registry.Keys)
    ensures r.0.registry == g.registry && r.0.n == g.n && r.0.name == g.name
  {
    var st := IndexFrom(g.registry, groupBy, order, IndexState(map[], []));
    (g.(index := st.index), st.distinct)
  }

  /** A cohort's label set depends on the requested keys only as a set. */
  lemma CohortLabelsIgnoreOrder(l: LabelMap, a: seq<string>, b: seq<string>)
    requires multiset(a) == multiset(b)
    ensures CohortLabels(l, a) == CohortLabels(l, b)
  {
    forall k ensures k in a <==> k in b {
      assert k in a <==> k in multiset(a);
      assert k in b <==> k in multiset(b);
    }
  }

  /** The loop visits alike under any arrangement of the same requested keys. */
  lemma {:induction false} IndexFromIgnoresRequestOrder(
    registry: map<string, Series>, a: seq<string>, b: seq<string>, order: seq<string>, st: IndexState)
    requires forall i :: 0 <= i < |order| ==> order[i] in registry
    requires multiset(a) == multiset(b)
    ensures IndexFrom(registry, a, order, st) == IndexFrom(registry, b, order, st)
    decreases |order|
  {
    if |order| > 0 {
      var s := registry[order[0]];
      UidIgnoresRequestOrder(s.labels, a, b);
      CohortLabelsIgnoreOrder(s.labels, a, b);
      assert Visit(st, a, order[0], s) == Visit(st, b, order[0], s);
      IndexFromIgnoresRequestOrder(registry, a, b, order[1..], Visit(st, a, order[0], s));
    }
  }

  /**
   * What `IndexLabelValues` leaves in the caller's `groupByLabels`: every
   * member's `UID` call sorts it in place, so it is sorted once the registry
   * holds a member and untouched otherwise.
   */
  function IndexArgumentAfter(g: Group, groupBy: seq<string>): (r: seq<string>)
    ensures multiset(r) == multiset(groupBy)
    ensures |g.registry| > 0 ==> Sorted(r)
    ensures |g.registry| == 0 ==> r == groupBy
  {
    if |g.registry| == 0 then groupBy else UidArgumentAfter(groupBy)
  }

  /**
   * Reindexing with the slice `IndexLabelValues` left behind gives the same
   * index and cohorts: the in-place sort changes no later result.
   */
  lemma IndexAgainAfterSort(g: Group, groupBy: seq<string>, order: seq<string>)
    requires Enumerates(order, g.registry.Keys)
    ensures IndexLabelValues(g, IndexArgumentAfter(g, groupBy), order) == IndexLabelValues(g, groupBy, order)
  {
    IndexFromIgnoresRequestOrder(g.registry, IndexArgumentAfter(g, groupBy), groupBy, order, IndexState(map[], []));
  }

  /** Every member's bucket: its `UID` of the requested keys. */
  function Guids(registry: map<string, Series>, groupBy: seq<string>): (key: map<string, string>)
    ensures key.Keys == registry.Keys
    ensures forall u :: u in key ==> key[u] == UID(registry[u].labels, groupBy)
  {
    map u | u in registry :: UID(registry[u].labels, groupBy)
  }

  /**
   * The fold keeps its state well formed: the buckets partition the members
   * visited, there is one label set per bucket, each label set holds exactly
   * the requested keys, and every member sits in the bucket of its own `UID`
   * of the requested keys.
   */
  predicate Filed(key: map<string, string>, groupBy: seq<string>, st: IndexState, done: set<string>) {
    && Cohorts.Partitions(st.index, done)
    && |st.distinct| == |st.index|
    && (forall i :: 0 <= i < |st.distinct| ==> st.distinct[i].Keys == Groups.SetOf(groupBy))
    && Cohorts.KeyedBy(st.index, key)
  }

  lemma VisitFiles(registry: map<string, Series>, groupBy: seq<string>, st: IndexState, uid: string, done: set<string>)
    requires uid in registry && uid !in done
    requires Filed(Guids(registry, groupBy), groupBy, st, done)
    ensures Filed(Guids(registry, groupBy), groupBy, Visit(st, groupBy, uid, registry[uid]), done + {uid})
  {
    var key := Guids(registry, groupBy);
    VisitKeepsPartition(st, groupBy, uid, registry[uid], done);
    VisitKeepsKeys(st, groupBy, uid, registry[uid]);
    VisitKeepsKeyed(st, groupBy, uid, registry[uid], key);
  }

  lemma VisitKeepsPartition(st: IndexState, groupBy: seq<string>, uid: string, s: Series, done: set<string>)
    requires Cohorts.Partitions(st.index, done) && |st.distinct| == |st.index|
    requires uid !in done
    ensures var st' := Visit(st, groupBy, uid, s);
      Cohorts.Partitions(st'.index, done + {uid}) && |st'.distinct| == |st'.index|
  {
    Cohorts.InsertKeepsPartition(st.index, done, UID(s.labels, groupBy), uid);
  }

  lemma VisitKeepsKeys(st: IndexState, groupBy: seq<string>, uid: string, s: Series)
    requires forall i :: 0 <= i < |st.distinct| ==> st.distinct[i].Keys == Groups.SetOf(groupBy)
    ensures var st' := Visit(st, groupBy, uid, s);
      forall i :: 0 <= i < |st'.distinct| ==> st'.distinct[i].Keys == Groups.SetOf(groupBy)
  {
  }

  lemma VisitKeepsKeyed(st: IndexState, groupBy: seq<string>, uid: string, s: Series, key: map<string, string>)
    requires Cohorts.KeyedBy(st.index, key)
    requires uid in key && key[uid] == UID(s.labels, groupBy)
    ensures Cohorts.KeyedBy(Visit(st, groupBy, uid, s).index, key)
  {
    Cohorts.InsertKeepsKeyed(st.index, key, uid);
  }

  lemma {:induction false} IndexFromFiles(registry: map<string, Series>, groupBy: seq<string>, order: seq<string>,
                                          st: IndexState, done: set<string>)
    requires forall i :: 0 <= i < |order| ==> order[i] in registry && order[i] !in done
    requires Distinct(order)
    requires Filed(Guids(registry, groupBy), groupBy, st, done)
    ensures Filed(Guids(registry, groupBy), groupBy, IndexFrom(registry, groupBy, order, st), done + Groups.SetOf(order))
    decreases |order|
  {
    if |order| == 0 {
      Groups.SetOfEmpty(done, order);
    } else {
      var uid := order[0];
      VisitFiles(registry, groupBy, st, uid, done);
      Groups.TailFresh(registry, order, done);
      IndexFromFiles(registry, groupBy, order[1..], Visit(st, groupBy, uid, registry[uid]), done + {uid});
      Groups.SetOfCons(done, order);
    }
  }

  /**
   * After `IndexLabelValues` the buckets partition the registry, there is
   * one label set per bucket, every label set holds exactly the requested
   * keys, and every member is filed under its own `UID` of those keys.
   */
  lemma IndexPartitionsRegistry(g: Group, groupBy: seq<string>, order: seq<string>)
    requires Enumerates(order, g.registry.Keys)
    ensures var (g', distinct) := IndexLabelValues(g, groupBy, order);
      && Cohorts.Partitions(g'.index, g.registry.Keys)
      && |distinct| == |g'.index|
      && IndexInRegistry(g')
      && (forall i :: 0 <= i < |distinct| ==> distinct[i].Keys == Groups.SetOf(groupBy))
      && (forall guid, i :: guid in g'.index && 0 <= i < |g'.index[guid]| ==>
            UID(g.registry[g'.index[guid][i]].labels, groupBy) == guid)
  {
    var key := Guids(g.registry, groupBy);
    var st := IndexFrom(g.registry, groupBy, order, IndexState(map[], []));
    IndexFiled(g, groupBy, order);
    assert Filed(key, groupBy, st, g.registry.Keys);
    forall guid, i | guid in st.index && 0 <= i < |st.index[guid]|
      ensures UID(g.registry[st.index[guid][i]].labels, groupBy) == guid
    {
      assert st.index[guid][i] in key;
    }
  }

  /** The whole loop, from the empty index, files every member of the registry. */
  lemma IndexFiled(g: Group, groupBy: seq<string>, order: seq<string>)
    requires Enumerates(order, g.registry.Keys)
    ensures Filed(Guids(g.registry, groupBy), groupBy, IndexFrom(g.registry, groupBy, order, IndexState(map[], [])), g.registry.Keys)
  {
    FiledEmpty(Guids(g.registry, groupBy), groupBy);
    IndexFromFiles(g.registry, groupBy, order, IndexState(map[], []), {});
    Groups.SetOfEnumeration(order, g.registry.Keys);
  }

  lemma FiledEmpty(key: map<string, string>, groupBy: seq<string>)
    ensures Filed(key, groupBy, IndexState(map[], []), {})
  {
  }

  /**
   * With a member lacking a requested key, its cohort's label set does not
   * lead back to its bucket: a member `{a:v}` grouped by `a` and `b` is filed
   * under "a:v,a:v", while its label set `{a:v, b:""}` renders "a:v,b:", so
   * `FilterByLabelValues` on it finds nothing.
   */
  lemma MissingKeyLosesCohort(v: string)
    ensures var s := Series([0.0], map["a" := v]);
      var g := Group("g", 1, map[], map[SeriesUID(s) := s]);
      var (g', distinct) := IndexLabelValues(g, ["a", "b"], [SeriesUID(s)]);
      && g'.index == map["a:" + v + ",a:" + v := [SeriesUID(s)]]
      && distinct == [map["a" := v, "b" := ""]]
      && FilterByLabelValues(g', distinct[0]) == []
  {
    var s := Series([0.0], map["a" := v]);
    var uid := SeriesUID(s);
    var gb := ["a", "b"];
    var st := Visit(IndexState(map[], []), gb, uid, s);
    VisitMissingKey(uid, v);
    assert IndexFrom(map[uid := s], gb, [uid], IndexState(map[], [])) == IndexFrom(map[uid := s], gb, [], st);
    MissingKeyIdentity(v);
    StaleDiffersFromCohort(v);
  }

  /** Visiting the member files it under "a:v,a:v" and records `{a:v, b:""}`. */
  lemma VisitMissingKey(uid: string, v: string)
    ensures Visit(IndexState(map[], []), ["a", "b"], uid, Series([0.0], map["a" := v]))
      == IndexState(map["a:" + v + ",a:" + v := [uid]], [map["a" := v, "b" := ""]])
  {
    var guid := "a:" + v + ",a:" + v;
    UidRepeatsStaleEntry(v);
    var idx := Cohorts.Insert(map[], guid, uid);
    assert idx.Keys == {guid} && idx[guid] == [uid];
    assert idx == map[guid := [uid]];
    assert CohortLabels(map["a" := v], ["a", "b"]) == map["a" := v, "b" := ""];
  }

  /** The cohort label set `{a:v, b:""}` renders as "a:v,b:". */
  lemma MissingKeyIdentity(v: string)
    ensures UID(map["a" := v, "b" := ""], Keys(map["a" := v, "b" := ""])) == "a:" + v + ",b:"
  {
    TwoKeysOf(v);
    TwoKeysSorted();
    UidFromCohort(v);
  }

  lemma TwoKeysOf(v: string)
    ensures Keys(map["a" := v, "b" := ""]) == ["a", "b"]
  {
    assert map["a" := v, "b" := ""].Keys == {"a", "b"};
    TwoKeysSorted();
  }

  /** The walk over `a`, `b` renders both entries, the empty value included. */
  lemma UidFromCohort(v: string)
    ensures UidFrom(map["a" := v, "b" := ""], ["a", "b"], "", "") == "a:" + v + ",b:"
  {
    var d := map["a" := v, "b" := ""];
    var e := Labels.Entry("a", v) + ",";
    var x := "a:" + v + ",b:";
    assert UidFrom(d, ["a", "b"], "", "") == UidFrom(d, ["b"], e, "" + e);
    assert UidFrom(d, ["b"], e, "" + e) == UidFrom(d, [], "b:,", "" + e + "b:,");
    assert "" + e + "b:," == x + ",";
    TrimTerminated(x);
  }

  /** The bucket and the cohort's identity differ right after the first entry. */
  lemma StaleDiffersFromCohort(v: string)
    ensures "a:" + v + ",a:" + v != "a:" + v + ",b:"
  {
    var k := |v| + 3;
    assert ("a:" + v + ",a:" + v)[k] == 'a';
    assert ("a:" + v + ",b:")[k] == 'b';
  }
}
