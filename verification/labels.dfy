/**
 * Label sets and their canonical identity string (labels.go).
 *
 * A `Labels` value pairs the label map with the key list `NewLabels` caches
 * at construction. `ID` renders the requested keys, sorted, as
 * `"k1:v1,k2:v2"`, skipping keys the map does not hold.
 */
module Labels {
  import opened StringOrder

  type LabelMap = map<string, string>

  /** Go's `Labels` struct: the map and its cached sorted key list. */
  datatype Labels = Labels(labels: LabelMap, keys: seq<string>)

  /** What `NewLabels` establishes: the cached keys are the map's keys, strictly ascending. */
  predicate Valid(l: Labels) {
    StrictlySorted(l.keys) && Enumerates(l.keys, l.labels.Keys)
  }

  /** The label set `NewLabels(m)` returns, as a value. */
  function FromMap(m: LabelMap): (l: Labels)
    ensures Valid(l)
    ensures l.labels == m
  {
    Labels(m, SortedSeqOf(m.Keys))
  }

  /**
   * `NewLabels`: collect the map's keys in Go's (unspecified) map iteration
   * order, then sort them. Whatever order the iteration picks, the result is
   * the canonical `FromMap(m)`.
   */
  method NewLabels(m: LabelMap) returns (l: Labels)
    ensures Valid(l)
    ensures l.labels == m
    ensures l == FromMap(m)
  {
    var keys: seq<string> := [];
    var rest := m.Keys;
    while rest != {}
      invariant rest <= m.Keys
      invariant Enumerates(keys, m.Keys - rest)
      decreases |rest|
    {
      var k :| k in rest;
      keys := keys + [k];
      rest := rest - {k};
    }
    assert m.Keys - rest == m.Keys;
    var sorted := Sort(keys);
    var canonical := SortedSeqOf(m.Keys);
    DistinctMultiset(keys, m.Keys);
    DistinctMultiset(canonical, m.Keys);
    SortedUnique(sorted, canonical);
    l := Labels(m, sorted);
  }

  /** `Len`: the number of labels. */
  function Len(l: Labels): nat {
    |l.labels|
  }

  /** `Keys`: the cached key list. */
  function Keys(l: Labels): (r: seq<string>)
    ensures Valid(l) ==> StrictlySorted(r) && Enumerates(r, l.labels.Keys)
  {
    l.keys
  }

  /** The label count agrees with the length of the sorted key list. */
  lemma LenIsKeyCount(l: Labels)
    requires Valid(l)
    ensures Len(l) == |Keys(l)|
  {
    DistinctMultiset(l.keys, l.labels.Keys);
    assert |multiset(l.keys)| == |multiset(l.labels.Keys)|;
  }

  /** `Get`: the value under `key` and whether it exists; `""` when absent. */
  function Get(l: Labels, key: string): (r: (string, bool))
    ensures r.1 <==> key in l.labels
    ensures r.1 ==> r.0 == l.labels[key]
    ensures !r.1 ==> r.0 == ""
  {
    if key in l.labels then (l.labels[key], true) else ("", false)
  }

  /** One rendered label, `key:value`. */
  function Entry(key: string, value: string): string {
    key + ":" + value
  }

  /** The loop of `ID`: `key:value,` appended for every present key, in order. */
  function Pairs(l: Labels, keys: seq<string>): string {
    if |keys| == 0 then ""
    else
      var (v, ok) := Get(l, keys[0]);
      (if ok then Entry(keys[0], v) + "," else "") + Pairs(l, keys[1..])
  }

  /** Drop one trailing comma, if there is one. */
  function TrimComma(s: string): string {
    if |s| > 0 && s[|s| - 1] == ',' then s[..|s| - 1] else s
  }

  /** The keys `ID` walks: all keys for an empty request, else the request sorted. */
  function IdKeys(l: Labels, request: seq<string>): seq<string> {
    if |request| == 0 then Keys(l) else Sort(request)
  }

  /** `ID`: the identity string of the requested keys (all keys when none are requested). */
  function ID(l: Labels, request: seq<string>): string {
    TrimComma(Pairs(l, IdKeys(l, request)))
  }

  /**
   * The caller's key slice after `ID` returns: `sort.Strings` sorts it in
   * place; an empty request only rebinds the local variable.
   */
  function IdArgumentAfter(request: seq<string>): (r: seq<string>)
    ensures |request| == 0 ==> r == request
    ensures Sorted(r) && multiset(r) == multiset(request)
  {
    if |request| == 0 then request else Sort(request)
  }

  // ----- The reference rendering: a comma-join of the present entries -----

  /** The requested keys the label map holds, in the order given. */
  function Present(l: Labels, keys: seq<string>): (r: seq<string>)
    ensures forall i :: 0 <= i < |r| ==> r[i] in l.labels
    ensures forall i :: 0 <= i < |keys| && keys[i] in l.labels ==> keys[i] in r
    ensures forall k :: k in r ==> k in keys
  {
    if |keys| == 0 then []
    else if keys[0] in l.labels then [keys[0]] + Present(l, keys[1..])
    else Present(l, keys[1..])
  }

  /** `key:value` for every key of `keys`, all of which the map holds. */
  function Entries(l: Labels, keys: seq<string>): (r: seq<string>)
    requires forall i :: 0 <= i < |keys| ==> keys[i] in l.labels
    ensures |r| == |keys|
    ensures forall i :: 0 <= i < |r| ==> r[i] == Entry(keys[i], l.labels[keys[i]])
  {
    if |keys| == 0 then [] else [Entry(keys[0], l.labels[keys[0]])] + Entries(l, keys[1..])
  }

  /** The parts separated by single commas, with no trailing comma. */
  function JoinComma(parts: seq<string>): string {
    if |parts| == 0 then ""
    else if |parts| == 1 then parts[0]
    else parts[0] + "," + JoinComma(parts[1..])
  }

  /** Every part followed by a comma. */
  function Terminated(parts: seq<string>): string {
    if |parts| == 0 then "" else parts[0] + "," + Terminated(parts[1..])
  }

  lemma {:induction false} PairsAreTerminatedEntries(l: Labels, keys: seq<string>)
    ensures Pairs(l, keys) == Terminated(Entries(l, Present(l, keys)))
  {
    if |keys| > 0 {
      PairsAreTerminatedEntries(l, keys[1..]);
      if keys[0] in l.labels {
        var p := Present(l, keys);
        assert p == [keys[0]] + Present(l, keys[1..]);
        assert Entries(l, p)[1..] == Entries(l, Present(l, keys[1..]));
      }
    }
  }

  lemma {:induction false} TrimTerminatedIsJoin(parts: seq<string>)
    ensures TrimComma(Terminated(parts)) == JoinComma(parts)
  {
    if |parts| == 1 {
      assert Terminated(parts) == parts[0] + ",";
    } else if |parts| > 1 {
      TrimTerminatedIsJoin(parts[1..]);
      var t := Terminated(parts[1..]);
      assert |t| > 0 && t[|t| - 1] == ',' by {
        assert t == parts[1] + "," + Terminated(parts[2..]);
        TerminatedEndsInComma(parts[2..]);
      }
      assert Terminated(parts) == (parts[0] + ",") + t;
      assert (parts[0] + "," + t)[..|parts[0] + "," + t| - 1] == parts[0] + "," + t[..|t| - 1];
    }
  }

  lemma {:induction false} TerminatedEndsInComma(parts: seq<string>)
    ensures |Terminated(parts)| > 0 ==> Terminated(parts)[|Terminated(parts)| - 1] == ','
  {
    if |parts| > 0 {
      TerminatedEndsInComma(parts[1..]);
    }
  }

  /**
   * `ID` is the comma-join of `key:value` over the present requested keys in
   * sorted order (all keys when the request is empty), with no trailing comma.
   */
  lemma IdIsCommaJoin(l: Labels, request: seq<string>)
    ensures |request| > 0 ==> ID(l, request) == JoinComma(Entries(l, Present(l, Sort(request))))
    ensures |request| == 0 ==> ID(l, request) == JoinComma(Entries(l, Present(l, Keys(l))))
  {
    PairsAreTerminatedEntries(l, IdKeys(l, request));
    TrimTerminatedIsJoin(Entries(l, Present(l, IdKeys(l, request))));
  }

  /** The keys of a valid label set are all present. */
  lemma PresentOfOwnKeys(l: Labels)
    requires Valid(l)
    ensures Present(l, Keys(l)) == Keys(l)
  {
    PresentOfHeldKeys(l, l.keys);
  }

  lemma {:induction false} PresentOfHeldKeys(l: Labels, keys: seq<string>)
    requires forall i :: 0 <= i < |keys| ==> keys[i] in l.labels
    ensures Present(l, keys) == keys
  {
    if |keys| > 0 {
      PresentOfHeldKeys(l, keys[1..]);
    }
  }

  /** An empty (or nil) request renders the full identity: the same as requesting every key. */
  lemma IdEmptyRequestIsFull(l: Labels)
    requires Valid(l)
    ensures ID(l, []) == ID(l, Keys(l))
  {
    if |l.keys| > 0 {
      StrictlySortedIsSorted(l.keys);
      SortOfSorted(l.keys);
    }
  }

  /** The identity does not depend on the order in which keys are requested. */
  lemma IdIgnoresRequestOrder(l: Labels, a: seq<string>, b: seq<string>)
    requires multiset(a) == multiset(b)
    ensures ID(l, a) == ID(l, b)
  {
    assert |a| == |multiset(a)| == |b|;
    SortIgnoresOrder(a, b);
  }

  /** Two valid label sets over the same map render the same identities. */
  lemma IdDependsOnlyOnMap(l1: Labels, l2: Labels, request: seq<string>)
    requires Valid(l1) && Valid(l2)
    requires l1.labels == l2.labels
    ensures ID(l1, request) == ID(l2, request)
  {
    SortedEnumerationUnique(l1.keys, l1.labels.Keys);
    SortedEnumerationUnique(l2.keys, l2.labels.Keys);
    assert l1 == l2;
  }

  lemma {:induction false} JoinEmptyIff(parts: seq<string>)
    requires forall i :: 0 <= i < |parts| ==> |parts[i]| > 0
    ensures JoinComma(parts) == "" <==> |parts| == 0
  {
    if |parts| > 1 {
      assert |JoinComma(parts)| >= |parts[0]|;
    }
  }

  lemma {:induction false} PresentEmptyIff(l: Labels, keys: seq<string>)
    ensures Present(l, keys) == [] <==> forall i :: 0 <= i < |keys| ==> keys[i] !in l.labels
  {
    if |keys| > 0 {
      PresentEmptyIff(l, keys[1..]);
      assert forall i :: 1 <= i < |keys| ==> keys[i] == keys[1..][i - 1];
    }
  }

  lemma SomePresentInPermutation(l: Labels, a: seq<string>, b: seq<string>)
    requires multiset(a) == multiset(b)
    requires exists i :: 0 <= i < |a| && a[i] in l.labels
    ensures exists j :: 0 <= j < |b| && b[j] in l.labels
  {
    var i :| 0 <= i < |a| && a[i] in l.labels;
    assert a[i] in multiset(b);
    var j :| 0 <= j < |b| && b[j] == a[i];
  }

  /**
   * A non-empty request renders `""` exactly when none of the requested keys
   * is present: absent keys are skipped, present ones always show.
   */
  lemma IdEmptyIffNonePresent(l: Labels, request: seq<string>)
    requires |request| > 0
    ensures ID(l, request) == "" <==> forall i :: 0 <= i < |request| ==> request[i] !in l.labels
  {
    IdIsCommaJoin(l, request);
    var sorted := Sort(request);
    var p := Present(l, sorted);
    var es := Entries(l, p);
    assert forall i :: 0 <= i < |es| ==> |es[i]| > 0 by {
      forall i | 0 <= i < |es| ensures |es[i]| > 0 {
        assert es[i] == p[i] + ":" + l.labels[p[i]];
      }
    }
    JoinEmptyIff(es);
    PresentEmptyIff(l, sorted);
    if exists i :: 0 <= i < |request| && request[i] in l.labels {
      SomePresentInPermutation(l, request, sorted);
    } else if exists j :: 0 <= j < |sorted| && sorted[j] in l.labels {
      SomePresentInPermutation(l, sorted, request);
    }
  }

  /** Dropping absent keys keeps a strictly ascending key list strictly ascending. */
  lemma {:induction false} PresentKeepsStrictlySorted(l: Labels, keys: seq<string>)
    requires StrictlySorted(keys)
    ensures StrictlySorted(Present(l, keys))
  {
    if |keys| > 0 {
      var rest := keys[1..];
      assert StrictlySorted(rest) by {
        forall i, j | 0 <= i < j < |rest| ensures Less(rest[i], rest[j]) {
          assert rest[i] == keys[i + 1] && rest[j] == keys[j + 1];
        }
      }
      PresentKeepsStrictlySorted(l, rest);
      var p := Present(l, rest);
      forall i | 0 <= i < |p| ensures Less(keys[0], p[i]) {
        assert p[i] in p;
        var j :| 0 <= j < |rest| && rest[j] == p[i];
        assert rest[j] == keys[j + 1];
      }
    }
  }

  /** Rendering held keys depends only on their values. */
  lemma EntriesAgree(l1: Labels, l2: Labels, keys: seq<string>)
    requires forall i :: 0 <= i < |keys| ==>
      keys[i] in l1.labels && keys[i] in l2.labels && l1.labels[keys[i]] == l2.labels[keys[i]]
    ensures Entries(l1, keys) == Entries(l2, keys)
  {
  }

  /** A valid label set renders its own keys as the comma-join of all its entries. */
  lemma OwnIdIsJoin(l: Labels)
    requires Valid(l)
    ensures ID(l, Keys(l)) == JoinComma(Entries(l, Keys(l)))
  {
    if |l.keys| > 0 {
      StrictlySortedIsSorted(l.keys);
      SortOfSorted(l.keys);
    }
    PairsAreTerminatedEntries(l, l.keys);
    PresentOfOwnKeys(l);
    TrimTerminatedIsJoin(Entries(l, l.keys));
  }
}
