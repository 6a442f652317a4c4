/**
 * Byte-wise lexicographic order on strings, as used by Go's `sort.Strings`.
 *
 * Strings are `seq<char>` and characters compare by code point; for UTF-8
 * text the code-point order and the byte order coincide, so `"A"` sorts before
 * `"a"` exactly as in Go.
 */
module StringOrder {

  /** `a` sorts no later than `b`. */
  predicate LessEq(a: string, b: string)
    decreases |a|
  {
    |a| == 0 || (|b| > 0 && (a[0] < b[0] || (a[0] == b[0] && LessEq(a[1..], b[1..]))))
  }

  /** `a` sorts strictly before `b`. */
  predicate Less(a: string, b: string) {
    LessEq(a, b) && a != b
  }

  lemma {:induction false} LessEqReflexive(a: string)
    ensures LessEq(a, a)
    decreases |a|
  {
    if |a| > 0 {
      LessEqReflexive(a[1..]);
    }
  }

  lemma {:induction false} LessEqAntisymmetric(a: string, b: string)
    requires LessEq(a, b) && LessEq(b, a)
    ensures a == b
    decreases |a|
  {
    if |a| > 0 {
      LessEqAntisymmetric(a[1..], b[1..]);
      assert a == [a[0]] + a[1..];
      assert b == [b[0]] + b[1..];
    }
  }

  lemma {:induction false} LessEqTransitive(a: string, b: string, c: string)
    requires LessEq(a, b) && LessEq(b, c)
    ensures LessEq(a, c)
    decreases |a|
  {
    if |a| > 0 && a[0] == b[0] && b[0] == c[0] {
      LessEqTransitive(a[1..], b[1..], c[1..]);
    }
  }

  lemma {:induction false} LessEqTotal(a: string, b: string)
    ensures LessEq(a, b) || LessEq(b, a)
    decreases |a|
  {
    if |a| > 0 && |b| > 0 && a[0] == b[0] {
      LessEqTotal(a[1..], b[1..]);
    }
  }

  /** The order facts in quantified form, for proofs over whole sequences. */
  lemma TotalOrder()
    ensures forall a, b :: LessEq(a, b) || LessEq(b, a)
    ensures forall a, b :: LessEq(a, b) && LessEq(b, a) ==> a == b
    ensures forall a, b, c :: LessEq(a, b) && LessEq(b, c) ==> LessEq(a, c)
  {
    forall a, b ensures LessEq(a, b) || LessEq(b, a) {
      LessEqTotal(a, b);
    }
    forall a, b | LessEq(a, b) && LessEq(b, a) ensures a == b {
      LessEqAntisymmetric(a, b);
    }
    forall a, b, c | LessEq(a, b) && LessEq(b, c) ensures LessEq(a, c) {
      LessEqTransitive(a, b, c);
    }
  }

  /** Non-decreasing order, duplicates allowed (what `sort.Strings` produces). */
  predicate Sorted(s: seq<string>) {
    forall i, j :: 0 <= i < j < |s| ==> LessEq(s[i], s[j])
  }

  /** Strictly increasing order: sorted and duplicate-free. */
  predicate StrictlySorted(s: seq<string>) {
    forall i, j :: 0 <= i < j < |s| ==> Less(s[i], s[j])
  }

  /** No string occurs twice in `s`. */
  predicate Distinct(s: seq<string>) {
    forall i, j :: 0 <= i < j < |s| ==> s[i] != s[j]
  }

  /** A repeated element is counted at least twice. */
  lemma RepeatCountsTwice(s: seq<string>, i: int, j: int)
    requires 0 <= i < j < |s|
    ensures s[i] == s[j] ==> multiset(s)[s[i]] >= 2
  {
    assert s == s[..j] + s[j..];
    assert s[i] == s[..j][i];
    assert s[j] == s[j..][0];
    assert multiset(s) == multiset(s[..j]) + multiset(s[j..]);
  }

  /** A rearrangement of a duplicate-free sequence is duplicate-free. */
  lemma DistinctByMultiset(a: seq<string>, b: seq<string>)
    requires Distinct(a) && multiset(a) == multiset(b)
    ensures Distinct(b)
  {
    var keys := set x | x in a;
    assert Enumerates(a, keys);
    DistinctMultiset(a, keys);
    forall i, j | 0 <= i < j < |b| ensures b[i] != b[j] {
      RepeatCountsTwice(b, i, j);
    }
  }

  /** `s` lists every element of `keys`, and only those, each exactly once. */
  predicate Enumerates(s: seq<string>, keys: set<string>) {
    && (forall i :: 0 <= i < |s| ==> s[i] in keys)
    && (forall k :: k in keys ==> k in s)
    && (forall i, j :: 0 <= i < j < |s| ==> s[i] != s[j])
  }

  /** `b` sorts no later than any element of `s`. */
  predicate LowerBound(b: string, s: seq<string>) {
    forall i :: 0 <= i < |s| ==> LessEq(b, s[i])
  }

  lemma LowerBoundByMultiset(b: string, s: seq<string>, t: seq<string>, x: string)
    requires LowerBound(b, s) && LessEq(b, x)
    requires multiset(t) == multiset(s) + multiset{x}
    ensures LowerBound(b, t)
  {
    forall i | 0 <= i < |t| ensures LessEq(b, t[i]) {
      assert t[i] in multiset(t);
      if t[i] != x {
        assert t[i] in multiset(s);
        var j :| 0 <= j < |s| && s[j] == t[i];
      }
    }
  }

  /** Insertion of one string into a sorted sequence. */
  function Insert(x: string, s: seq<string>): (r: seq<string>)
    requires Sorted(s)
    ensures Sorted(r)
    ensures multiset(r) == multiset(s) + multiset{x}
    ensures |r| == |s| + 1
  {
    if |s| == 0 then [x]
    else if LessEq(x, s[0]) then
      TotalOrder();
      [x] + s
    else
      var t := Insert(x, s[1..]);
      LessEqTotal(x, s[0]);
      assert s == [s[0]] + s[1..];
      LowerBoundByMultiset(s[0], s[1..], t, x);
      [s[0]] + t
  }

  /** Insertion sort: the model of Go's `sort.Strings`. */
  function Sort(s: seq<string>): (r: seq<string>)
    ensures Sorted(r)
    ensures multiset(r) == multiset(s)
    ensures |r| == |s|
  {
    if |s| == 0 then []
    else
      assert s == s[..|s| - 1] + [s[|s| - 1]];
      Insert(s[|s| - 1], Sort(s[..|s| - 1]))
  }

  /** Two sorted sequences holding the same multiset are equal: sorting has one answer. */
  lemma {:induction false} SortedUnique(a: seq<string>, b: seq<string>)
    requires Sorted(a) && Sorted(b)
    requires multiset(a) == multiset(b)
    ensures a == b
    decreases |a|
  {
    if |a| > 0 {
      HeadsAgree(a, b);
      DropHead(a);
      DropHead(b);
      SortedUnique(a[1..], b[1..]);
      assert a == [a[0]] + a[1..];
      assert b == [b[0]] + b[1..];
    }
  }

  /** Two non-empty sorted sequences holding the same multiset start with the same element. */
  lemma HeadsAgree(a: seq<string>, b: seq<string>)
    requires Sorted(a) && Sorted(b) && |a| > 0
    requires multiset(a) == multiset(b)
    ensures |b| > 0 && a[0] == b[0]
  {
    assert |b| == |multiset(b)| == |a|;
    assert a[0] in multiset(b) && b[0] in multiset(a);
    var i :| 0 <= i < |b| && b[i] == a[0];
    var j :| 0 <= j < |a| && a[j] == b[0];
    assert LessEq(b[0], a[0]) by { if i == 0 { LessEqReflexive(b[0]); } }
    assert LessEq(a[0], b[0]) by { if j == 0 { LessEqReflexive(a[0]); } }
    LessEqAntisymmetric(a[0], b[0]);
  }

  /** Dropping the head of a sorted sequence leaves a sorted sequence of the other elements. */
  lemma DropHead(a: seq<string>)
    requires Sorted(a) && |a| > 0
    ensures Sorted(a[1..])
    ensures multiset(a[1..]) == multiset(a) - multiset{a[0]}
  {
    assert a == [a[0]] + a[1..];
    assert multiset(a) == multiset{a[0]} + multiset(a[1..]);
  }

  /** Sorting leaves an already sorted sequence unchanged. */
  lemma SortOfSorted(s: seq<string>)
    requires Sorted(s)
    ensures Sort(s) == s
  {
    SortedUnique(Sort(s), s);
  }

  /** Sorting forgets the order of its input. */
  lemma SortIgnoresOrder(a: seq<string>, b: seq<string>)
    requires multiset(a) == multiset(b)
    ensures Sort(a) == Sort(b)
  {
    SortedUnique(Sort(a), Sort(b));
  }

  lemma SmallestExists(s: set<string>)
    requires s != {}
    ensures exists m :: IsSmallest(m, s)
    decreases |s|
  {
    var y :| y in s;
    var rest := s - {y};
    assert s == rest + {y};
    if rest == {} {
      SmallestOfSingleton(y);
      assert s == {y};
      assert IsSmallest(y, s);
    } else {
      SmallestExists(rest);
      var m :| IsSmallest(m, rest);
      SmallestOfInsert(rest, y, m);
      assert IsSmallest(m, s) || IsSmallest(y, s);
    }
  }

  /** `m` is in `s` and sorts no later than any element of `s`. */
  predicate IsSmallest(m: string, s: set<string>) {
    m in s && forall x :: x in s ==> LessEq(m, x)
  }

  lemma SmallestOfSingleton(y: string)
    ensures IsSmallest(y, {y})
  {
    forall x | x in {y} ensures LessEq(y, x) {
      LessEqReflexive(y);
    }
  }

  /** A set has at most one smallest element. */
  lemma SmallestUnique(s: set<string>)
    ensures forall a, b :: IsSmallest(a, s) && IsSmallest(b, s) ==> a == b
  {
    forall a, b | IsSmallest(a, s) && IsSmallest(b, s) ensures a == b {
      LessEqAntisymmetric(a, b);
    }
  }

  /** Adding `y` to a set whose smallest element is `m` makes the smaller of `m` and `y` the smallest. */
  lemma SmallestOfInsert(rest: set<string>, y: string, m: string)
    requires IsSmallest(m, rest)
    ensures IsSmallest(m, rest + {y}) || IsSmallest(y, rest + {y})
  {
    LessEqTotal(m, y);
    if LessEq(m, y) {
      forall x | x in rest + {y} ensures LessEq(m, x) {
        if x != y {
          assert x in rest;
        }
      }
      assert IsSmallest(m, rest + {y});
    } else {
      forall x | x in rest + {y} ensures LessEq(y, x) {
        if x == y {
          LessEqReflexive(y);
        } else {
          LessEqTransitive(y, m, x);
        }
      }
      assert IsSmallest(y, rest + {y});
    }
  }

  /** The first element of a non-empty set of strings in sorted order. */
  function Smallest(s: set<string>): (m: string)
    requires s != {}
    ensures m in s
    ensures forall x :: x in s ==> LessEq(m, x)
  {
    SmallestExists(s);
    SmallestUnique(s);
    var m :| IsSmallest(m, s);
    m
  }

  /** The elements of a finite set of strings in strictly increasing order. */
  function SortedSeqOf(s: set<string>): (r: seq<string>)
    ensures StrictlySorted(r)
    ensures Enumerates(r, s)
    ensures |r| == |s|
    decreases |s|
  {
    if s == {} then []
    else
      var m := Smallest(s);
      var t := SortedSeqOf(s - {m});
      ConsSmallest(s, m, t);
      [m] + t
  }

  /** Putting the smallest element in front of a sorted enumeration of the rest enumerates the whole set in order. */
  lemma ConsSmallest(s: set<string>, m: string, t: seq<string>)
    requires IsSmallest(m, s)
    requires StrictlySorted(t) && Enumerates(t, s - {m}) && |t| == |s - {m}|
    ensures StrictlySorted([m] + t) && Enumerates([m] + t, s) && |[m] + t| == |s|
  {
    var r := [m] + t;
    forall i, j | 0 <= i < j < |r| ensures Less(r[i], r[j]) {
      if i == 0 {
        assert r[j] == t[j - 1] && r[j] in s - {m};
      } else {
        assert r[i] == t[i - 1] && r[j] == t[j - 1];
      }
    }
    forall k | k in s ensures k in r {
      if k != m {
        assert k in s - {m};
      }
    }
    assert s == (s - {m}) + {m};
  }

  /** A strictly sorted sequence is in particular sorted. */
  lemma StrictlySortedIsSorted(s: seq<string>)
    requires StrictlySorted(s)
    ensures Sorted(s)
  {
  }

  /** A strictly sorted enumeration of a set is the canonical one. */
  lemma SortedEnumerationUnique(s: seq<string>, keys: set<string>)
    requires StrictlySorted(s) && Enumerates(s, keys)
    ensures s == SortedSeqOf(keys)
  {
    var t := SortedSeqOf(keys);
    assert multiset(s) == multiset(t) by {
      DistinctMultiset(s, keys);
      DistinctMultiset(t, keys);
    }
    SortedUnique(s, t);
  }

  /** A duplicate-free enumeration of a set holds each element exactly once. */
  lemma {:induction false} DistinctMultiset(s: seq<string>, keys: set<string>)
    requires Enumerates(s, keys)
    ensures multiset(s) == multiset(keys)
    decreases |s|
  {
    if |s| == 0 {
      assert keys == {};
    } else {
      var last := s[|s| - 1];
      var init := s[..|s| - 1];
      assert s == init + [last];
      assert last !in init;
      assert Enumerates(init, keys - {last});
      DistinctMultiset(init, keys - {last});
      assert keys == (keys - {last}) + {last};
    }
  }
}
