/** Magnitudes of reals and integers (Go's `math.Abs`), and sums over sequences. */
module Numbers {

  function Abs(x: real): real {
    if x < 0.0 then -x else x
  }

  function IntAbs(x: int): nat {
    if x < 0 then -x else x
  }

  /** The sum of `f` over the elements of `s`. */
  function Sum<T>(s: seq<T>, f: T -> real): real {
    if |s| == 0 then 0.0 else f(s[0]) + Sum(s[1..], f)
  }

  lemma {:induction false} SumAppend<T>(a: seq<T>, b: seq<T>, f: T -> real)
    ensures Sum(a + b, f) == Sum(a, f) + Sum(b, f)
    decreases |a|
  {
    if |a| == 0 {
      assert a + b == b;
    } else {
      assert (a + b)[1..] == a[1..] + b;
      SumAppend(a[1..], b, f);
    }
  }

  /** Taking one element out of the sum. */
  lemma SumRemove<T>(b: seq<T>, j: int, f: T -> real)
    requires 0 <= j < |b|
    ensures Sum(b, f) == f(b[j]) + Sum(b[..j] + b[j + 1..], f)
  {
    var tail := b[j..];
    assert b == b[..j] + tail;
    SumAppend(b[..j], tail, f);
    assert tail[1..] == b[j + 1..];
    SumAppend(b[..j], b[j + 1..], f);
  }

  lemma RemoveMultiset<T>(b: seq<T>, j: int)
    requires 0 <= j < |b|
    ensures multiset(b[..j] + b[j + 1..]) == multiset(b) - multiset{b[j]}
  {
    assert b == b[..j] + [b[j]] + b[j + 1..];
  }

  /** A sum does not depend on the order of the elements. */
  lemma {:induction false} SumPermutation<T>(a: seq<T>, b: seq<T>, f: T -> real)
    requires multiset(a) == multiset(b)
    ensures Sum(a, f) == Sum(b, f)
    decreases |a|
  {
    if |a| > 0 {
      assert a[0] in multiset(b);
      var j :| 0 <= j < |b| && b[j] == a[0];
      var rest := b[..j] + b[j + 1..];
      SumRemove(b, j, f);
      RemoveMultiset(b, j);
      assert multiset(a[1..]) == multiset(a) - multiset{a[0]} by {
        assert a == [a[0]] + a[1..];
      }
      SumPermutation(a[1..], rest, f);
    } else {
      assert |b| == |multiset(b)| == 0;
    }
  }
}
