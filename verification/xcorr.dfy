/**
 * The integer and array steps of the cross-correlation engine (xcorr.go).
 *
 * The numerical core — z-normalisation and the FFT round trip that turns two
 * equally long signals into their circular cross-correlation — is a foreign
 * library. It enters the model as a `Spectral` value: a pair of functions
 * whose only assumed property is that they preserve lengths.
 */
module XCorr {
  import opened Wrappers
  import opened Numbers

  // ----- nextPowOf2 -----

  predicate IsPow2(p: int)
    decreases if p < 0 then 0 else p
  {
    p == 1 || (p > 1 && p % 2 == 0 && IsPow2(p / 2))
  }

  function Climb(p: int, v: int): (r: int)
    requires IsPow2(p) && (p == 1 || p / 2 < v)
    ensures IsPow2(r) && r >= v && (r == 1 || r / 2 < v)
    decreases v - p
  {
    if p >= v then p else Climb(2 * p, v)
  }

  /**
   * `nextPowOf2`: 0 for a non-positive value, otherwise a power of two at
   * least `v` whose half is below `v` (integer semantics of
   * `2^ceil(log2 v)`).
   */
  function NextPowOf2(v: int): (r: int)
    ensures v <= 0 ==> r == 0
    ensures v >= 1 ==> IsPow2(r) && r >= v && (r == 1 || r / 2 < v)
  {
    if v <= 0 then 0 else Climb(1, v)
  }

  /** Between two distinct powers of two there is at least a factor of two. */
  lemma {:induction false} Pow2Spacing(a: int, b: int)
    requires IsPow2(a) && IsPow2(b) && a < b
    ensures 2 * a <= b
    decreases b
  {
    if a > 1 {
      Pow2Spacing(a / 2, b / 2);
    }
  }

  /** For `v >= 1`, `nextPowOf2(v)` is the SMALLEST power of two that is at least `v`. */
  lemma NextPowOf2IsLeast(v: int, p: int)
    requires v >= 1 && IsPow2(p) && p >= v
    ensures NextPowOf2(v) <= p
  {
    var r := NextPowOf2(v);
    if r > 1 && r / 2 < p {
      Pow2Spacing(r / 2, p);
    }
  }

  // ----- maxAbsIndex -----

  /**
   * `i` is the first index of maximal magnitude in `x`; for an empty `x`,
   * `i` is 0.
   */
  predicate IsFirstMaxAbs(x: seq<real>, i: int) {
    if |x| == 0 then i == 0
    else
      && 0 <= i < |x|
      && (forall k :: 0 <= k < |x| ==> Abs(x[k]) <= Abs(x[i]))
      && (forall k :: 0 <= k < i ==> Abs(x[k]) < Abs(x[i]))
  }

  /** What the loop of `maxAbsIndex` knows after visiting `x[..i]`. */
  predicate ScanState(x: seq<real>, i: int, mi: int, mv: real) {
    && 0 <= i <= |x|
    && (i == 0 ==> mi == 0 && mv == 0.0)
    && (i > 0 ==> 0 <= mi < i && mv == x[mi] && IsFirstMaxAbs(x[..i], mi))
  }

  /** The loop of `maxAbsIndex` from position `i`, holding the best index `mi` and its value `mv`. */
  function MaxAbsScan(x: seq<real>, i: int, mi: int, mv: real): (r: int)
    requires ScanState(x, i, mi, mv)
    ensures IsFirstMaxAbs(x, r)
    decreases |x| - i
  {
    if i == |x| then
      assert x[..i] == x;
      mi
    else
      var p := x[..i + 1];
      assert forall k :: 0 <= k < i ==> p[k] == x[..i][k];
      if Abs(x[i]) > Abs(mv) then MaxAbsScan(x, i + 1, i, x[i])
      else MaxAbsScan(x, i + 1, mi, mv)
  }

  /** `maxAbsIndex`: the first index of largest magnitude; 0 for an empty or all-zero input. */
  function MaxAbsIndex(x: seq<real>): (i: int)
    ensures IsFirstMaxAbs(x, i)
  {
    MaxAbsScan(x, 0, 0, 0.0)
  }

  /** An all-zero input gives index 0. */
  lemma MaxAbsIndexOfZeros(x: seq<real>)
    requires forall k :: 0 <= k < |x| ==> x[k] == 0.0
    ensures MaxAbsIndex(x) == 0
  {
  }

  /** The first maximum is unique. */
  lemma FirstMaxAbsUnique(x: seq<real>, i: int, j: int)
    requires IsFirstMaxAbs(x, i) && IsFirstMaxAbs(x, j)
    ensures i == j
  {
    if |x| > 0 {
      assert Abs(x[i]) == Abs(x[j]);
    }
  }

  // ----- zeroPad -----

  /** `zeroPad`: left-pad with zeros to length `n`; a longer input is returned as is. */
  function ZeroPad(x: seq<real>, n: int): (r: seq<real>)
    ensures n < |x| ==> r == x
    ensures n >= |x| ==> |r| == n
    ensures n >= |x| ==> forall k :: 0 <= k < n - |x| ==> r[k] == 0.0
    ensures n >= |x| ==> r[n - |x|..] == x
  {
    if n < |x| then x else seq(n - |x|, _ => 0.0) + x
  }

  /** The padded signal's tail is the original signal, whichever branch `zeroPad` took. */
  lemma ZeroPadKeepsSignal(x: seq<real>, n: int)
    ensures var r := ZeroPad(x, n); |r| >= |x| && r[|r| - |x|..] == x
  {
  }

  /** Padding to the length a signal already has is the identity, so padding twice pads once. */
  lemma ZeroPadIdempotent(x: seq<real>, n: int)
    ensures ZeroPad(ZeroPad(x, n), n) == ZeroPad(x, n)
  {
    var r := ZeroPad(x, n);
    if n >= |x| {
      assert ZeroPad(r, n) == seq(0, _ => 0.0) + r;
    }
  }

  // ----- The lag remap -----

  /** Index `i` of a length-`n` circular correlation as a signed lag: the upper half wraps to negative. */
  function RemapLag(i: int, n: int): int {
    if i > n / 2 then i - n else i
  }

  /** The inverse: the index of the circular correlation a signed lag refers to. */
  function LagToIndex(lag: int, n: int): int {
    if lag < 0 then lag + n else lag
  }

  /** The signed lags of a length-`n` correlation. */
  predicate LagInRange(lag: int, n: int) {
    n / 2 + 1 - n <= lag <= n / 2
  }

  /** Every index remaps to a lag in range, negative exactly for the upper half, and back again. */
  lemma RemapLagRoundTrip(i: int, n: int)
    requires 0 <= i < n
    ensures LagInRange(RemapLag(i, n), n)
    ensures RemapLag(i, n) < 0 <==> i > n / 2
    ensures LagToIndex(RemapLag(i, n), n) == i
  {
  }

  /** Every lag in range comes from exactly one index. */
  lemma LagToIndexRoundTrip(lag: int, n: int)
    requires n >= 1 && LagInRange(lag, n)
    ensures 0 <= LagToIndex(lag, n) < n
    ensures RemapLag(LagToIndex(lag, n), n) == lag
  {
  }

  // ----- xCorr and xCorrWithX -----

  /**
   * The numerical library: `zNormalize` (None when the standard deviation is
   * zero) and `correlate`, the inverse FFT of `FFT(x) * conj(FFT(y))` for
   * two signals of one length.
   */
  datatype Spectral = Spectral(
    zNormalize: seq<real> -> Option<seq<real>>,
    correlate: (seq<real>, seq<real>) -> seq<real>)

  /** The only properties of the library the model relies on: both functions preserve length. */
  ghost predicate WellFormed(sp: Spectral) {
    && (forall x: seq<real> :: sp.zNormalize(x).Some? ==> |sp.zNormalize(x).value| == |x|)
    && (forall x: seq<real>, y: seq<real> :: |x| == |y| ==> |sp.correlate(x, y)| == |x|)
  }

  /** The three results of `xCorr`: the correlation, the signed lag of its peak, and the peak's value. */
  datatype Correlation = Correlation(cc: seq<real>, lag: int, value: real)

  /** What `xCorr` returns when a signal cannot be normalised: no sequence, lag 0, value 0. */
  const Degenerate := Correlation([], 0, 0.0)

  function Scale(xs: seq<real>, f: real): (r: seq<real>)
    ensures |r| == |xs| && forall k :: 0 <= k < |xs| ==> r[k] == xs[k] * f
  {
    seq(|xs|, k requires 0 <= k < |xs| => xs[k] * f)
  }

  /** The peak of a scaled correlation, located by `maxAbsIndex` and remapped to a signed lag. */
  function Peak(cc: seq<real>): (r: Correlation)
    requires |cc| >= 1
    ensures r.cc == cc && LagInRange(r.lag, |cc|)
    ensures IsFirstMaxAbs(cc, LagToIndex(r.lag, |cc|))
    ensures r.value == cc[LagToIndex(r.lag, |cc|)]
  {
    var mi := MaxAbsIndex(cc);
    RemapLagRoundTrip(mi, |cc|);
    Correlation(cc, RemapLag(mi, |cc|), cc[mi])
  }

  /** `1/(n(n-1))` when normalising, else `1/n`; a zero divisor (Go's infinity) is modelled as 0. */
  function ScaleFactor(n: int, normalize: bool): real {
    var d := if normalize then n * (n - 1) else n;
    if d == 0 then 0.0 else 1.0 / d as real
  }

  function Max(a: int, b: int): int {
    if a < b then b else a
  }

  /**
   * `xCorr`: raise `n` to at least both lengths, optionally normalise (a
   * signal of zero deviation gives the degenerate result), pad both to `n`,
   * correlate, scale and locate the peak. An FFT of length 0 is not defined,
   * so the padded length must be positive.
   */
  function XCorr(sp: Spectral, x: seq<real>, y: seq<real>, n: int, normalize: bool): (r: Correlation)
    requires WellFormed(sp)
    requires Max(n, Max(|x|, |y|)) >= 1
    ensures normalize && (sp.zNormalize(x).None? || sp.zNormalize(y).None?) ==> r == Degenerate
    ensures !(normalize && (sp.zNormalize(x).None? || sp.zNormalize(y).None?)) ==>
      var len := Max(n, Max(|x|, |y|));
      var xs := if normalize then sp.zNormalize(x).value else x;
      var ys := if normalize then sp.zNormalize(y).value else y;
      && r.cc == Scale(sp.correlate(ZeroPad(xs, len), ZeroPad(ys, len)), ScaleFactor(len, normalize))
      && |r.cc| == len
      && LagInRange(r.lag, len)
      && IsFirstMaxAbs(r.cc, LagToIndex(r.lag, len))
      && r.value == r.cc[LagToIndex(r.lag, len)]
  {
    var n := Max(n, Max(|x|, |y|));
    if normalize && sp.zNormalize(x).None? then Degenerate
    else if normalize && sp.zNormalize(y).None? then Degenerate
    else
      var x := if normalize then sp.zNormalize(x).value else x;
      var y := if normalize then sp.zNormalize(y).value else y;
      var cc := Scale(sp.correlate(ZeroPad(x, n), ZeroPad(y, n)), ScaleFactor(n, normalize));
      Peak(cc)
  }

  /**
   * `xCorrWithX`: correlate `y` against a precomputed transform of length
   * `n`. The transform is represented by the padded signal `xPadded` it was
   * computed from. `y` is always normalised and the result is scaled by
   * `1/n` only.
   */
  function XCorrWithX(sp: Spectral, xPadded: seq<real>, y: seq<real>): (r: Correlation)
    requires WellFormed(sp)
    requires |xPadded| >= 1 && |y| <= |xPadded|
    ensures sp.zNormalize(y).None? ==> r == Degenerate
    ensures sp.zNormalize(y).Some? ==>
      && r.cc == Scale(sp.correlate(xPadded, ZeroPad(sp.zNormalize(y).value, |xPadded|)), ScaleFactor(|xPadded|, false))
      && |r.cc| == |xPadded|
      && LagInRange(r.lag, |xPadded|)
      && IsFirstMaxAbs(r.cc, LagToIndex(r.lag, |xPadded|))
      && r.value == r.cc[LagToIndex(r.lag, |xPadded|)]
  {
    var n := |xPadded|;
    match sp.zNormalize(y)
    case None => Degenerate
    case Some(yn) =>
      var cc := Scale(sp.correlate(xPadded, ZeroPad(yn, n)), ScaleFactor(n, false));
      Peak(cc)
  }

  /** Magnitudes scale by the factor's magnitude. */
  lemma AbsScaled(a: real, f: real)
    ensures Abs(a * f) == Abs(a) * Abs(f)
  {
    if a >= 0.0 && f >= 0.0 {
      assert a * f >= 0.0;
    } else if a >= 0.0 {
      assert a * f <= 0.0 && Abs(f) == -f && a * (-f) == -(a * f);
    } else if f >= 0.0 {
      assert a * f <= 0.0 && Abs(a) == -a && (-a) * f == -(a * f);
    } else {
      assert a * f > 0.0 && (-a) * (-f) == a * f;
    }
  }

  /** Multiplying by a positive factor keeps the order of magnitudes. */
  lemma ScaledOrder(a: real, b: real, c: real, ac: real, bc: real)
    requires c > 0.0 && ac == a * c && bc == b * c
    ensures ac <= bc <==> a <= b
    ensures ac < bc <==> a < b
  {
    assert bc - ac == (b - a) * c;
    if a < b {
      assert (b - a) * c > 0.0;
    } else if a == b {
    } else {
      assert (b - a) * c < 0.0;
    }
  }

  /** Scaling by a non-zero factor keeps the first maximum where it is. */
  lemma ScaleKeepsFirstMaxAbs(xs: seq<real>, f: real, i: int)
    requires f != 0.0
    ensures IsFirstMaxAbs(Scale(xs, f), i) <==> IsFirstMaxAbs(xs, i)
  {
    var ys := Scale(xs, f);
    if 0 <= i < |xs| {
      ScaledComparisons(xs, f, i);
      SameComparisonsSameFirstMax(xs, ys, i);
    }
  }

  /** Against a fixed element, every element of the scaled sequence compares as it did before scaling. */
  lemma ScaledComparisons(xs: seq<real>, f: real, i: int)
    requires f != 0.0 && 0 <= i < |xs|
    ensures var ys := Scale(xs, f);
      forall k :: 0 <= k < |xs| ==>
        && (Abs(ys[k]) <= Abs(ys[i]) <==> Abs(xs[k]) <= Abs(xs[i]))
        && (Abs(ys[k]) < Abs(ys[i]) <==> Abs(xs[k]) < Abs(xs[i]))
  {
    var ys := Scale(xs, f);
    forall k | 0 <= k < |xs|
      ensures Abs(ys[k]) <= Abs(ys[i]) <==> Abs(xs[k]) <= Abs(xs[i])
      ensures Abs(ys[k]) < Abs(ys[i]) <==> Abs(xs[k]) < Abs(xs[i])
    {
      ScaledAt(xs, f, k, ys[k], xs[k]);
      ScaledAt(xs, f, i, ys[i], xs[i]);
      ScaledMagnitudes(xs[k], xs[i], f, ys[k], ys[i]);
    }
  }

  /** Two sequences whose elements compare alike against position `i` agree on whether `i` is the first maximum. */
  lemma SameComparisonsSameFirstMax(xs: seq<real>, ys: seq<real>, i: int)
    requires |xs| == |ys| && 0 <= i < |xs|
    requires forall k :: 0 <= k < |xs| ==>
      && (Abs(ys[k]) <= Abs(ys[i]) <==> Abs(xs[k]) <= Abs(xs[i]))
      && (Abs(ys[k]) < Abs(ys[i]) <==> Abs(xs[k]) < Abs(xs[i]))
    ensures IsFirstMaxAbs(ys, i) <==> IsFirstMaxAbs(xs, i)
  {
  }

  lemma ScaledMagnitudes(a: real, b: real, f: real, ya: real, yb: real)
    requires f != 0.0 && ya == a * f && yb == b * f
    ensures Abs(ya) <= Abs(yb) <==> Abs(a) <= Abs(b)
    ensures Abs(ya) < Abs(yb) <==> Abs(a) < Abs(b)
  {
    AbsScaled(a, f);
    AbsScaled(b, f);
    ScaledOrder(Abs(a), Abs(b), Abs(f), Abs(ya), Abs(yb));
  }

  /**
   * The peak's lag does not depend on a non-zero scale factor: the choice
   * between `1/n` and `1/(n(n-1))` changes the value, not the lag.
   */
  lemma PeakLagIgnoresScale(cc: seq<real>, f: real)
    requires |cc| >= 1 && f != 0.0
    ensures Peak(Scale(cc, f)).lag == Peak(cc).lag
    ensures Peak(Scale(cc, f)).value == Peak(cc).value * f
  {
    var n := |cc|;
    var p, q := Peak(Scale(cc, f)), Peak(cc);
    var i, j := LagToIndex(p.lag, n), LagToIndex(q.lag, n);
    ScaleKeepsFirstMaxAbs(cc, f, i);
    FirstMaxAbsUnique(cc, i, j);
    LagToIndexRoundTrip(p.lag, n);
    LagToIndexRoundTrip(q.lag, n);
    ScaledAt(cc, f, i, p.value, q.value);
  }

  /** The scaled sequence's element at `i` is the original element times the factor. */
  lemma ScaledAt(xs: seq<real>, f: real, i: int, y: real, x: real)
    requires 0 <= i < |xs| && y == Scale(xs, f)[i] && x == xs[i]
    ensures y == x * f
  {
  }
}
