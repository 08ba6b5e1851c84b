/** The weighted similarity of a pattern and a window of the image. */
module Correlation {
  import opened Common
  import opened ByteRating

  // ----- weights -----

  /** profile(d) stands for 1/sqrt(1 + d), the weight of a byte at distance d from the change. */
  ghost predicate Positive(profile: nat -> real) {
    forall d: nat :: 0.0 < profile(d)
  }

  /** Distance of pattern byte i from the changed bytes [patchStart, patchStart + patchSize). */
  function Distance(patchStart: nat, patchSize: nat, i: nat): nat {
    if i < patchStart then patchStart - i
    else if i < patchStart + patchSize then 0
    else i - (patchStart + patchSize) + 1
  }

  function WeightAt(profile: nat -> real, patchStart: nat, patchSize: nat, i: nat): real {
    if Distance(patchStart, patchSize, i) == 0 then 1.0 else profile(Distance(patchStart, patchSize, i))
  }

  function Weights(profile: nat -> real, size: nat, patchStart: nat, patchSize: nat): (w: seq<real>)
    ensures |w| == size
    ensures forall i :: 0 <= i < size ==> w[i] == WeightAt(profile, patchStart, patchSize, i)
    ensures Positive(profile) ==> AllPositive(w)
  {
    seq(size, (i: nat) => WeightAt(profile, patchStart, patchSize, i))
  }

  ghost predicate AllPositive(w: seq<real>) {
    forall i :: 0 <= i < |w| ==> 0.0 < w[i]
  }

  method WeightVector(profile: nat -> real, size: nat, patchStart: nat, patchSize: nat) returns (w: seq<real>)
    ensures w == Weights(profile, size, patchStart, patchSize)
  {
    var weightVector := new real[size](_ => 0.0);
    var i := 0;
    while i < size
      invariant 0 <= i <= size
      invariant forall k :: 0 <= k < i ==> weightVector[k] == WeightAt(profile, patchStart, patchSize, k)
    {
      var weightValue;
      if i < patchStart {
        weightValue := profile(patchStart - i);
      } else if i < patchStart + patchSize {
        weightValue := 1.0;
      } else {
        weightValue := profile(1 + i - (patchStart + patchSize));
      }
      weightVector[i] := weightValue;
      i := i + 1;
    }
    w := weightVector[..];
  }

  // ----- correlation -----

  /** What one byte contributes. */
  function Term(weight: real, rate: int): real {
    weight * rate as real
  }

  /** Weighted similarity of the first n bytes of b and the n bytes of a from pos. */
  function Corr(a: seq<Byte>, pos: nat, b: seq<Byte>, w: seq<real>, n: nat): real
    requires pos + n <= |a| && n <= |b| && n <= |w|
  {
    if n == 0 then 0.0
    else Corr(a, pos, b, w, n - 1) + Term(w[n - 1], XorRate(a[pos + n - 1], b[n - 1]))
  }

  method Correlate(rating: array<int>, a: seq<Byte>, pos: nat, b: seq<Byte>, len: nat, w: seq<real>)
    returns (sum: real)
    requires rating.Length == 0x100 && forall i :: 0 <= i < 0x100 ==> rating[i] == Rate(i)
    requires pos + len <= |a| && len <= |b| && len <= |w|
    ensures sum == Corr(a, pos, b, w, len)
  {
    sum := 0.0;
    var i := 0;
    while i < len
      invariant 0 <= i <= len
      invariant sum == Corr(a, pos, b, w, i)
    {
      var r := rating[(a[pos + i] ^ b[i]) as int];
      assert r == XorRate(a[pos + i], b[i]);
      sum := sum + Term(w[i], r);
      i := i + 1;
    }
  }

  /** Total weight of the first n pattern bytes. */
  function WeightSum(w: seq<real>, n: nat): real
    requires n <= |w|
  {
    if n == 0 then 0.0 else WeightSum(w, n - 1) + w[n - 1]
  }

  /** Total weight of the bytes at which the window differs from the pattern. */
  function MissWeight(a: seq<Byte>, pos: nat, b: seq<Byte>, w: seq<real>, n: nat): real
    requires pos + n <= |a| && n <= |b| && n <= |w|
  {
    if n == 0 then 0.0
    else MissWeight(a, pos, b, w, n - 1) + if a[pos + n - 1] == b[n - 1] then 0.0 else w[n - 1]
  }

  /** The score of the pattern against itself, by which results are calibrated. */
  function SelfScore(b: seq<Byte>, w: seq<real>): real
    requires |b| == |w|
  {
    Corr(b, 0, b, w, |b|)
  }

  lemma {:induction false} CorrBounds(a: seq<Byte>, pos: nat, b: seq<Byte>, w: seq<real>, n: nat)
    requires pos + n <= |a| && n <= |b| && n <= |w|
    requires AllPositive(w)
    ensures 0.0 <= Corr(a, pos, b, w, n)
    ensures Corr(a, pos, b, w, n) + 5.0 * MissWeight(a, pos, b, w, n) <= 16.0 * WeightSum(w, n)
    ensures MissWeight(a, pos, b, w, n) == 0.0 ==> Corr(a, pos, b, w, n) == 16.0 * WeightSum(w, n)
    ensures 0.0 <= MissWeight(a, pos, b, w, n)
  {
    if n == 0 {
    } else {
      CorrBounds(a, pos, b, w, n - 1);
      var p, q := a[pos + n - 1], b[n - 1];
      XorRateSeparates(p, q);
      TermBounds(w[n - 1], XorRate(p, q));
    }
  }

  lemma TermBounds(x: real, rate: int)
    requires 0.0 < x && 0 <= rate <= 16
    ensures 0.0 <= Term(x, rate)
    ensures rate <= 11 ==> Term(x, rate) + 5.0 * x <= 16.0 * x
    ensures rate == 16 ==> Term(x, rate) == 16.0 * x
  {
    if rate <= 11 {
      assert x * (11 - rate) as real >= 0.0;
    }
  }

  lemma {:induction false} WeightSumPositive(w: seq<real>, n: nat)
    requires n <= |w| && AllPositive(w)
    ensures 0.0 <= WeightSum(w, n)
    ensures 0 < n ==> 0.0 < WeightSum(w, n)
  {
    if n == 0 {
    } else {
      WeightSumPositive(w, n - 1);
    }
  }

  /** A mismatch at i alone costs its own weight, and without mismatches nothing is lost. */
  lemma {:induction false} MissWeightCovers(a: seq<Byte>, pos: nat, b: seq<Byte>, w: seq<real>, n: nat)
    requires pos + n <= |a| && n <= |b| && n <= |w|
    requires AllPositive(w)
    ensures forall i :: 0 <= i < n && a[pos + i] != b[i] ==> w[i] <= MissWeight(a, pos, b, w, n)
    ensures MissWeight(a, pos, b, w, n) == 0.0 <==> forall i :: 0 <= i < n ==> a[pos + i] == b[i]
    ensures 0.0 <= MissWeight(a, pos, b, w, n)
  {
    if n == 0 {
    } else {
      MissWeightCovers(a, pos, b, w, n - 1);
    }
  }

  /** The self-score is 16 times the total weight and the unique maximum over all windows;
      a window loses at least 5 times the weight of the bytes at which it differs. */
  lemma SelfScoreIsUniqueMaximum(a: seq<Byte>, pos: nat, b: seq<Byte>, w: seq<real>)
    requires |b| == |w| && pos + |b| <= |a|
    requires AllPositive(w)
    ensures SelfScore(b, w) == 16.0 * WeightSum(w, |w|)
    ensures 0.0 <= Corr(a, pos, b, w, |b|) <= SelfScore(b, w) - 5.0 * MissWeight(a, pos, b, w, |b|) <= SelfScore(b, w)
    ensures Corr(a, pos, b, w, |b|) == SelfScore(b, w) <==> a[pos..pos + |b|] == b
    ensures 0 < |b| ==> 0.0 < SelfScore(b, w)
  {
    SelfScoreValue(b, w);
    CorrBounds(a, pos, b, w, |b|);
    MissWeightCovers(a, pos, b, w, |b|);
    WindowEquality(a, pos, b);
  }

  lemma {:induction false} SelfCorr(b: seq<Byte>, w: seq<real>, n: nat)
    requires n <= |b| && n <= |w|
    ensures Corr(b, 0, b, w, n) == 16.0 * WeightSum(w, n)
  {
    if n == 0 {
    } else {
      SelfCorr(b, w, n - 1);
      XorRateSeparates(b[n - 1], b[n - 1]);
    }
  }

  lemma SelfScoreValue(b: seq<Byte>, w: seq<real>)
    requires |b| == |w| && AllPositive(w)
    ensures SelfScore(b, w) == 16.0 * WeightSum(w, |w|)
    ensures 0 < |b| ==> 0.0 < SelfScore(b, w)
  {
    SelfCorr(b, w, |b|);
    WeightSumPositive(w, |w|);
  }

  lemma WindowEquality(a: seq<Byte>, pos: nat, b: seq<Byte>)
    requires pos + |b| <= |a|
    ensures a[pos..pos + |b|] == b <==> forall i :: 0 <= i < |b| ==> a[pos + i] == b[i]
  {
    if a[pos..pos + |b|] == b {
      forall i | 0 <= i < |b| ensures a[pos + i] == b[i] {
        assert a[pos..pos + |b|][i] == b[i];
      }
    }
  }

  // ----- what a single byte contributes -----

  /** The windows of a at p and of a' at p' agree in the first n bytes, except possibly in byte i. */
  ghost predicate AgreeExceptAt(a: seq<Byte>, p: nat, a': seq<Byte>, p': nat, n: nat, i: nat)
    requires p + n <= |a| && p' + n <= |a'|
  {
    forall k: nat :: k < n && k != i ==> AgreeAt(a, p, a', p', k)
  }

  ghost predicate AgreeAt(a: seq<Byte>, p: nat, a': seq<Byte>, p': nat, k: nat)
    requires p + k < |a| && p' + k < |a'|
  {
    a[p + k] == a'[p' + k]
  }

  /** Windows that differ in byte i only have scores that differ by its weight times the difference
      of the ratings of that byte. */
  lemma {:induction false} OneByteChange(a: seq<Byte>, p: nat, a': seq<Byte>, p': nat, b: seq<Byte>, w: seq<real>,
                                         n: nat, i: nat)
    requires p + n <= |a| && p' + n <= |a'| && n <= |b| && n <= |w| && i < n
    requires AgreeExceptAt(a, p, a', p', n, i)
    ensures Corr(a, p, b, w, n) - Corr(a', p', b, w, n) ==
            w[i] * (XorRate(a[p + i], b[i]) - XorRate(a'[p' + i], b[i])) as real
  {
    hide Term, XorRate;
    if i == n - 1 {
      SameScore(a, p, a', p', b, w, n - 1);
      TermDifference(w[i], XorRate(a[p + i], b[i]), XorRate(a'[p' + i], b[i]));
    } else {
      assert AgreeAt(a, p, a', p', n - 1);
      OneByteChange(a, p, a', p', b, w, n - 1, i);
    }
  }

  lemma {:induction false} SameScore(a: seq<Byte>, p: nat, a': seq<Byte>, p': nat, b: seq<Byte>, w: seq<real>, n: nat)
    requires p + n <= |a| && p' + n <= |a'| && n <= |b| && n <= |w|
    requires forall k: nat :: k < n ==> AgreeAt(a, p, a', p', k)
    ensures Corr(a, p, b, w, n) == Corr(a', p', b, w, n)
  {
    if n == 0 {
    } else {
      assert AgreeAt(a, p, a', p', n - 1);
      SameScore(a, p, a', p', b, w, n - 1);
    }
  }

  lemma TermDifference(weight: real, r: int, s: int)
    ensures Term(weight, r) - Term(weight, s) == weight * (r - s) as real
  {
    assert (r - s) as real == r as real - s as real;
  }

  /** The weight of a byte by its side and distance: 1 inside the change, the profile at distance d on
      either side of it. */
  lemma WeightByDistance(profile: nat -> real, size: nat, patchStart: nat, patchSize: nat, d: nat)
    requires 0 < d
    ensures var w := Weights(profile, size, patchStart, patchSize);
            && (forall i :: patchStart <= i < patchStart + patchSize && i < size ==> w[i] == 1.0)
            && (d <= patchStart && patchStart - d < size ==> w[patchStart - d] == profile(d))
            && (patchStart + patchSize + d <= size ==> w[patchStart + patchSize + d - 1] == profile(d))
  {
  }
}
