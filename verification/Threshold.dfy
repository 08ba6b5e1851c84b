/** When a score of 0.9999 means that a window equals the pattern byte for byte. */
module Threshold {
  import opened Common
  import opened ByteRating
  import opened Correlation
  import opened Matcher
  import opened Ranking
  import opened Acceptance
  import opened Builder
  import opened Applier

  /** profile(d) = 1 / sqrt(1 + d), stated without the root. */
  ghost predicate InverseRoot(profile: nat -> real) {
    forall d: nat :: 0.0 < profile(d) && profile(d) * profile(d) * (1 + d) as real == 1.0
  }

  /** The weight of the outermost context byte, the smallest of all. */
  function FarWeight(profile: nat -> real, extend: nat): real {
    if extend == 0 then 1.0 else profile(extend)
  }

  /** Total weight of the context bytes on one side. */
  function SideWeight(profile: nat -> real, extend: nat): real {
    if extend == 0 then 0.0 else SideWeight(profile, extend - 1) + profile(extend)
  }

  /** The total weight of a pattern with n changed bytes and extend context bytes on either side. */
  function PatternWeight(profile: nat -> real, extend: nat, n: nat): real {
    n as real + 2.0 * SideWeight(profile, extend)
  }

  function SymmetricWeights(profile: nat -> real, extend: nat, n: nat): (w: seq<real>)
    ensures |w| == n + 2 * extend
    ensures Positive(profile) ==> AllPositive(w)
  {
    Weights(profile, n + 2 * extend, extend, n)
  }

  lemma {:induction false} WeightSumValue(profile: nat -> real, extend: nat, n: nat, k: nat)
    requires k <= n + 2 * extend
    ensures WeightSum(SymmetricWeights(profile, extend, n), k) ==
            if k <= extend then SideWeight(profile, extend) - SideWeight(profile, extend - k)
            else if k <= extend + n then SideWeight(profile, extend) + (k - extend) as real
            else SideWeight(profile, extend) + n as real + SideWeight(profile, k - extend - n)
  {
    if k == 0 {
    } else {
      WeightSumValue(profile, extend, n, k - 1);
      assert SymmetricWeights(profile, extend, n)[k - 1] == WeightAt(profile, extend, n, k - 1);
    }
  }

  lemma RootIsPositive(profile: nat -> real)
    requires InverseRoot(profile)
    ensures Positive(profile)
  {
  }

  /** The profile decreases with the distance. */
  lemma RootDecreases(profile: nat -> real, d: nat, e: nat)
    requires InverseRoot(profile) && d <= e
    ensures profile(e) <= profile(d) <= 1.0
  {
    SmallerRoot(profile(d), profile(e), (1 + d) as real, (1 + e) as real);
    SmallerRoot(1.0, profile(d), 1.0, (1 + d) as real);
  }

  lemma SmallerRoot(x: real, y: real, a: real, b: real)
    requires 0.0 < x && 0.0 < y && 0.0 < a <= b
    requires x * x * a == 1.0 && y * y * b == 1.0
    ensures y <= x
  {
    if x < y {
      ProductMonotone(x, y, x, y);
      ProductMonotone(x * x, y * y, a, b);
      assert false;
    }
  }

  lemma FarWeightIsLeast(profile: nat -> real, extend: nat, n: nat, i: nat)
    requires InverseRoot(profile) && i < n + 2 * extend
    ensures 0.0 < FarWeight(profile, extend) <= SymmetricWeights(profile, extend, n)[i] <= 1.0
    ensures SymmetricWeights(profile, extend, n)[0] == FarWeight(profile, extend)
  {
    var d := Distance(extend, n, i);
    if extend > 0 {
      RootDecreases(profile, d, extend);
      RootDecreases(profile, 0, extend);
    }
  }

  // ----- the exact condition -----

  /** A window that is not the pattern and yet counts as an exact match. */
  ghost predicate NearMiss(window: seq<Byte>, pat: seq<Byte>, w: seq<real>)
    requires Usable(pat, pat, w)
  {
    |window| == |pat| && window != pat && EXACT <= Similarity(window, 0, pat, w)
  }

  lemma BelowExact(score: real, self: real)
    requires 0.0 < self
    ensures score * (1.0 / self) < EXACT <==> score < EXACT * self
  {
    ScaleMonotone(score, EXACT * self, 1.0 / self);
    ScaleMonotone(EXACT * self, score, 1.0 / self);
    assert (EXACT * self) * (1.0 / self) == EXACT;
  }

  /** A window that differs loses at least 5 times the outermost weight. */
  lemma DifferenceCosts(profile: nat -> real, extend: nat, n: nat, image: seq<Byte>, pos: nat, pat: seq<Byte>)
    requires InverseRoot(profile) && 0 < n && |pat| == n + 2 * extend && pos + |pat| <= |image|
    requires image[pos..pos + |pat|] != pat
    ensures Corr(image, pos, pat, SymmetricWeights(profile, extend, n), |pat|) <=
            16.0 * PatternWeight(profile, extend, n) - 5.0 * FarWeight(profile, extend)
  {
    var w := SymmetricWeights(profile, extend, n);
    RootIsPositive(profile);
    SelfScoreIsUniqueMaximum(image, pos, pat, w);
    WeightSumValue(profile, extend, n, |w|);
    MissWeightCovers(image, pos, pat, w, |pat|);
    WindowEquality(image, pos, pat);
    var i: nat :| i < |pat| && image[pos + i] != pat[i];
    FarWeightIsLeast(profile, extend, n, i);
  }

  /** Flipping the lowest bit of the first byte loses exactly that much. */
  lemma {:induction false} FlippedScore(a: seq<Byte>, pos: nat, pat: seq<Byte>, w: seq<real>, k: nat)
    requires 0 < k <= |pat| == |w| && pos + |pat| <= |a|
    requires a[pos] == pat[0] ^ 1 && forall i :: 0 < i < |pat| ==> a[pos + i] == pat[i]
    ensures Corr(a, pos, pat, w, k) == 16.0 * WeightSum(w, k) - 5.0 * w[0]
  {
    if k == 1 {
      LowestBitCostsFive(pat[0]);
      assert Corr(a, pos, pat, w, 0) == 0.0 && WeightSum(w, 0) == 0.0;
    } else {
      FlippedScore(a, pos, pat, w, k - 1);
      XorRateSeparates(a[pos + k - 1], pat[k - 1]);
    }
  }

  /** The self-score in terms of the pattern weight. */
  lemma SymmetricSelfScore(profile: nat -> real, extend: nat, n: nat, image: seq<Byte>, pat: seq<Byte>)
    requires InverseRoot(profile) && 0 < n && |pat| == n + 2 * extend && |pat| <= |image|
    ensures Usable(image, pat, SymmetricWeights(profile, extend, n))
    ensures SelfScore(pat, SymmetricWeights(profile, extend, n)) == 16.0 * PatternWeight(profile, extend, n)
  {
    var w := SymmetricWeights(profile, extend, n);
    RootIsPositive(profile);
    UsableIf(image, pat, w);
    WeightSumValue(profile, extend, n, |w|);
    SelfScoreValue(pat, w);
  }

  /** Below the bound, only the pattern itself reaches the threshold. */
  lemma DifferentIsBelow(profile: nat -> real, extend: nat, n: nat, image: seq<Byte>, pos: nat, pat: seq<Byte>)
    requires InverseRoot(profile) && 0 < n && |pat| == n + 2 * extend && pos + |pat| <= |image|
    requires Usable(image, pat, SymmetricWeights(profile, extend, n))
    requires PatternWeight(profile, extend, n) < 3125.0 * FarWeight(profile, extend)
    requires image[pos..pos + |pat|] != pat
    ensures Similarity(image, pos, pat, SymmetricWeights(profile, extend, n)) < EXACT
  {
    hide InverseRoot, Usable, Corr, SelfScore, PatternWeight, FarWeight, SymmetricWeights;
    var w := SymmetricWeights(profile, extend, n);
    SymmetricSelfScore(profile, extend, n, image, pat);
    DifferenceCosts(profile, extend, n, image, pos, pat);
    UsableSelfScore(image, pat, w);
    BelowExact(Corr(image, pos, pat, w, |pat|), SelfScore(pat, w));
  }

  lemma UsableSelfScore(image: seq<Byte>, pat: seq<Byte>, w: seq<real>)
    requires Usable(image, pat, w)
    ensures 0 < |pat| == |w| && 0.0 < SelfScore(pat, w)
  {
  }

  /** At or above the bound, flipping one bit of the outermost byte stays unnoticed. */
  lemma FlipIsNearMiss(profile: nat -> real, extend: nat, n: nat, pat: seq<Byte>) returns (window: seq<Byte>)
    requires InverseRoot(profile) && 0 < n && |pat| == n + 2 * extend
    requires Usable(pat, pat, SymmetricWeights(profile, extend, n))
    requires PatternWeight(profile, extend, n) >= 3125.0 * FarWeight(profile, extend)
    ensures NearMiss(window, pat, SymmetricWeights(profile, extend, n))
  {
    hide InverseRoot, Usable, Corr, SelfScore, PatternWeight, FarWeight, SymmetricWeights, XorRate, WeightSum;
    var w := SymmetricWeights(profile, extend, n);
    window := [pat[0] ^ 1] + pat[1..];
    LowestBitCostsFive(pat[0]);
    FlippedScore(window, 0, pat, w, |pat|);
    SymmetricSelfScore(profile, extend, n, pat, pat);
    SelfScoreValue(pat, w);
    FarWeightIsLeast(profile, extend, n, 0);
    BelowExact(Corr(window, 0, pat, w, |pat|), SelfScore(pat, w));
  }

  /** The threshold separates the pattern from all other windows exactly when the total weight is
      less than 3125 times the outermost weight. */
  lemma ThresholdExactly(profile: nat -> real, extend: nat, n: nat, pat: seq<Byte>)
    requires InverseRoot(profile) && 0 < n && |pat| == n + 2 * extend
    ensures Usable(pat, pat, SymmetricWeights(profile, extend, n))
    ensures (forall window :: !NearMiss(window, pat, SymmetricWeights(profile, extend, n))) <==>
            PatternWeight(profile, extend, n) < 3125.0 * FarWeight(profile, extend)
  {
    hide InverseRoot, Usable, PatternWeight, FarWeight, SymmetricWeights, Similarity;
    var w := SymmetricWeights(profile, extend, n);
    SymmetricSelfScore(profile, extend, n, pat, pat);
    if PatternWeight(profile, extend, n) < 3125.0 * FarWeight(profile, extend) {
      forall window | |window| == |pat| && window != pat ensures !NearMiss(window, pat, w) {
        assert window[0..0 + |pat|] == window;
        SymmetricSelfScore(profile, extend, n, window, pat);
        DifferentIsBelow(profile, extend, n, window, 0, pat);
      }
    } else {
      var window := FlipIsNearMiss(profile, extend, n, pat);
    }
  }

  /** Under that condition a window anywhere in an image is an exact match exactly when it is the pattern. */
  lemma ExactMeansEqual(profile: nat -> real, extend: nat, n: nat, image: seq<Byte>, pos: nat, pat: seq<Byte>)
    requires InverseRoot(profile) && 0 < n && |pat| == n + 2 * extend && pos + |pat| <= |image|
    requires PatternWeight(profile, extend, n) < 3125.0 * FarWeight(profile, extend)
    ensures Usable(image, pat, SymmetricWeights(profile, extend, n))
    ensures EXACT <= Similarity(image, pos, pat, SymmetricWeights(profile, extend, n)) <==>
            image[pos..pos + |pat|] == pat
  {
    SymmetricSelfScore(profile, extend, n, image, pat);
    SimilarityBounds(image, pos, pat, SymmetricWeights(profile, extend, n));
    if image[pos..pos + |pat|] != pat {
      DifferentIsBelow(profile, extend, n, image, pos, pat);
    }
  }

  // ----- closed forms -----

  /** One more context byte adds at most twice the growth of the root. */
  lemma RootStep(x: real, a: real, b: real)
    requires 0.0 < x && x * a == 1.0 && 0.0 < b <= a && a * a - b * b == 1.0
    ensures x <= 2.0 * (a - b)
  {
    assert (a - b) * (a + b) == 1.0;
    ProductMonotone(a + b, 2.0 * a, a - b, a - b);
    assert 1.0 <= (2.0 * a) * (a - b);
    ProductMonotone(x, x, 1.0, (2.0 * a) * (a - b));
    assert x * ((2.0 * a) * (a - b)) == (x * a) * (2.0 * (a - b));
  }

  /** sqrt(1 + d) */
  function Root(profile: nat -> real, d: nat): real {
    (1 + d) as real * profile(d)
  }

  lemma RootSquared(profile: nat -> real, d: nat)
    requires InverseRoot(profile)
    ensures 0.0 < Root(profile, d) && Root(profile, d) * profile(d) == 1.0
    ensures Root(profile, d) * Root(profile, d) == (1 + d) as real
  {
    var x, m := profile(d), (1 + d) as real;
    assert x * x * m == 1.0;
    assert (m * x) * x == x * x * m;
    assert (m * x) * (m * x) == m * (x * x * m);
  }

  lemma {:induction false} SideWeightBound(profile: nat -> real, extend: nat)
    requires InverseRoot(profile)
    ensures SideWeight(profile, extend) <= 2.0 * (Root(profile, extend) - 1.0)
  {
    RootSquared(profile, extend);
    if extend == 0 {
      RootDecreases(profile, 0, 0);
      SmallerRoot(profile(0), 1.0, 1.0, 1.0);
    } else {
      SideWeightBound(profile, extend - 1);
      RootSquared(profile, extend - 1);
      var a, b := Root(profile, extend), Root(profile, extend - 1);
      if a < b {
        ProductMonotone(a, b, a, b);
      }
      RootStep(profile(extend), a, b);
    }
  }

  /** One more context byte adds at least twice the growth of the root after it. */
  lemma RootStepBack(x: real, a: real, b: real)
    requires 0.0 < x && x * b == 1.0 && 0.0 < b <= a && a * a - b * b == 1.0
    ensures 2.0 * (a - b) <= x
  {
    assert (a - b) * (a + b) == 1.0;
    ProductMonotone(2.0 * b, a + b, a - b, a - b);
    assert (2.0 * b) * (a - b) <= 1.0;
    ProductMonotone(x, x, (2.0 * b) * (a - b), 1.0);
    assert x * ((2.0 * b) * (a - b)) == (x * b) * (2.0 * (a - b));
  }

  lemma RootGrows(profile: nat -> real, d: nat)
    requires InverseRoot(profile)
    ensures Root(profile, d) <= Root(profile, d + 1)
  {
    RootSquared(profile, d);
    RootSquared(profile, d + 1);
    var a, b := Root(profile, d + 1), Root(profile, d);
    if a < b {
      ProductMonotone(a, b, a, b);
    }
  }

  lemma {:induction false} SideWeightLowerBound(profile: nat -> real, extend: nat)
    requires InverseRoot(profile)
    ensures 2.0 * (Root(profile, extend + 1) - Root(profile, 1)) <= SideWeight(profile, extend)
  {
    if extend == 0 {
    } else {
      SideWeightLowerBound(profile, extend - 1);
      RootSquared(profile, extend);
      RootSquared(profile, extend + 1);
      RootGrows(profile, extend);
      RootStepBack(profile(extend), Root(profile, extend + 1), Root(profile, extend));
    }
  }

  /** A condition on the two lengths alone that is enough: n changed bytes in extend bytes of context
      on either side. */
  predicate ShortEnough(extend: nat, n: nat) {
    var x, r := n as real - 4.0, 3121.0 - 4.0 * extend as real;
    0.0 < r && (n <= 4 || x * x * (1.0 + extend as real) < r * r)
  }

  lemma SquareRootOrder(x: real, y: real, s: real, m: real)
    requires 0.0 <= x && 0.0 < y && 0.0 < s && s * s == m && x * x * m < y * y
    ensures x * s < y
  {
    if y <= x * s {
      ProductMonotone(y, x * s, y, x * s);
    }
    SquareOfProduct(x, s);
  }

  lemma SquareOfProduct(x: real, s: real)
    ensures (x * s) * (x * s) == x * x * (s * s)
  {
    var p := x * s;
    calc {
      p * p;
      { MulAssociates(p, x, s); }
      (p * x) * s;
      { MulCommutes(p, x); }
      (x * p) * s;
      { MulAssociates(x, x, s); }
      ((x * x) * s) * s;
      { MulAssociates(x * x, s, s); }
      (x * x) * (s * s);
    }
  }

  lemma MulDistributes(a: real, b: real, c: real)
    ensures (a + b) * c == a * c + b * c
  {
  }

  lemma MulCommutes(a: real, b: real)
    ensures a * b == b * a
  {
  }

  lemma ShortEnoughSeparates(profile: nat -> real, extend: nat, n: nat)
    requires InverseRoot(profile) && ShortEnough(extend, n)
    ensures PatternWeight(profile, extend, n) < 3125.0 * FarWeight(profile, extend)
  {
    hide InverseRoot, Root, FarWeight, SideWeight;
    var s := Root(profile, extend);
    RootSquared(profile, extend);
    SideWeightBound(profile, extend);
    FarTimesRoot(profile, extend);
    RootBound(extend, n, s);
    Divide((n as real - 4.0) + 4.0 * s, s, 3125.0, FarWeight(profile, extend));
  }

  lemma BelowRoot(extend: nat, n: nat, s: real)
    requires ShortEnough(extend, n) && 0.0 < s && s * s == 1.0 + extend as real
    ensures (n as real - 4.0) * s < 3121.0 - 4.0 * extend as real
  {
    var x, r := n as real - 4.0, 3121.0 - 4.0 * extend as real;
    if n > 4 {
      SquareRootOrder(x, r, s, 1.0 + extend as real);
    } else {
      NotPositiveProduct(x, s);
    }
  }

  lemma NotPositiveProduct(x: real, s: real)
    requires x <= 0.0 < s
    ensures x * s <= 0.0
  {
  }

  /** The condition, with the root s of 1 + extend made explicit. */
  lemma RootBound(extend: nat, n: nat, s: real)
    requires ShortEnough(extend, n) && 0.0 < s && s * s == 1.0 + extend as real
    ensures ((n as real - 4.0) + 4.0 * s) * s < 3125.0
  {
    var x := n as real - 4.0;
    BelowRoot(extend, n, s);
    MulDistributes(x, 4.0 * s, s);
    MulAssociates(4.0, s, s);
  }

  lemma FarTimesRoot(profile: nat -> real, extend: nat)
    requires InverseRoot(profile)
    ensures FarWeight(profile, extend) * Root(profile, extend) == 1.0 && 0.0 < FarWeight(profile, extend)
  {
    RootSquared(profile, extend);
    if extend == 0 {
      SmallerRoot(profile(0), 1.0, 1.0, 1.0);
      SmallerRoot(1.0, profile(0), 1.0, 1.0);
    }
  }

  lemma Divide(x: real, s: real, c: real, inv: real)
    requires 0.0 < s && 0.0 < inv && inv * s == 1.0 && x * s < c
    ensures x < c * inv
  {
    ScaleMonotone(x * s, c, inv);
    assert (x * s) * inv == x * (inv * s);
  }

  lemma ShortEnoughMonotone(extend: nat, n: nat, e: nat, m: nat)
    requires ShortEnough(e, m) && extend <= e && n <= m
    ensures ShortEnough(extend, n)
  {
    if n > 4 {
      var x, y := n as real - 4.0, m as real - 4.0;
      var r, q := 3121.0 - 4.0 * e as real, 3121.0 - 4.0 * extend as real;
      ProductMonotone(x, y, x, y);
      ProductMonotone(r, q, r, q);
      ProductMonotone(x * x, y * y, 1.0 + extend as real, 1.0 + e as real);
    }
  }

  /** The condition holds for every extend of at most 512 when at most 51 bytes change, and for every
      first round of the widening when at most 1000 do. */
  lemma UsualContextsAreShort(extend: nat, n: nat)
    ensures extend <= 512 && n <= 51 ==> ShortEnough(extend, n)
    ensures extend <= 8 && n <= 1000 ==> ShortEnough(extend, n)
  {
    assert ShortEnough(512, 51) && ShortEnough(8, 1000);
    if extend <= 512 && n <= 51 {
      ShortEnoughMonotone(extend, n, 512, 51);
    }
    if extend <= 8 && n <= 1000 {
      ShortEnoughMonotone(extend, n, 8, 1000);
    }
  }

  // ----- what it means for the applier -----

  /** The pattern of the patch occurs at scanned position p. */
  ghost predicate OccursAt(orig: seq<Byte>, e: Edit, p: nat) {
    p + |e.matchBytes| < |orig| && orig[p..p + |e.matchBytes|] == e.matchBytes
  }

  ghost predicate OccursOnlyAt(orig: seq<Byte>, e: Edit, p: nat) {
    OccursAt(orig, e, p) && forall q: nat :: OccursAt(orig, e, q) ==> q == p
  }

  /** For patches with symmetric context of moderate length and with fuzzing off, the applier applies a
      patch exactly when its pattern occurs at one and only one scanned position, and it does so there. */
  lemma AppliedIffUniqueOccurrence(profile: nat -> real, orig: seq<Byte>, e: Edit, fuzzLevel: int, d: Option<int>)
    requires InverseRoot(profile) && Positive(profile) && WellFormed(orig, e) && 100 <= fuzzLevel
    requires 0 < |e.patchBytes| && 0 <= e.patchOffset && |e.matchBytes| == |e.patchBytes| + 2 * e.patchOffset
    requires ShortEnough(e.patchOffset, |e.patchBytes|)
    requires Decides(profile, orig, e, fuzzLevel, d)
    ensures d.Some? <==> exists p :: OccursOnlyAt(orig, e, p)
    ensures d.Some? ==> e.patchOffset <= d.value && OccursOnlyAt(orig, e, d.value - e.patchOffset)
  {
    hide Decides, ExactAt, OccursAt, ShortEnough, InverseRoot, WellFormed;
    forall p: nat ensures ExactAt(profile, orig, e, p) <==> OccursAt(orig, e, p) {
      ExactIsOccurrence(profile, orig, e, p);
    }
    AppliedWithoutFuzz(profile, orig, e, fuzzLevel, d);
    if d.Some? {
      var p :| OnlyExactAt(profile, orig, e, p);
      UniqueMatchIsApplied(profile, orig, e, fuzzLevel, d, p);
      assert OccursOnlyAt(orig, e, p);
    }
    if exists p :: OccursOnlyAt(orig, e, p) {
      var p: nat :| OccursOnlyAt(orig, e, p);
      assert OnlyExactAt(profile, orig, e, p);
    }
  }

  lemma ExactIsOccurrence(profile: nat -> real, orig: seq<Byte>, e: Edit, p: nat)
    requires InverseRoot(profile) && Positive(profile) && WellFormed(orig, e)
    requires 0 < |e.patchBytes| && 0 <= e.patchOffset && |e.matchBytes| == |e.patchBytes| + 2 * e.patchOffset
    requires ShortEnough(e.patchOffset, |e.patchBytes|)
    ensures ExactAt(profile, orig, e, p) <==> OccursAt(orig, e, p)
  {
    hide ShortEnough, Similarity, Usable;
    var x, n := e.patchOffset, |e.patchBytes|;
    assert EditWeights(profile, e) == SymmetricWeights(profile, x, n);
    if p < Positions(orig, e.matchBytes) {
      ShortEnoughSeparates(profile, x, n);
      ExactMeansEqual(profile, x, n, orig, p, e.matchBytes);
    }
  }
}
