/** What the best and the second-best similarity say about the scanned positions. */
module Ranking {
  import opened Common
  import opened ByteRating
  import opened Correlation
  import opened TopSelection
  import opened Matcher

  /** pos is scanned and its window has the best similarity. */
  ghost predicate Wins(image: seq<Byte>, pos: nat, pat: seq<Byte>, w: seq<real>)
    requires Usable(image, pat, w)
  {
    pos < Positions(image, pat) && Similarity(image, pos, pat, w) == Ranked(image, pat, w, 0)
  }

  /** The simple form itself satisfies the matcher's contract, for any number of results. */
  lemma Reference(image: seq<Byte>, pat: seq<Byte>, w: seq<real>, k: nat) returns (r: seq<Rating>)
    requires Usable(image, pat, w) && 0 < k
    ensures Found(image, pat, w, k, r)
  {
    var raw := BestOf(AllScores(image, pat, w), k);
    ScoresNonNegative(image, pat, w);
    BestOfIsTop(AllScores(image, pat, w), k, 0);
    RawTopMatches(image, pat, w, raw, k);
    r := CalibrateAll(raw, pat, w);
  }

  lemma SimilarityBounds(image: seq<Byte>, pos: nat, pat: seq<Byte>, w: seq<real>)
    requires Usable(image, pat, w) && pos + |pat| <= |image|
    ensures 0.0 <= Similarity(image, pos, pat, w) <= 1.0
    ensures Similarity(image, pos, pat, w) == 1.0 <==> image[pos..pos + |pat|] == pat
  {
    SelfScoreIsUniqueMaximum(image, pos, pat, w);
    var c := Corr(image, pos, pat, w, |pat|);
    CalibrateMonotone(c, 0.0, pat, w);
    CalibrateMonotone(c, SelfScore(pat, w), pat, w);
    CalibrateMonotone(SelfScore(pat, w), c, pat, w);
  }

  /** Results come best first. */
  lemma RankedDescends(image: seq<Byte>, pat: seq<Byte>, w: seq<real>, i: nat, j: nat)
    requires Usable(image, pat, w) && i <= j
    ensures Ranked(image, pat, w, j) <= Ranked(image, pat, w, i)
  {
    hide BestOf, TopOf, Scores, Calibrate, AllPositive;
    var E := AllScores(image, pat, w);
    ScoresNonNegative(image, pat, w);
    BestOfDescends(E, i, j);
    CalibrateMonotone(BestOf(E, i + 1)[i].score, BestOf(E, j + 1)[j].score, pat, w);
  }

  lemma BestOfDescends(E: seq<Rating>, i: nat, j: nat)
    requires NonNegative(E) && i <= j
    ensures BestOf(E, j + 1)[j].score <= BestOf(E, i + 1)[i].score
  {
    hide BestOf;
    BestOfIsTop(E, j + 1, 0);
    BestOfIndependentOfK(E, i + 1, j + 1, i);
  }

  lemma RankedBounds(image: seq<Byte>, pat: seq<Byte>, w: seq<real>)
    requires Usable(image, pat, w)
    ensures 0.0 <= Ranked(image, pat, w, 1) <= Ranked(image, pat, w, 0) <= 1.0
  {
    RankedDescends(image, pat, w, 0, 1);
    var r := Reference(image, pat, w, 2);
    forall i | 0 <= i < 2 ensures 0.0 <= r[i].score <= 1.0 {
      if r[i] != DEFAULT_RATING {
        assert Genuine(image, pat, w, r[i]);
        SimilarityBounds(image, r[i].pos, pat, w);
      }
    }
  }

  lemma BestIsMaximum(image: seq<Byte>, p: nat, pat: seq<Byte>, w: seq<real>)
    requires Usable(image, pat, w) && p < Positions(image, pat)
    ensures Similarity(image, p, pat, w) <= Ranked(image, pat, w, 0)
  {
    var r := Reference(image, pat, w, 1);
    var x := Rating(Similarity(image, p, pat, w), p);
    assert r[0].score == Ranked(image, pat, w, 0);
    assert x.score > Ranked(image, pat, w, 0) ==> x in r;
  }

  /** A position that beats the second best is the only one to do so, and it wins. */
  lemma BeatsSecond(image: seq<Byte>, p: nat, q: nat, pat: seq<Byte>, w: seq<real>)
    requires Usable(image, pat, w) && p < Positions(image, pat) && q < Positions(image, pat)
    requires Similarity(image, p, pat, w) > Ranked(image, pat, w, 1)
    requires Similarity(image, q, pat, w) > Ranked(image, pat, w, 1)
    ensures p == q && Wins(image, p, pat, w)
  {
    var r := Reference(image, pat, w, 2);
    var x, y := Rating(Similarity(image, p, pat, w), p), Rating(Similarity(image, q, pat, w), q);
    assert x in r && y in r;
    assert r[1].score == Ranked(image, pat, w, 1);
    assert r[0] == x && r[0] == y;
  }

  /** A positive second best is reached at two different positions. */
  lemma SecondIsReached(image: seq<Byte>, pat: seq<Byte>, w: seq<real>) returns (p: nat, q: nat)
    requires Usable(image, pat, w) && 0.0 < Ranked(image, pat, w, 1)
    ensures p != q && Wins(image, p, pat, w) && q < Positions(image, pat)
    ensures Similarity(image, q, pat, w) == Ranked(image, pat, w, 1)
  {
    RankedDescends(image, pat, w, 0, 1);
    var r := Reference(image, pat, w, 2);
    p, q := r[0].pos, r[1].pos;
    assert r[0].score == Ranked(image, pat, w, 0) && r[1].score == Ranked(image, pat, w, 1);
    assert Genuine(image, pat, w, r[0]) && Genuine(image, pat, w, r[1]);
  }

  lemma BestIsReached(image: seq<Byte>, pat: seq<Byte>, w: seq<real>) returns (p: nat)
    requires Usable(image, pat, w) && 0.0 < Ranked(image, pat, w, 0)
    ensures Wins(image, p, pat, w)
  {
    var r := Reference(image, pat, w, 1);
    p := r[0].pos;
    assert r[0].score == Ranked(image, pat, w, 0);
    assert Genuine(image, pat, w, r[0]);
  }

  /** A threshold separates the best from the second best exactly when one scanned window reaches it. */
  lemma OneWindowReaches(image: seq<Byte>, pat: seq<Byte>, w: seq<real>, t: real)
    requires Usable(image, pat, w) && 0.0 < t
    ensures Ranked(image, pat, w, 1) < t <= Ranked(image, pat, w, 0) <==>
            exists p :: Only(image, p, pat, w, t)
  {
    RankedDescends(image, pat, w, 0, 1);
    if Ranked(image, pat, w, 1) < t <= Ranked(image, pat, w, 0) {
      var p := BestIsReached(image, pat, w);
      forall q: nat | q < Positions(image, pat) && t <= Similarity(image, q, pat, w) ensures q == p {
        BeatsSecond(image, p, q, pat, w);
      }
      assert Only(image, p, pat, w, t);
    }
    if exists p :: Only(image, p, pat, w, t) {
      var p :| Only(image, p, pat, w, t);
      BestIsMaximum(image, p, pat, w);
      if t <= Ranked(image, pat, w, 1) {
        var a, b := SecondIsReached(image, pat, w);
      }
    }
  }

  /** p is the one scanned position whose window reaches t. */
  ghost predicate Only(image: seq<Byte>, p: nat, pat: seq<Byte>, w: seq<real>, t: real)
    requires Usable(image, pat, w)
  {
    && p < Positions(image, pat) && t <= Similarity(image, p, pat, w)
    && forall q: nat :: q < Positions(image, pat) && t <= Similarity(image, q, pat, w) ==> q == p
  }

  /** A pattern that occurs at two scanned positions has a perfect runner-up. */
  lemma TwoOccurrences(image: seq<Byte>, p: nat, q: nat, pat: seq<Byte>, w: seq<real>)
    requires Usable(image, pat, w) && p < q < Positions(image, pat)
    requires image[p..p + |pat|] == pat && image[q..q + |pat|] == pat
    ensures Ranked(image, pat, w, 1) == 1.0
  {
    RankedBounds(image, pat, w);
    SimilarityBounds(image, p, pat, w);
    SimilarityBounds(image, q, pat, w);
    if Ranked(image, pat, w, 1) < 1.0 {
      BeatsSecond(image, p, q, pat, w);
    }
  }

  /** With two scanned positions, the first of them perfect and the second not, the second is the runner-up. */
  lemma RunnerUpOfTwo(image: seq<Byte>, pat: seq<Byte>, w: seq<real>)
    requires Usable(image, pat, w) && Positions(image, pat) == 2
    requires 0.0 < Similarity(image, 1, pat, w) < Similarity(image, 0, pat, w)
    ensures Ranked(image, pat, w, 1) == Similarity(image, 1, pat, w)
  {
    if Ranked(image, pat, w, 1) < Similarity(image, 1, pat, w) {
      BeatsSecond(image, 0, 1, pat, w);
    }
    var p, q := SecondIsReached(image, pat, w);
    BestIsMaximum(image, 0, pat, w);
  }

  /** Similarities of windows that differ in byte i only. */
  lemma OneByteSimilarity(image: seq<Byte>, p: nat, q: nat, pat: seq<Byte>, w: seq<real>, i: nat)
    requires Usable(image, pat, w) && p + |pat| <= |image| && q + |pat| <= |image| && i < |pat|
    requires AgreeExceptAt(image, p, image, q, |pat|, i)
    ensures 0.0 < WeightSum(w, |w|)
    ensures Similarity(image, p, pat, w) - Similarity(image, q, pat, w) ==
            w[i] * (XorRate(image[p + i], pat[i]) - XorRate(image[q + i], pat[i])) as real / (16.0 * WeightSum(w, |w|))
  {
    hide Usable, Corr, SelfScore, WeightSum, XorRate, AllPositive;
    UsableParts(image, pat, w);
    SelfScoreValue(pat, w);
    OneByteChange(image, p, image, q, pat, w, |pat|, i);
    QuotientOfDifference(Corr(image, p, pat, w, |pat|), Corr(image, q, pat, w, |pat|), SelfScore(pat, w));
  }

  /** A window that differs from its pattern in byte i only loses that byte's share. */
  lemma SingleMismatch(image: seq<Byte>, p: nat, pat: seq<Byte>, w: seq<real>, i: nat)
    requires Usable(image, pat, w) && p + |pat| <= |image| && i < |pat|
    requires AgreeExceptAt(image, p, pat, 0, |pat|, i)
    ensures 0.0 < WeightSum(w, |w|)
    ensures Similarity(image, p, pat, w) ==
            1.0 - w[i] * (16 - XorRate(image[p + i], pat[i])) as real / (16.0 * WeightSum(w, |w|))
  {
    hide Usable, Corr, SelfScore, WeightSum, XorRate, AllPositive;
    UsableParts(image, pat, w);
    SelfScoreValue(pat, w);
    OneByteChange(image, p, pat, 0, pat, w, |pat|, i);
    XorRateSeparates(pat[i], pat[i]);
    CalibrateMonotone(0.0, 0.0, pat, w);
    var self, rate := SelfScore(pat, w), XorRate(image[p + i], pat[i]);
    SelfIsCorr(pat, w);
    QuotientOfDifference(Corr(image, p, pat, w, |pat|), self, self);
    NegatedShare(w[i], rate, self);
  }

  lemma UsableParts(image: seq<Byte>, pat: seq<Byte>, w: seq<real>)
    requires Usable(image, pat, w)
    ensures 0 < |pat| == |w| && AllPositive(w) && 0.0 < SelfScore(pat, w)
  {
  }

  lemma SelfIsCorr(pat: seq<Byte>, w: seq<real>)
    requires |pat| == |w|
    ensures SelfScore(pat, w) == Corr(pat, 0, pat, w, |pat|)
  {
  }

  lemma QuotientOfDifference(x: real, y: real, c: real)
    requires c != 0.0
    ensures x * (1.0 / c) - y * (1.0 / c) == (x - y) / c
  {
  }

  lemma NegatedShare(weight: real, rate: int, c: real)
    requires c != 0.0
    ensures weight * (rate - 16) as real / c == -(weight * (16 - rate) as real / c)
  {
    assert (rate - 16) as real == -((16 - rate) as real);
    assert weight * (rate - 16) as real == -(weight * (16 - rate) as real);
  }

  /** A pattern that is the whole image is never scanned; its best similarity is the default 0. */
  lemma NothingScannedIsZero(image: seq<Byte>, pat: seq<Byte>, w: seq<real>)
    requires Usable(image, pat, w) && Positions(image, pat) == 0
    ensures Ranked(image, pat, w, 0) == 0.0
  {
    hide Ranked;
    RankedBounds(image, pat, w);
    if 0.0 < Ranked(image, pat, w, 0) {
      var q := BestIsReached(image, pat, w);
    }
  }
}
