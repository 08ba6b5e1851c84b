/** A family of images, one for every round of the widening search with an extend of at least 1024, on
    which a diff succeeds in that round and its patch is then skipped as ambiguous: so long a context
    outweighs the one bit that tells its two nearest windows apart. */
module AmbiguousExample {
  import opened Common
  import opened ByteRating
  import opened Correlation
  import opened Matcher
  import opened Ranking
  import opened Acceptance
  import opened Segmenter
  import opened Builder
  import opened Diff
  import opened Applier
  import opened RoundTrip
  import opened Threshold

  /** A one followed by zeros. */
  function Lone(e: nat): (r: seq<Byte>)
    ensures |r| == 2 * e + 3
    ensures forall i :: 0 <= i < |r| ==> r[i] == if i == 0 then 1 else 0
  {
    [1] + seq(2 * e + 2, i => 0)
  }

  /** ... with the byte at e changed. */
  function Touched(e: nat, x: Byte): (r: seq<Byte>)
    ensures |r| == 2 * e + 3
  {
    Lone(e)[e := x]
  }

  lemma OneSegment(e: nat, x: Byte)
    requires 0 < e && x != 0
    ensures Segments(Lone(e), Touched(e, x), 0) == [Segment(e, e + 1)]
  {
    var orig, patched, s := Lone(e), Touched(e, x), Segment(e, e + 1);
    assert forall i: nat :: Differ(orig, patched, i) <==> i == e;
    assert Contains([s][0], e);
    SegmentsCanonical(orig, patched, 0);
    CanonicalUnique(orig, patched, 0, Segments(orig, patched, 0), [s]);
  }

  // ----- the rounds before -----

  /** A context of at most half the width is all zeros and occurs twice, so it is rejected. */
  lemma NarrowIsRejected(profile: nat -> real, e: nat, narrow: nat)
    requires Positive(profile) && 0 < e && 2 * narrow <= e
    ensures InRange(Lone(e), e, e + 1, narrow) && !Accepted(profile, Lone(e), e, e + 1, narrow)
  {
    hide Ranked, Accepts, Usable, ContextWeights;
    var orig := Lone(e);
    var pat, w := Context(orig, e, e + 1, narrow), ContextWeights(profile, orig, e, e + 1, narrow);
    ContextUsable(profile, orig, e, e + 1, narrow);
    assert orig[1..1 + |pat|] == pat && orig[2..2 + |pat|] == pat;
    TwoOccurrences(orig, 1, 2, pat, w);
    RejectsPerfect(narrow);
  }

  lemma EarlierIsNarrow(j: nat, k: nat)
    requires j < k
    ensures 2 * Extend(1, j) <= Extend(1, k)
  {
    Pow2Grows(j, k - 1);
  }

  lemma AllNarrowRejected(profile: nat -> real, k: nat)
    requires Positive(profile)
    ensures var e := Extend(1, k); Reached(profile, Lone(e), e, e + 1, k)
  {
    hide Accepted, Extend;
    var e := Extend(1, k);
    var orig, end := Lone(e), e + 1;
    forall j: nat | j < k ensures Rejected(profile, orig, e, end, j) {
      EarlierIsNarrow(j, k);
      ExtendIsPositive(k);
      NarrowIsRejected(profile, e, Extend(1, j));
    }
  }

  lemma ExtendIsPositive(k: nat)
    ensures 0 < Extend(1, k) == 8 * Pow2(k)
  {
  }

  // ----- the round itself -----

  /** Bounds on the weight of a pattern with one changed byte. */
  lemma OneByteWeight(profile: nat -> real, e: nat)
    requires InverseRoot(profile) && 1024 <= e
    ensures 3125.0 * FarWeight(profile, e) <= PatternWeight(profile, e, 1) <= 4.0 * Root(profile, e)
  {
    hide InverseRoot, SideWeight, Root, FarWeight;
    var s := Root(profile, e);
    RootSquared(profile, e);
    RootSquared(profile, 1);
    SideWeightBound(profile, e);
    SideWeightLowerBound(profile, e);
    RootGrows(profile, e);
    FarTimesRoot(profile, e);
    RootAtLeast(s, 32.0, (1 + e) as real);
    RootAtMost(Root(profile, 1), 1.42, 2.0);
    ProductMonotone(32.0, s, 123.32, 4.0 * s - 4.68);
    DivideBack(4.0 * s - 4.68, s, 3125.0, FarWeight(profile, e));
  }

  lemma RootAtLeast(s: real, b: real, m: real)
    requires 0.0 < s && 0.0 < b && s * s == m && b * b <= m
    ensures b <= s
  {
    if s < b {
      ProductMonotone(s, b, s, b);
    }
  }

  lemma RootAtMost(s: real, b: real, m: real)
    requires 0.0 < s && 0.0 < b && s * s == m && m <= b * b
    ensures s <= b
  {
    if b < s {
      ProductMonotone(b, s, b, s);
    }
  }

  lemma DivideBack(x: real, s: real, c: real, inv: real)
    requires 0.0 < s && 0.0 < inv && inv * s == 1.0 && c <= x * s
    ensures c * inv <= x
  {
    ScaleMonotone(x * s, c, inv);
    MulAssociates(x, s, inv);
  }

  /** The similarity of the window that differs in one outermost bit only. */
  lemma FlippedSimilarity(profile: nat -> real, e: nat, image: seq<Byte>, pos: nat, pat: seq<Byte>)
    requires InverseRoot(profile) && 1024 <= e && |pat| == 1 + 2 * e && pos + |pat| <= |image|
    requires image[pos] == pat[0] ^ 1 && forall i :: 0 < i < |pat| ==> image[pos + i] == pat[i]
    requires Usable(image, pat, SymmetricWeights(profile, e, 1))
    ensures var x := Similarity(image, pos, pat, SymmetricWeights(profile, e, 1));
            EXACT <= x <= 1.0 - 5.0 / (64.0 * (1.0 + e as real))
  {
    hide InverseRoot, Usable, Corr, SelfScore, PatternWeight, FarWeight, SymmetricWeights, XorRate, WeightSum, Root;
    var w := SymmetricWeights(profile, e, 1);
    var far, weight, s := FarWeight(profile, e), PatternWeight(profile, e, 1), Root(profile, e);
    FlippedScore(image, pos, pat, w, |pat|);
    SymmetricSelfScore(profile, e, 1, image, pat);
    UsableSelfScore(image, pat, w);
    RootIsPositive(profile);
    SelfScoreValue(pat, w);
    FarWeightIsLeast(profile, e, 1, 0);
    OneByteWeight(profile, e);
    var score, self := Corr(image, pos, pat, w, |pat|), SelfScore(pat, w);
    assert score == 16.0 * weight - 5.0 * far && self == 16.0 * weight;
    BelowExact(score, self);
    RootSquared(profile, e);
    FarTimesRoot(profile, e);
    Shortfall(weight, far, s, (1 + e) as real);
  }

  lemma Shortfall(weight: real, far: real, s: real, m: real)
    requires 0.0 < weight <= 4.0 * s && 0.0 < far && 0.0 < s && far * s == 1.0 && s * s == m
    ensures 0.0 < m && (16.0 * weight - 5.0 * far) * (1.0 / (16.0 * weight)) <= 1.0 - 5.0 / (64.0 * m)
  {
    var self, d := 16.0 * weight, 5.0 / (64.0 * m);
    assert d * (64.0 * m) == 5.0;
    assert d * (64.0 * (s * s)) == 5.0 * (far * s);
    CancelRoot(d, s, far);
    ProductMonotone(d, d, self, 64.0 * s);
    assert self - 5.0 * far <= (1.0 - d) * self;
    ScaleMonotone((1.0 - d) * self, self - 5.0 * far, 1.0 / self);
    assert ((1.0 - d) * self) * (1.0 / self) == 1.0 - d;
  }

  lemma CancelRoot(d: real, s: real, far: real)
    requires 0.0 < s && d * (64.0 * (s * s)) == 5.0 * (far * s)
    ensures d * (64.0 * s) == 5.0 * far
  {
    var a, b := d * (64.0 * s), 5.0 * far;
    assert a * s == b * s;
    if a < b {
      ScaleMonotone(a, b, s);
    } else if b < a {
      ScaleMonotone(b, a, s);
    }
  }

  lemma WideContext(profile: nat -> real, e: nat)
    requires 0 < e
    ensures InRange(Lone(e), e, e + 1, e)
    ensures var pat := Context(Lone(e), e, e + 1, e);
            && |pat| == 1 + 2 * e && Positions(Lone(e), pat) == 2
            && (forall i :: 0 <= i < |pat| ==> pat[i] == if i == 0 then 1 else 0)
            && ContextWeights(profile, Lone(e), e, e + 1, e) == SymmetricWeights(profile, e, 1)
  {
  }

  /** From extend 1024 on the full context is accepted although its runner-up counts as exact. */
  lemma WideIsAccepted(profile: nat -> real, k: nat)
    requires InverseRoot(profile) && Positive(profile) && 7 <= k
    ensures var e := Extend(1, k);
            && InRange(Lone(e), e, e + 1, e)
            && Accepted(profile, Lone(e), e, e + 1, e)
            && EXACT <= SecondBest(profile, Lone(e), e, e + 1, e)
  {
    hide Ranked, Similarity, Accepts, Usable, ContextWeights, SymmetricWeights, Context, InverseRoot, Extend, Lone;
    var e := Extend(1, k);
    WideExtend(k);
    var orig := Lone(e);
    WideContext(profile, e);
    ContextUsable(profile, orig, e, e + 1, e);
    var pat, w := Context(orig, e, e + 1, e), SymmetricWeights(profile, e, 1);
    assert orig[1] == pat[0] ^ 1;
    FlippedSimilarity(profile, e, orig, 1, pat);
    OwnWindow(profile, orig, e, e + 1, e);
    assert 0.0 < 5.0 / (64.0 * (1.0 + e as real));
    RunnerUpOfTwo(orig, pat, w);
    AcceptsShortfall(Similarity(orig, 1, pat, w), Pow2(k - 1));
  }

  lemma WideExtend(k: nat)
    requires 7 <= k
    ensures Extend(1, k) == 16 * Pow2(k - 1) && 64 <= Pow2(k - 1)
  {
    Pow2Grows(6, k - 1);
    assert Pow2(6) == 64;
  }

  // ----- the whole diff -----

  /** The only patch of the diff. */
  ghost function ThePatch(profile: nat -> real, e: nat, x: Byte): Patch
    requires Positive(profile) && 0 < e
  {
    PatchWith(profile, Lone(e), Touched(e, x), e, e + 1, e)
  }

  lemma BuildsThePatch(profile: nat -> real, k: nat, x: Byte)
    requires InverseRoot(profile) && Positive(profile) && 7 <= k && x != 0
    ensures var e := Extend(1, k);
            0 < e && Build(profile, Lone(e), Touched(e, x), e, e + 1) == Success(ThePatch(profile, e, x))
  {
    hide Accepted, SecondBest, Extend, Build, Reached, InverseRoot;
    ExtendIsPositive(k);
    var e := Extend(1, k);
    var orig, patched, r := Lone(e), Touched(e, x), Success(ThePatch(profile, e, x));
    AllNarrowRejected(profile, k);
    WideIsAccepted(profile, k);
    assert EndsInRound(profile, orig, patched, e, e + 1, k, r);
    var n := BuildFindsFirst(profile, orig, patched, e, e + 1);
    RoundIsUnique(profile, orig, patched, e, e + 1, n, Build(profile, orig, patched, e, e + 1), k, r);
  }

  /** The diff of the family's images succeeds with one patch, of the given extend and not flush, whose
      runner-up is not below the exactness threshold. */
  lemma LoneDiff(profile: nat -> real, k: nat, x: Byte)
    requires InverseRoot(profile) && Positive(profile) && 7 <= k && x != 0
    ensures var e := Extend(1, k);
            && 1024 <= e
            && PatchesOf(profile, Lone(e), Touched(e, x)) == Success([ThePatch(profile, e, x)])
            && ThePatch(profile, e, x).edit.patchOffset == e
            && EXACT <= ThePatch(profile, e, x).secondMatchCorrelation
            && !Flush(ThePatch(profile, e, x), |Lone(e)|)
  {
    hide Accepted, SecondBest, Extend, Build, Segments, PatchesOf, InverseRoot;
    WideExtend(k);
    var e := Extend(1, k);
    var orig, patched := Lone(e), Touched(e, x);
    OneSegment(e, x);
    BuildsThePatch(profile, k, x);
    WideIsAccepted(profile, k);
    OneRange(profile, orig, patched, Segment(e, e + 1), ThePatch(profile, e, x));
  }

  /** Applying it to the original image, at any fuzz level, skips the patch and changes nothing. */
  lemma LonePatch(profile: nat -> real, k: nat, e: nat, x: Byte, fuzzLevel: int,
                  report: seq<Option<int>>, out: seq<Byte>, skipped: nat)
    requires InverseRoot(profile) && Positive(profile) && 7 <= k && x != 0
    requires e == Extend(1, k) && 0 < e
    requires Outcome(profile, Lone(e), [ThePatch(profile, e, x).edit], fuzzLevel, report, out, skipped)
    ensures skipped == 1 && out == Lone(e) && out != Touched(e, x)
  {
    hide Extend, PatchesOf, ThePatch, Decides, WellFormed, InverseRoot, BuiltFor, Segments;
    LoneDiff(profile, k, x);
    var orig, patched, p := Lone(e), Touched(e, x), ThePatch(profile, e, x);
    OneSegment(e, x);
    DiffRecords(profile, orig, patched);
    assert BuiltFor(profile, orig, patched, Segments(orig, patched, 0)[0], [p][0]);
    assert [p.edit][0] == p.edit;
    AmbiguousAcceptanceIsSkipped(profile, orig, patched, Segment(e, e + 1), p, fuzzLevel, report[0]);
    assert report == [None];
    SkippedWritesNothing(orig, p.edit);
    assert patched[e] != orig[e];
  }

  lemma SkippedWritesNothing(orig: seq<Byte>, e: Edit)
    ensures Fits(|orig|, [e], [None]) && WriteAll(orig, [e], [None]) == orig && CountNone([None]) == 1
  {
    var none: seq<Edit> := [];
    assert [e][..0] == none;
    assert WriteAll(orig, none, []) == orig;
  }

  /** A diff has an accepted patch of the given extend whose runner-up counts as exact. */
  ghost predicate AcceptsAmbiguous(profile: nat -> real, orig: seq<Byte>, patched: seq<Byte>, i: nat, extend: nat)
    requires Positive(profile)
  {
    && PatchesOf(profile, orig, patched).Success?
    && i < |PatchesOf(profile, orig, patched).value|
    && PatchesOf(profile, orig, patched).value[i].edit.patchOffset == extend
    && EXACT <= PatchesOf(profile, orig, patched).value[i].secondMatchCorrelation
  }

  /** Of all extends of the widening search, for short and for long changes, exactly those of at least
      1024 let a patch through that its own original image makes ambiguous. */
  lemma AmbiguousExtends(profile: nat -> real, len: nat, k: nat)
    requires InverseRoot(profile) && Positive(profile)
    ensures (exists orig, patched, i :: AcceptsAmbiguous(profile, orig, patched, i, Extend(len, k))) <==>
            1024 <= Extend(len, k)
  {
    hide AcceptsAmbiguous, Extend, InverseRoot;
    var e := Extend(len, k);
    if orig: seq<Byte>, patched: seq<Byte>, i: nat :| AcceptsAmbiguous(profile, orig, patched, i, e) {
      AmbiguousIsWide(profile, orig, patched, i, e);
      ExtendGap(len, k);
    }
    if 1024 <= e {
      var j := SameExtend(len, k);
      LoneDiff(profile, j, 1);
      LoneIsAmbiguous(profile, j);
    }
  }

  lemma AmbiguousIsWide(profile: nat -> real, orig: seq<Byte>, patched: seq<Byte>, i: nat, extend: nat)
    requires Positive(profile) && AcceptsAmbiguous(profile, orig, patched, i, extend)
    ensures 512 < extend
  {
    hide PatchesOf, Segments, BuiltFor;
    DiffRecords(profile, orig, patched);
    BuiltForFacts(profile, orig, patched, Segments(orig, patched, 0)[i], PatchesOf(profile, orig, patched).value[i]);
  }

  lemma LoneIsAmbiguous(profile: nat -> real, k: nat)
    requires InverseRoot(profile) && Positive(profile) && 7 <= k
    ensures var e := Extend(1, k); AcceptsAmbiguous(profile, Lone(e), Touched(e, 1), 0, e)
  {
    hide PatchesOf, ThePatch, Extend, InverseRoot;
    LoneDiff(profile, k, 1);
  }

  /** The far extends of long changes are those of short ones. */
  lemma SameExtend(len: nat, k: nat) returns (j: nat)
    requires 1024 <= Extend(len, k)
    ensures 7 <= j && Extend(1, j) == Extend(len, k)
  {
    assert Pow2(6) == 64 && Pow2(9) == 512;
    if len <= 16 {
      j := k;
      if k <= 6 {
        Pow2Grows(k, 6);
      }
    } else {
      if k <= 10 {
        Pow2Grows(k - 1, 9);
      }
      j := k - 4;
      assert Pow2(k - 1) == 2 * Pow2(k - 2) == 4 * Pow2(k - 3) == 8 * Pow2(j);
    }
  }
}
