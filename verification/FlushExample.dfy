/** A family of images on which a diff succeeds, applying its delta reports success, and yet the
    change ends up in the wrong place: the pattern of the change is flush with the end of the file,
    where the matcher does not look, and a copy of it sits earlier in the file. */
module FlushExample {
  import opened Common
  import opened ByteRating
  import opened Correlation
  import opened Matcher
  import opened Ranking
  import opened Acceptance
  import opened Segmenter
  import opened Builder
  import opened Diff
  import opened Applier
  import opened RoundTrip

  ghost predicate Distinct(base: seq<Byte>) {
    |base| == 17 && forall i, j :: 0 <= i < j < |base| ==> base[i] != base[j]
  }

  /** The same 17 bytes twice. */
  function Doubled(base: seq<Byte>): (r: seq<Byte>)
    ensures |r| == 2 * |base|
  {
    base + base
  }

  /** ... with the middle byte of the second copy changed. */
  function Changed(base: seq<Byte>, x: Byte): (r: seq<Byte>)
    requires |base| == 17
    ensures |r| == 34
  {
    Doubled(base)[25 := x]
  }

  /** The only patch of the diff. */
  ghost function ThePatch(profile: nat -> real, base: seq<Byte>, x: Byte): Patch
    requires Positive(profile) && |base| == 17
  {
    PatchWith(profile, Doubled(base), Changed(base, x), 25, 26, 8)
  }

  lemma OneSegment(base: seq<Byte>, x: Byte)
    requires |base| == 17 && x != base[8]
    ensures Segments(Doubled(base), Changed(base, x), 0) == [Segment(25, 26)]
  {
    var orig, patched, s := Doubled(base), Changed(base, x), Segment(25, 26);
    assert forall i: nat :: Differ(orig, patched, i) <==> i == 25;
    assert Contains([s][0], 25);
    SegmentsCanonical(orig, patched, 0);
    CanonicalUnique(orig, patched, 0, Segments(orig, patched, 0), [s]);
  }

  lemma {:induction false} AllMismatched(a: seq<Byte>, pos: nat, b: seq<Byte>, w: seq<real>, n: nat)
    requires pos + n <= |a| && n <= |b| && n <= |w| && AllPositive(w)
    requires forall i :: 0 <= i < n ==> a[pos + i] != b[i]
    ensures Corr(a, pos, b, w, n) <= 11.0 * WeightSum(w, n)
  {
    if n == 0 {
    } else {
      AllMismatched(a, pos, b, w, n - 1);
      XorRateSeparates(a[pos + n - 1], b[n - 1]);
      TermBounds(w[n - 1], XorRate(a[pos + n - 1], b[n - 1]));
    }
  }

  /** Shifted against itself, a pattern of distinct bytes matches nowhere. */
  lemma ShiftedSimilarity(base: seq<Byte>, w: seq<real>, pos: nat)
    requires Distinct(base) && Usable(Doubled(base), base, w) && 0 < pos < 17
    ensures Similarity(Doubled(base), pos, base, w) <= 0.6875
  {
    var orig := Doubled(base);
    forall i | 0 <= i < 17 ensures orig[pos + i] != base[i] {
      assert orig[pos + i] == if pos + i < 17 then base[pos + i] else base[pos + i - 17];
    }
    AllMismatched(orig, pos, base, w, 17);
    SelfScoreValue(base, w);
    var c, self := Corr(orig, pos, base, w, 17), SelfScore(base, w);
    assert c <= 0.6875 * self;
    ScaleMonotone(0.6875 * self, c, 1.0 / self);
    assert (0.6875 * self) * (1.0 / self) == 0.6875;
  }

  lemma DoubledSecond(base: seq<Byte>, w: seq<real>)
    requires Distinct(base) && Usable(Doubled(base), base, w)
    ensures 0.0 <= Ranked(Doubled(base), base, w, 1) <= 0.6875
  {
    hide Ranked, Similarity, Doubled;
    var orig := Doubled(base);
    RankedBounds(orig, base, w);
    if 0.0 < Ranked(orig, base, w, 1) {
      var p, q := SecondIsReached(orig, base, w);
      ShiftedSimilarity(base, w, if 0 < p then p else q);
    }
  }

  lemma AcceptsInFirstRound(r: real)
    requires 0.0 <= r <= 0.6875
    ensures Accepts(r, 8)
  {
    PowMonotone(r, 0.6875, 320);
    PowMul(0.6875, 5, 64);
    PowMul(MAX_SECOND_MATCH, 4, 64);
    FifthPower();
    PowMonotone(Pow(0.6875, 5), Pow(MAX_SECOND_MATCH, 4), 64);
  }

  lemma FifthPower()
    ensures 0.0 <= Pow(0.6875, 5) < Pow(MAX_SECOND_MATCH, 4)
  {
  }

  lemma DoubledContext(base: seq<Byte>)
    requires |base| == 17
    ensures Context(Doubled(base), 25, 26, 8) == base
  {
  }

  /** The diff succeeds with one patch, whose runner-up is weak but whose pattern is flush. */
  lemma DoubledDiff(profile: nat -> real, base: seq<Byte>, x: Byte)
    requires Positive(profile) && Distinct(base) && x != base[8]
    ensures PatchesOf(profile, Doubled(base), Changed(base, x)) == Success([ThePatch(profile, base, x)])
    ensures ThePatch(profile, base, x).secondMatchCorrelation < EXACT && Flush(ThePatch(profile, base, x), 34)
  {
    hide Ranked, Accepts, Segments, Usable, ContextWeights;
    var orig, patched := Doubled(base), Changed(base, x);
    OneSegment(base, x);
    DoubledContext(base);
    ContextUsable(profile, orig, 25, 26, 8);
    DoubledSecond(base, ContextWeights(profile, orig, 25, 26, 8));
    AcceptsInFirstRound(SecondBest(profile, orig, 25, 26, 8));
    assert Build(profile, orig, patched, 25, 26) == Success(ThePatch(profile, base, x));
    OneRange(profile, orig, patched, Segment(25, 26), ThePatch(profile, base, x));
  }

  lemma DecidedAtFirstCopy(profile: nat -> real, base: seq<Byte>, x: Byte, fuzzLevel: int, d: Option<int>)
    requires Positive(profile) && Distinct(base)
    requires WellFormed(Doubled(base), ThePatch(profile, base, x).edit)
    requires Decides(profile, Doubled(base), ThePatch(profile, base, x).edit, fuzzLevel, d)
    ensures d == Some(8)
  {
    hide Decides, Similarity, Usable;
    var orig, e := Doubled(base), ThePatch(profile, base, x).edit;
    DoubledContext(base);
    var w := EditWeights(profile, e);
    EditUsable(profile, orig, e);
    SimilarityBounds(orig, 0, base, w);
    assert orig[0..17] == base;
    assert ExactAt(profile, orig, e, 0);
    forall q: nat | ExactAt(profile, orig, e, q) ensures q == 0 {
      if q != 0 {
        ShiftedSimilarity(base, w, q);
      }
    }
    UniqueMatchIsApplied(profile, orig, e, fuzzLevel, d, 0);
  }

  /** Applying the delta reports complete success at every fuzz level, but changes the first copy. */
  lemma DoubledPatch(profile: nat -> real, base: seq<Byte>, x: Byte, fuzzLevel: int,
                     report: seq<Option<int>>, out: seq<Byte>, skipped: nat)
    requires Positive(profile) && Distinct(base) && x != base[8]
    requires Outcome(profile, Doubled(base), [ThePatch(profile, base, x).edit], fuzzLevel, report, out, skipped)
    ensures skipped == 0 && out == Doubled(base)[8 := x] && out != Changed(base, x)
  {
    hide Decides, WellFormed, ThePatch;
    var orig, e := Doubled(base), ThePatch(profile, base, x).edit;
    assert [e][0] == e;
    DecidedAtFirstCopy(profile, base, x, fuzzLevel, report[0]);
    assert report == [Some(8)];
    ThePatchBytes(profile, base, x);
    WrittenOnce(orig, e, x);
    assert orig[25] == base[8] && Changed(base, x)[25] == x;
    assert out[25] == orig[25];
  }

  lemma ThePatchBytes(profile: nat -> real, base: seq<Byte>, x: Byte)
    requires Positive(profile) && |base| == 17
    ensures ThePatch(profile, base, x).edit.patchBytes == [x]
  {
  }

  lemma WrittenOnce(orig: seq<Byte>, e: Edit, x: Byte)
    requires |orig| == 34 && e.patchBytes == [x]
    ensures WriteAll(orig, [e], [Some(8)]) == orig[8 := x]
    ensures CountNone([Some(8)]) == 0
  {
    var none: seq<Edit> := [];
    assert [e][..0] == none;
    assert WriteAll(orig, none, []) == orig;
  }

  function Counting(): seq<Byte> {
    [0, 1, 2, 3, 4, 5, 6, 7, 8, 9, 10, 11, 12, 13, 14, 15, 16]
  }

  lemma CountingIsDistinct()
    ensures Distinct(Counting()) && Counting()[8] == 8
  {
  }

  /** One such pair of images: the bytes 0 to 16 twice, with byte 25 changed to 255. The diff succeeds
      and the applier reports success, but its output is not the changed image. */
  lemma RoundTripFails(profile: nat -> real, fuzzLevel: int, report: seq<Option<int>>, out: seq<Byte>, skipped: nat)
    requires Positive(profile)
    requires Outcome(profile, Doubled(Counting()), [ThePatch(profile, Counting(), 255).edit], fuzzLevel, report, out, skipped)
    ensures PatchesOf(profile, Doubled(Counting()), Changed(Counting(), 255)) == Success([ThePatch(profile, Counting(), 255)])
    ensures skipped == 0 && out != Changed(Counting(), 255)
  {
    hide Outcome, PatchesOf, ThePatch, Counting;
    CountingIsDistinct();
    DoubledDiff(profile, Counting(), 255);
    DoubledPatch(profile, Counting(), 255, fuzzLevel, report, out, skipped);
  }
}
