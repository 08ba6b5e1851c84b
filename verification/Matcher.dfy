/** Finding the windows of an image that are most like a pattern. */
module Matcher {
  import opened Common
  import opened ByteRating
  import opened Correlation
  import opened TopSelection

  const STEP_SIZE: nat := 1000

  datatype PatchLocation = PatchLocation(first: nat, second: nat)

  // ----- reference definitions -----

  /** The number of scanned positions: a window flush with the end of the image is not among them. */
  function Positions(image: seq<Byte>, pat: seq<Byte>): nat
    requires |pat| <= |image|
  {
    |image| - |pat|
  }

  /** The uncalibrated entries of the first n positions. */
  function Scores(image: seq<Byte>, pat: seq<Byte>, w: seq<real>, n: nat): (E: seq<Rating>)
    requires |pat| == |w| && n + |pat| <= |image|
    ensures |E| == n
    ensures forall p: nat :: p < n ==> E[p] == Rating(Corr(image, p, pat, w, |pat|), p)
  {
    if n == 0 then []
    else Scores(image, pat, w, n - 1) + [Rating(Corr(image, n - 1, pat, w, |pat|), n - 1)]
  }

  function AllScores(image: seq<Byte>, pat: seq<Byte>, w: seq<real>): seq<Rating>
    requires |pat| == |w| && |pat| <= |image|
  {
    Scores(image, pat, w, Positions(image, pat))
  }

  /** The score a perfect match has before calibration is 1 after it. */
  function Calibrate(score: real, pat: seq<Byte>, w: seq<real>): real
    requires |pat| == |w| && SelfScore(pat, w) != 0.0
  {
    score * (1.0 / SelfScore(pat, w))
  }

  function Similarity(image: seq<Byte>, pos: nat, pat: seq<Byte>, w: seq<real>): real
    requires |pat| == |w| && pos + |pat| <= |image| && SelfScore(pat, w) != 0.0
  {
    Calibrate(Corr(image, pos, pat, w, |pat|), pat, w)
  }

  /** The i-th best similarity among the scanned windows, 0 when there are too few:
      score everything, sort, take the i-th. */
  function Ranked(image: seq<Byte>, pat: seq<Byte>, w: seq<real>, i: nat): real
    requires |pat| == |w| && |pat| <= |image| && SelfScore(pat, w) != 0.0
  {
    Calibrate(BestOf(AllScores(image, pat, w), i + 1)[i].score, pat, w)
  }

  ghost predicate Usable(image: seq<Byte>, pat: seq<Byte>, w: seq<real>) {
    0 < |pat| == |w| && |pat| <= |image| && AllPositive(w) && 0.0 < SelfScore(pat, w)
  }

  lemma UsableIf(image: seq<Byte>, pat: seq<Byte>, w: seq<real>)
    requires 0 < |pat| == |w| && |pat| <= |image| && AllPositive(w)
    ensures Usable(image, pat, w)
  {
    SelfScoreValue(pat, w);
  }

  /** What the matcher promises about its k results: they carry the k best similarities in order;
      each is a default entry or the true similarity of the scanned position it names;
      no position is named twice with a positive score; nothing better than the last is missing. */
  ghost predicate TopMatches(image: seq<Byte>, pat: seq<Byte>, w: seq<real>, r: seq<Rating>)
    requires Usable(image, pat, w)
  {
    && 0 < |r|
    && (forall i :: 0 <= i < |r| ==> r[i].score == Ranked(image, pat, w, i))
    && (forall i :: 0 <= i < |r| ==> r[i] == DEFAULT_RATING || Genuine(image, pat, w, r[i]))
    && (forall i, j :: 0 <= i < j < |r| && 0.0 < r[j].score ==> r[i].pos != r[j].pos)
    && (forall p: nat :: p < Positions(image, pat) && Similarity(image, p, pat, w) > Ranked(image, pat, w, |r| - 1)
          ==> Rating(Similarity(image, p, pat, w), p) in r)
  }

  ghost predicate Genuine(image: seq<Byte>, pat: seq<Byte>, w: seq<real>, x: Rating)
    requires Usable(image, pat, w)
  {
    x.pos < Positions(image, pat) && x.score == Similarity(image, x.pos, pat, w)
  }

  // ----- proofs about the reference definitions -----

  /** No position is scored twice. */
  lemma {:induction false} EntryOnce(image: seq<Byte>, pat: seq<Byte>, w: seq<real>, n: nat, x: Rating)
    requires |pat| == |w| && n + |pat| <= |image|
    ensures multiset(Scores(image, pat, w, n))[x] <= 1
  {
    hide Scores;
    if n == 0 {
      NothingScored(image, pat, w, x);
    } else {
      EntryOnce(image, pat, w, n - 1, x);
      EntryOnceMore(image, pat, w, n, x);
    }
  }

  lemma NothingScored(image: seq<Byte>, pat: seq<Byte>, w: seq<real>, x: Rating)
    requires |pat| == |w| && |pat| <= |image|
    ensures multiset(Scores(image, pat, w, 0))[x] == 0
  {
  }

  lemma EntryOnceMore(image: seq<Byte>, pat: seq<Byte>, w: seq<real>, n: nat, x: Rating)
    requires |pat| == |w| && 0 < n && n + |pat| <= |image|
    requires multiset(Scores(image, pat, w, n - 1))[x] <= 1
    ensures multiset(Scores(image, pat, w, n))[x] <= 1
  {
    var before, last := Scores(image, pat, w, n - 1), Rating(Corr(image, n - 1, pat, w, |pat|), n - 1);
    assert Scores(image, pat, w, n) == before + [last];
    hide Scores, Corr;
    CountOneMore(before, last, x);
    if x == last {
      NotIn(before, x);
    }
  }

  lemma CountOneMore(s: seq<Rating>, last: Rating, x: Rating)
    ensures multiset(s + [last])[x] == multiset(s)[x] + if x == last then 1 else 0
  {
  }

  lemma TwiceInSequence<T>(s: seq<T>, i: nat, j: nat)
    requires i < j < |s| && s[i] == s[j]
    ensures 2 <= multiset(s)[s[i]]
  {
    assert s == s[..j] + s[j..];
    assert s[i] in s[..j] && s[j] in s[j..];
  }

  lemma ScoresNonNegative(image: seq<Byte>, pat: seq<Byte>, w: seq<real>)
    requires Usable(image, pat, w)
    ensures NonNegative(AllScores(image, pat, w))
  {
    forall p: nat | p < Positions(image, pat)
      ensures 0.0 <= Corr(image, p, pat, w, |pat|)
    {
      CorrBounds(image, p, pat, w, |pat|);
    }
  }

  lemma CalibrateMonotone(x: real, y: real, pat: seq<Byte>, w: seq<real>)
    requires |pat| == |w| && 0.0 < SelfScore(pat, w)
    ensures x < y <==> Calibrate(x, pat, w) < Calibrate(y, pat, w)
    ensures Calibrate(0.0, pat, w) == 0.0
    ensures Calibrate(SelfScore(pat, w), pat, w) == 1.0
  {
    ScaleMonotone(x, y, 1.0 / SelfScore(pat, w));
  }

  lemma ScaleMonotone(x: real, y: real, c: real)
    requires 0.0 < c
    ensures x < y <==> x * c < y * c
  {
    if x < y {
      assert (y - x) * c > 0.0;
    } else {
      assert (x - y) * c >= 0.0;
    }
  }

  ghost predicate RawTop(image: seq<Byte>, pat: seq<Byte>, w: seq<real>, raw: seq<Rating>, n: nat)
    requires Usable(image, pat, w)
  {
    |raw| <= n && TopOf(raw, multiset(AllScores(image, pat, w)) + Zeros(n))
  }

  lemma RawScores(image: seq<Byte>, pat: seq<Byte>, w: seq<real>, raw: seq<Rating>, n: nat, i: nat)
    requires Usable(image, pat, w) && RawTop(image, pat, w, raw, n) && i < |raw|
    ensures Calibrate(raw[i].score, pat, w) == Ranked(image, pat, w, i)
  {
    hide TopOf, BestOf, Scores, AllPositive;
    var E := AllScores(image, pat, w);
    ScoresNonNegative(image, pat, w);
    TopScoresAreBest(raw, E, n, i);
    BestOfIndependentOfK(E, i + 1, |raw|, i);
  }

  lemma RawOnce(image: seq<Byte>, pat: seq<Byte>, w: seq<real>, raw: seq<Rating>, n: nat, x: Rating)
    requires Usable(image, pat, w) && RawTop(image, pat, w, raw, n)
    requires x != DEFAULT_RATING
    ensures multiset(raw)[x] <= 1
  {
    EntryOnce(image, pat, w, Positions(image, pat), x);
    assert multiset(raw)[x] <= (multiset(AllScores(image, pat, w)) + Zeros(n))[x];
  }

  lemma RawDistinct(image: seq<Byte>, pat: seq<Byte>, w: seq<real>, raw: seq<Rating>, n: nat, i: nat, j: nat)
    requires Usable(image, pat, w) && RawTop(image, pat, w, raw, n)
    requires i < j < |raw| && 0.0 < raw[j].score
    ensures raw[i].pos != raw[j].pos
  {
    var E := AllScores(image, pat, w);
    TopMembers(raw, E, n);
    RawOnce(image, pat, w, raw, n, raw[i]);
    if raw[i] == raw[j] {
      TwiceInSequence(raw, i, j);
    }
    assert raw[i] in E && raw[i] == E[raw[i].pos];
    assert raw[j] in E && raw[j] == E[raw[j].pos];
  }

  function CalibrateAll(raw: seq<Rating>, pat: seq<Byte>, w: seq<real>): (r: seq<Rating>)
    requires |pat| == |w| && SelfScore(pat, w) != 0.0
  {
    seq(|raw|, i requires 0 <= i < |raw| => Rating(Calibrate(raw[i].score, pat, w), raw[i].pos))
  }

  lemma RawTopMatches(image: seq<Byte>, pat: seq<Byte>, w: seq<real>, raw: seq<Rating>, n: nat)
    requires Usable(image, pat, w) && RawTop(image, pat, w, raw, n) && 0 < |raw|
    ensures TopMatches(image, pat, w, CalibrateAll(raw, pat, w))
  {
    hide RawTop;
    var r := CalibrateAll(raw, pat, w);
    forall i: nat | i < |r| ensures r[i].score == Ranked(image, pat, w, i) {
      RawScores(image, pat, w, raw, n, i);
    }
    forall i: nat | i < |r| ensures r[i] == DEFAULT_RATING || Genuine(image, pat, w, r[i]) {
      RawGenuine(image, pat, w, raw, n, i);
    }
    forall i: nat, j: nat | i < j < |r| && 0.0 < r[j].score ensures r[i].pos != r[j].pos {
      CalibrateMonotone(0.0, raw[j].score, pat, w);
      RawDistinct(image, pat, w, raw, n, i, j);
    }
    forall p: nat | p < Positions(image, pat) && Similarity(image, p, pat, w) > Ranked(image, pat, w, |r| - 1)
      ensures Rating(Similarity(image, p, pat, w), p) in r
    {
      RawComplete(image, pat, w, raw, n, p);
    }
  }

  lemma RawGenuine(image: seq<Byte>, pat: seq<Byte>, w: seq<real>, raw: seq<Rating>, n: nat, i: nat)
    requires Usable(image, pat, w) && RawTop(image, pat, w, raw, n) && i < |raw|
    ensures var x := CalibrateAll(raw, pat, w)[i]; x == DEFAULT_RATING || Genuine(image, pat, w, x)
  {
    TopMembers(raw, AllScores(image, pat, w), n);
    CalibrateMonotone(0.0, 0.0, pat, w);
  }

  lemma RawComplete(image: seq<Byte>, pat: seq<Byte>, w: seq<real>, raw: seq<Rating>, n: nat, p: nat)
    requires Usable(image, pat, w) && RawTop(image, pat, w, raw, n)
    requires p < Positions(image, pat) && Similarity(image, p, pat, w) > Ranked(image, pat, w, |raw| - 1)
    ensures Rating(Similarity(image, p, pat, w), p) in CalibrateAll(raw, pat, w)
  {
    hide RawTop, Ranked, Corr;
    RawNotEmpty(image, pat, w, raw, n);
    var last, score := raw[|raw| - 1].score, Corr(image, p, pat, w, |pat|);
    RawScores(image, pat, w, raw, n, |raw| - 1);
    CalibrateMonotone(last, score, pat, w);
    var i := RawKeeps(image, pat, w, raw, n, p);
    assert CalibrateAll(raw, pat, w)[i] == Rating(Similarity(image, p, pat, w), p);
  }

  lemma RawNotEmpty(image: seq<Byte>, pat: seq<Byte>, w: seq<real>, raw: seq<Rating>, n: nat)
    requires Usable(image, pat, w) && RawTop(image, pat, w, raw, n)
    ensures 0 < |raw|
  {
  }

  lemma RawKeeps(image: seq<Byte>, pat: seq<Byte>, w: seq<real>, raw: seq<Rating>, n: nat, p: nat) returns (i: nat)
    requires Usable(image, pat, w) && RawTop(image, pat, w, raw, n) && 0 < |raw|
    requires p < Positions(image, pat) && Corr(image, p, pat, w, |pat|) > raw[|raw| - 1].score
    ensures i < |raw| && raw[i] == Rating(Corr(image, p, pat, w, |pat|), p)
  {
    var E := AllScores(image, pat, w);
    TopMembers(raw, E, n);
    assert E[p] in E;
    i :| i < |raw| && raw[i] == E[p];
  }

  // ----- the scan -----

  /** Positions scored after the given number of blocks. */
  function Scanned(image: seq<Byte>, pat: seq<Byte>, blocks: nat): nat
    requires |pat| <= |image|
  {
    if Positions(image, pat) < blocks * STEP_SIZE then Positions(image, pat) else blocks * STEP_SIZE
  }

  /** The buffer of one pattern after the given number of blocks. */
  ghost predicate Buffer(image: seq<Byte>, pat: seq<Byte>, w: seq<real>, k: nat, blocks: nat, v: seq<Rating>)
  {
    && Usable(image, pat, w)
    && |v| == k + STEP_SIZE
    && Streamed(v, k, Scores(image, pat, w, Scanned(image, pat, blocks)))
  }

  lemma {:induction false} ScoresPrefix(image: seq<Byte>, pat: seq<Byte>, w: seq<real>, m: nat, n: nat)
    requires |pat| == |w| && m <= n && n + |pat| <= |image|
    ensures Scores(image, pat, w, n)[..m] == Scores(image, pat, w, m)
  {
  }

  method FillBlock(rating: array<int>, image: seq<Byte>, k: nat, v: array<Rating>, pat: seq<Byte>, w: seq<real>,
                   posBase: nat, step: nat)
    requires rating.Length == 0x100 && forall i :: 0 <= i < 0x100 ==> rating[i] == Rate(i)
    requires |pat| == |w| && posBase + step + |pat| <= |image|
    requires v.Length == k + STEP_SIZE && step <= STEP_SIZE
    modifies v
    ensures v[..] == old(v[..k]) + Scores(image, pat, w, posBase + step)[posBase..] + old(v[k + step..])
  {
    var i := 0;
    while i < step
      invariant 0 <= i <= step
      invariant forall a :: 0 <= a < k || k + i <= a < v.Length ==> v[a] == old(v[a])
      invariant forall a :: k <= a < k + i ==>
                  v[a] == Rating(Corr(image, posBase + a - k, pat, w, |pat|), posBase + a - k)
    {
      var pos := i + posBase;
      var score := Correlate(rating, image, pos, pat, |pat|, w);
      v[i + k] := Rating(score, pos);
      i := i + 1;
    }
  }

  method ScanBlock(rating: array<int>, image: seq<Byte>, k: nat, v: array<Rating>, pat: seq<Byte>, w: seq<real>,
                   j: nat)
    requires rating.Length == 0x100 && forall i :: 0 <= i < 0x100 ==> rating[i] == Rate(i)
    requires Buffer(image, pat, w, k, j, v[..])
    modifies v
    ensures Buffer(image, pat, w, k, j + 1, v[..])
  {
    hide Streamed, PartiallySorted, Rate, Scores, AllPositive, SelfScore;
    var posBase := j * STEP_SIZE;
    var adjustedSize := |image| - |pat|;
    if posBase >= adjustedSize {
      return;
    }
    var adjustedStepSize := adjustedSize - posBase;
    if adjustedStepSize > STEP_SIZE {
      adjustedStepSize := STEP_SIZE;
    }
    ghost var before := v[..];
    FillBlock(rating, image, k, v, pat, w, posBase, adjustedStepSize);
    ghost var filled := v[..];
    PartialSort(v, k);
    BlockStep(image, pat, w, k, j, before, filled, v[..]);
  }

  lemma BlockStep(image: seq<Byte>, pat: seq<Byte>, w: seq<real>, k: nat, j: nat,
                  before: seq<Rating>, filled: seq<Rating>, after: seq<Rating>)
    requires Buffer(image, pat, w, k, j, before)
    requires j * STEP_SIZE < Positions(image, pat)
    requires var n := Scanned(image, pat, j + 1);
             filled == before[..k] + Scores(image, pat, w, n)[j * STEP_SIZE..] + before[k + n - j * STEP_SIZE..]
    requires |after| == |before| && multiset(after) == multiset(filled) && PartiallySorted(after, k)
    ensures Buffer(image, pat, w, k, j + 1, after)
  {
    hide Streamed, PartiallySorted;
    var m, n := j * STEP_SIZE, Scanned(image, pat, j + 1);
    var all := Scores(image, pat, w, n);
    ScoresPrefix(image, pat, w, m, n);
    StreamStep(before, filled, after, k, all[..m], all[m..]);
    assert all[..m] + all[m..] == all;
  }

  /** The weights of a pattern whose changed bytes are at the given location. */
  function WeightsOf(profile: nat -> real, pat: seq<Byte>, pl: PatchLocation): (w: seq<real>)
    ensures |w| == |pat|
    ensures Positive(profile) ==> AllPositive(w)
  {
    Weights(profile, |pat|, pl.first, pl.second)
  }

  ghost predicate Found(image: seq<Byte>, pat: seq<Byte>, w: seq<real>, k: nat, r: seq<Rating>) {
    |r| == k && Usable(image, pat, w) && TopMatches(image, pat, w, r)
  }

  /** All rows are distinct buffers at the given number of blocks. */
  ghost predicate Buffers(image: seq<Byte>, patterns: seq<seq<Byte>>, ws: seq<seq<real>>, k: nat,
                          done: nat, blocks: nat, vs: seq<array<Rating>>)
    reads vs
  {
    && |vs| == |ws| == |patterns| && done <= |vs|
    && (forall m, o :: 0 <= m < o < |vs| ==> vs[m] != vs[o])
    && (forall m :: 0 <= m < done ==> Buffer(image, patterns[m], ws[m], k, blocks + 1, vs[m][..]))
    && (forall m :: done <= m < |vs| ==> Buffer(image, patterns[m], ws[m], k, blocks, vs[m][..]))
  }

  method CalculateTopMatches(rating: array<int>, profile: nat -> real, image: seq<Byte>, k: nat,
                             patterns: seq<seq<Byte>>, patchLocations: seq<PatchLocation>)
    returns (ratings: seq<seq<Rating>>)
    requires rating.Length == 0x100 && forall i :: 0 <= i < 0x100 ==> rating[i] == Rate(i)
    requires Positive(profile) && 0 < k
    requires |patterns| == |patchLocations|
    requires forall n :: 0 <= n < |patterns| ==> 0 < |patterns[n]| <= |image|
    ensures |ratings| == |patterns|
    ensures forall n :: 0 <= n < |patterns| ==>
              Found(image, patterns[n], WeightsOf(profile, patterns[n], patchLocations[n]), k, ratings[n])
  {
    hide Buffer, Found, WeightsOf, Rate;
    var ws, vs := PrepareBuffers(profile, image, k, patterns, patchLocations);
    for j := 0 to |image| / STEP_SIZE + 1
      invariant fresh(vs) && Buffers(image, patterns, ws, k, 0, j, vs)
    {
      for n := 0 to |patterns|
        invariant fresh(vs) && Buffers(image, patterns, ws, k, n, j, vs)
      {
        ScanBlock(rating, image, k, vs[n], patterns[n], ws[n], j);
      }
    }
    ratings := [];
    for n := 0 to |patterns|
      invariant |ratings| == n
      invariant Buffers(image, patterns, ws, k, 0, |image| / STEP_SIZE + 1, vs)
      invariant forall m :: 0 <= m < n ==> Found(image, patterns[m], ws[m], k, ratings[m])
    {
      var r := CalibrateTop(rating, image, k, vs[n], patterns[n], ws[n]);
      ratings := ratings + [r];
    }
  }

  method PrepareBuffers(profile: nat -> real, image: seq<Byte>, k: nat,
                        patterns: seq<seq<Byte>>, patchLocations: seq<PatchLocation>)
    returns (ws: seq<seq<real>>, vs: seq<array<Rating>>)
    requires Positive(profile) && 0 < k
    requires |patterns| == |patchLocations|
    requires forall n :: 0 <= n < |patterns| ==> 0 < |patterns[n]| <= |image|
    ensures fresh(vs) && Buffers(image, patterns, ws, k, 0, 0, vs)
    ensures forall n :: 0 <= n < |patterns| ==> ws[n] == WeightsOf(profile, patterns[n], patchLocations[n])
  {
    hide Buffer;
    ws, vs := [], [];
    for n := 0 to |patterns|
      invariant |ws| == n
      invariant fresh(vs) && Buffers(image, patterns[..n], ws, k, 0, 0, vs)
      invariant forall m :: 0 <= m < n ==> ws[m] == WeightsOf(profile, patterns[m], patchLocations[m])
    {
      var w := WeightVector(profile, |patterns[n]|, patchLocations[n].first, patchLocations[n].second);
      var v := NewBuffer(image, k, patterns[n], w);
      ws := ws + [w];
      vs := vs + [v];
    }
    assert patterns[..|patterns|] == patterns;
  }

  method NewBuffer(image: seq<Byte>, k: nat, pat: seq<Byte>, w: seq<real>) returns (v: array<Rating>)
    requires 0 < |pat| == |w| && |pat| <= |image| && AllPositive(w) && 0 < k
    ensures fresh(v) && Buffer(image, pat, w, k, 0, v[..])
  {
    v := new Rating[k + STEP_SIZE](_ => DEFAULT_RATING);
    UsableIf(image, pat, w);
    StreamStart(v[..], k);
  }

  /** Cutting a buffer down to its first k entries and dividing them by the self-score. */
  method CalibrateTop(rating: array<int>, image: seq<Byte>, k: nat, v: array<Rating>, pat: seq<Byte>, w: seq<real>)
    returns (r: seq<Rating>)
    requires rating.Length == 0x100 && forall i :: 0 <= i < 0x100 ==> rating[i] == Rate(i)
    requires Buffer(image, pat, w, k, |image| / STEP_SIZE + 1, v[..])
    ensures Found(image, pat, w, k, r)
  {
    hide Buffer, RawTop, TopMatches, Rate, Corr, Scores;
    BufferTop(image, pat, w, k, v[..]);
    ghost var raw := v[..k];
    ghost var all := CalibrateAll(raw, pat, w);
    r := v[..k];
    var self := Correlate(rating, pat, 0, pat, |pat|, w);
    var calibration := 1.0 / self;
    var i := 0;
    while i < k
      invariant 0 <= i <= k && |r| == k
      invariant r[..i] == all[..i]
      invariant r[i..] == raw[i..]
    {
      assert r[i] == r[i..][0] == raw[i];
      ghost var before := r;
      r := r[i := Rating(r[i].score * calibration, r[i].pos)];
      assert r[i] == all[i];
      assert r[..i + 1] == before[..i] + [r[i]];
      assert all[..i + 1] == all[..i] + [all[i]];
      assert r[i + 1..] == before[i..][1..];
      i := i + 1;
    }
    assert r == all;
    RawTopMatches(image, pat, w, raw, v.Length);
  }

  /** After the last block every position has been scored, so the kept entries are the best of all. */
  lemma BufferTop(image: seq<Byte>, pat: seq<Byte>, w: seq<real>, k: nat, v: seq<Rating>)
    requires Buffer(image, pat, w, k, |image| / STEP_SIZE + 1, v)
    ensures 0 < k <= |v| && Usable(image, pat, w) && RawTop(image, pat, w, v[..k], |v|)
  {
    assert Scanned(image, pat, |image| / STEP_SIZE + 1) == Positions(image, pat);
  }
}
