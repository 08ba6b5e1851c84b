/** Applying a delta to an image. */
module Applier {
  import opened Common
  import opened ByteRating
  import opened Correlation
  import opened TopSelection
  import opened Matcher
  import opened Ranking
  import opened Acceptance
  import opened Builder
  import opened Delta

  const TOP_SIZE: nat := 5

  // ----- reference definitions -----

  /** Patches whose pattern is no longer than the image. */
  predicate WellFormed(orig: seq<Byte>, e: Edit) {
    0 < |e.matchBytes| <= |orig|
  }

  const SIZE_T: nat := 0x1_0000_0000_0000_0000

  /** The conversion of an int to size_t. */
  function ToSize(i: int): nat {
    if i < 0 then i % SIZE_T else i
  }

  function EditWeights(profile: nat -> real, e: Edit): (w: seq<real>)
    ensures |w| == |e.matchBytes|
    ensures Positive(profile) ==> AllPositive(w)
  {
    WeightsOf(profile, e.matchBytes, PatchLocation(ToSize(e.patchOffset), |e.patchBytes|))
  }

  /** A negative offset wraps around. */
  lemma NegativeOffsetWraps(i: int)
    requires -0x8000_0000 <= i <= 0x7fff_ffff
    ensures ToSize(i) == if i < 0 then 18446744073709551616 + i else i
  {
  }

  /** pos names a best-scoring scanned window; when nothing is scanned the default position 0 stands. */
  ghost predicate AtBest(orig: seq<Byte>, pat: seq<Byte>, w: seq<real>, pos: nat)
    requires Usable(orig, pat, w)
  {
    Wins(orig, pos, pat, w) || (Positions(orig, pat) == 0 && pos == 0)
  }

  /** The verdict on a patch given the best and second-best similarity of its pattern: apply it?
      Exactly one exact match always is, several never, and a near match when the fuzz level lets it. */
  predicate Applies(best: real, second: real, fuzzLevel: int) {
    if best < EXACT then 100.0 * best > fuzzLevel as real else second < EXACT
  }

  /** d is where the patch may be written, or None when it must be skipped. */
  ghost predicate Decides(profile: nat -> real, orig: seq<Byte>, e: Edit, fuzzLevel: int, d: Option<int>)
    requires Positive(profile) && WellFormed(orig, e)
  {
    EditUsable(profile, orig, e);
    var pat, w := e.matchBytes, EditWeights(profile, e);
    if Applies(Ranked(orig, pat, w, 0), Ranked(orig, pat, w, 1), fuzzLevel) then
      d.Some? && e.patchOffset <= d.value && AtBest(orig, pat, w, d.value - e.patchOffset)
    else d.None?
  }

  lemma EditUsable(profile: nat -> real, orig: seq<Byte>, e: Edit)
    requires Positive(profile) && WellFormed(orig, e)
    ensures Usable(orig, e.matchBytes, EditWeights(profile, e))
  {
    UsableIf(orig, e.matchBytes, EditWeights(profile, e));
  }

  /** A location, if any, at which the bytes of the patch lie in an image of n bytes. */
  predicate FitsAt(n: nat, e: Edit, d: Option<int>) {
    d.Some? ==> 0 <= d.value && d.value + |e.patchBytes| <= n
  }

  /** Every location of the report leaves room for the bytes of its patch. */
  predicate Fits(n: nat, edits: seq<Edit>, report: seq<Option<int>>) {
    |report| == |edits| &&
    forall i :: 0 <= i < |report| ==> FitsAt(n, edits[i], report[i])
  }

  /** The image after the reported writes, in order. */
  function WriteAll(orig: seq<Byte>, edits: seq<Edit>, report: seq<Option<int>>): (r: seq<Byte>)
    requires Fits(|orig|, edits, report)
    ensures |r| == |orig|
    decreases |edits|
  {
    if edits == [] then orig
    else
      var m := |edits| - 1;
      var out := WriteAll(orig, edits[..m], report[..m]);
      if report[m].Some? then WriteAt(out, report[m].value, edits[m].patchBytes) else out
  }

  function CountNone(report: seq<Option<int>>): nat {
    if report == [] then 0 else CountNone(report[..|report| - 1]) + if report[|report| - 1].None? then 1 else 0
  }

  ghost predicate AllWellFormed(orig: seq<Byte>, edits: seq<Edit>) {
    forall i :: 0 <= i < |edits| ==> WellFormed(orig, edits[i])
  }

  ghost predicate AllDecided(profile: nat -> real, orig: seq<Byte>, edits: seq<Edit>, fuzzLevel: int,
                             report: seq<Option<int>>)
    requires Positive(profile) && AllWellFormed(orig, edits)
  {
    |report| == |edits| && forall i :: 0 <= i < |report| ==> Decides(profile, orig, edits[i], fuzzLevel, report[i])
  }

  /** What the applier demands of a patch: wherever it may decide to write it, the bytes lie in the
      image. Ties among near matches leave more than one decision open. */
  ghost predicate Safe(profile: nat -> real, orig: seq<Byte>, e: Edit, fuzzLevel: int)
    requires Positive(profile) && WellFormed(orig, e)
  {
    forall d :: Decides(profile, orig, e, fuzzLevel, d) ==> FitsAt(|orig|, e, d)
  }

  ghost predicate AllSafe(profile: nat -> real, orig: seq<Byte>, edits: seq<Edit>, fuzzLevel: int)
    requires Positive(profile) && AllWellFormed(orig, edits)
  {
    forall i :: 0 <= i < |edits| ==> Safe(profile, orig, edits[i], fuzzLevel)
  }

  /** Patches whose changed bytes lie within their pattern. */
  predicate Inside(e: Edit) {
    0 <= e.patchOffset && e.patchOffset + |e.patchBytes| <= |e.matchBytes|
  }

  /** They are safe on every image and at every level. */
  lemma InsideIsSafe(profile: nat -> real, orig: seq<Byte>, e: Edit, fuzzLevel: int)
    requires Positive(profile) && WellFormed(orig, e) && Inside(e)
    ensures Safe(profile, orig, e, fuzzLevel)
  {
    forall d | Decides(profile, orig, e, fuzzLevel, d) ensures FitsAt(|orig|, e, d) {
    }
  }

  /** Everything an application of a delta promises: each patch is decided on the original image,
      the output is the original with the reported writes, and the result counts the skipped ones. */
  ghost predicate Outcome(profile: nat -> real, orig: seq<Byte>, edits: seq<Edit>, fuzzLevel: int,
                          report: seq<Option<int>>, out: seq<Byte>, skipped: nat)
  {
    && Positive(profile) && AllWellFormed(orig, edits)
    && AllDecided(profile, orig, edits, fuzzLevel, report)
    && Fits(|orig|, edits, report)
    && out == WriteAll(orig, edits, report)
    && skipped == CountNone(report)
  }

  // ----- the applier -----

  ghost function EditsOf(delta: seq<Node>): (edits: seq<Edit>)
    requires forall i :: 0 <= i < |delta| ==> Loadable(delta[i])
    ensures |edits| == |delta|
    ensures forall i :: 0 <= i < |delta| ==> edits[i] == EditOf(delta[i])
  {
    seq(|delta|, i requires 0 <= i < |delta| => EditOf(delta[i]))
  }

  lemma MatchesDecide(orig: seq<Byte>, pat: seq<Byte>, w: seq<real>, r: seq<Rating>)
    requires Found(orig, pat, w, TOP_SIZE, r)
    ensures r[0].score == Ranked(orig, pat, w, 0) && r[1].score == Ranked(orig, pat, w, 1)
    ensures AtBest(orig, pat, w, r[0].pos)
  {
    if r[0] == DEFAULT_RATING && 0 < Positions(orig, pat) {
      BestIsMaximum(orig, 0, pat, w);
      SimilarityBounds(orig, 0, pat, w);
    }
  }

  method LoadDelta(delta: seq<Node>) returns (patches: seq<Edit>)
    requires forall i :: 0 <= i < |delta| ==> Loadable(delta[i])
    ensures patches == EditsOf(delta)
  {
    patches := [];
    for i := 0 to |delta|
      invariant patches == EditsOf(delta)[..i]
    {
      var p := LoadPatch(delta[i]);
      patches := patches + [p];
    }
  }

  method FindMatches(table: RatingTable, profile: nat -> real, orig: seq<Byte>, patches: seq<Edit>)
    returns (matches: seq<seq<Rating>>)
    requires table.Ready() && Positive(profile) && AllWellFormed(orig, patches)
    ensures |matches| == |patches|
    ensures forall i :: 0 <= i < |patches| ==>
              Found(orig, patches[i].matchBytes, EditWeights(profile, patches[i]), TOP_SIZE, matches[i])
  {
    hide Found, WeightsOf, Rate;
    var patterns: seq<seq<Byte>> := [];
    var patchLocations: seq<PatchLocation> := [];
    for i := 0 to |patches|
      invariant |patterns| == |patchLocations| == i
      invariant forall k :: 0 <= k < i ==> patterns[k] == patches[k].matchBytes
      invariant forall k :: 0 <= k < i ==>
                  patchLocations[k] == PatchLocation(ToSize(patches[k].patchOffset), |patches[k].patchBytes|)
    {
      patterns := patterns + [patches[i].matchBytes];
      patchLocations := patchLocations + [PatchLocation(ToSize(patches[i].patchOffset), |patches[i].patchBytes|)];
    }
    matches := CalculateTopMatches(table.rating, profile, orig, TOP_SIZE, patterns, patchLocations);
  }

  /** Whether to apply a patch with the given matches. */
  method Decide(profile: nat -> real, orig: seq<Byte>, p: Edit, r: seq<Rating>, fuzzLevel: int)
    returns (d: Option<int>)
    requires Positive(profile) && WellFormed(orig, p)
    requires Found(orig, p.matchBytes, EditWeights(profile, p), TOP_SIZE, r)
    ensures Decides(profile, orig, p, fuzzLevel, d)
  {
    hide TopMatches, Ranked, AtBest;
    MatchesDecide(orig, p.matchBytes, EditWeights(profile, p), r);
    var exact := EXACT;
    var apply := false;
    var patchLocation := r[0].pos + p.patchOffset;
    if r[0].score < exact {
      if 100.0 * r[0].score > fuzzLevel as real {
        apply := true;
      }
    } else if r[1].score >= exact {
    } else {
      apply := true;
    }
    return if apply then Some(patchLocation) else None;
  }

  /** memcpy into the output buffer. */
  method CopyInto(patched: array<Byte>, location: nat, bytes: seq<Byte>)
    requires location + |bytes| <= patched.Length
    modifies patched
    ensures patched[..] == WriteAt(old(patched[..]), location, bytes)
  {
    ghost var before := patched[..];
    for i := 0 to |bytes|
      invariant patched[..] == WriteAt(before, location, bytes[..i])
    {
      patched[location + i] := bytes[i];
      WriteOneMore(before, location, bytes, i);
    }
    assert bytes[..|bytes|] == bytes;
  }

  lemma WriteOneMore(out: seq<Byte>, location: nat, bytes: seq<Byte>, i: nat)
    requires location + |bytes| <= |out| && i < |bytes|
    ensures WriteAt(out, location, bytes[..i])[location + i := bytes[i]] == WriteAt(out, location, bytes[..i + 1])
  {
    assert bytes[..i + 1] == bytes[..i] + [bytes[i]];
  }

  lemma ReportStarts(profile: nat -> real, orig: seq<Byte>, fuzzLevel: int)
    requires Positive(profile)
    ensures Outcome(profile, orig, [], fuzzLevel, [], orig, 0)
  {
  }

  /** One more patch decided and, if applied, written. */
  lemma ReportGrows(profile: nat -> real, orig: seq<Byte>, edits: seq<Edit>, e: Edit, fuzzLevel: int,
                    report: seq<Option<int>>, out: seq<Byte>, skipped: nat, d: Option<int>)
    requires Outcome(profile, orig, edits, fuzzLevel, report, out, skipped)
    requires WellFormed(orig, e) && Decides(profile, orig, e, fuzzLevel, d) && FitsAt(|orig|, e, d)
    ensures d.Some? ==> 0 <= d.value && d.value + |e.patchBytes| <= |orig| == |out|
    ensures var out' := if d.Some? then WriteAt(out, d.value, e.patchBytes) else out;
            var skipped' := if d.Some? then skipped else skipped + 1;
            Outcome(profile, orig, edits + [e], fuzzLevel, report + [d], out', skipped')
  {
    hide Decides, WellFormed;
    assert (edits + [e])[..|edits|] == edits && (report + [d])[..|report|] == report;
  }

  method PatchFiles(table: RatingTable, profile: nat -> real, orig: seq<Byte>, delta: seq<Node>, fuzzLevel: int)
    returns (patched: array<Byte>, report: seq<Option<int>>, skipped: nat)
    requires table.Ready() && Positive(profile)
    requires forall i :: 0 <= i < |delta| ==> Loadable(delta[i])
    requires AllWellFormed(orig, EditsOf(delta)) && AllSafe(profile, orig, EditsOf(delta), fuzzLevel)
    ensures fresh(patched)
    ensures Outcome(profile, orig, EditsOf(delta), fuzzLevel, report, patched[..], skipped)
  {
    hide Found, Decides, WellFormed, Loadable, EditOf, Rate, Outcome;
    patched := new Byte[|orig|](i requires 0 <= i < |orig| => orig[i]);
    assert patched[..] == orig;
    var patches := LoadDelta(delta);
    var matches := FindMatches(table, profile, orig, patches);
    report := [];
    skipped := 0;
    var applied := 0;
    ReportStarts(profile, orig, fuzzLevel);
    for i := 0 to |matches|
      invariant |report| == i && applied + skipped == i
      invariant Outcome(profile, orig, patches[..i], fuzzLevel, report, patched[..], skipped)
    {
      var d := Decide(profile, orig, patches[i], matches[i], fuzzLevel);
      assert Safe(profile, orig, patches[i], fuzzLevel);
      ReportGrows(profile, orig, patches[..i], patches[i], fuzzLevel, report, patched[..], skipped, d);
      assert patches[..i + 1] == patches[..i] + [patches[i]];
      if d.Some? {
        CopyInto(patched, d.value, patches[i].patchBytes);
        applied := applied + 1;
      } else {
        skipped := skipped + 1;
      }
      report := report + [d];
    }
    assert patches[..|patches|] == patches;
  }

  // ----- properties of an application -----

  /** Byte j is written by patch i. */
  ghost predicate Hits(edits: seq<Edit>, report: seq<Option<int>>, i: nat, j: nat)
    requires |report| == |edits| && i < |edits|
  {
    report[i].Some? && report[i].value <= j < report[i].value + |edits[i].patchBytes|
  }

  /** A byte no patch writes keeps its original value. */
  lemma {:induction false} UntouchedByte(orig: seq<Byte>, edits: seq<Edit>, report: seq<Option<int>>, j: nat)
    requires Fits(|orig|, edits, report) && j < |orig|
    requires forall i: nat :: i < |edits| ==> !Hits(edits, report, i, j)
    ensures WriteAll(orig, edits, report)[j] == orig[j]
    decreases |edits|
  {
    if edits == [] {
    } else {
      var m := |edits| - 1;
      forall i: nat | i < m ensures !Hits(edits[..m], report[..m], i, j) {
        assert !Hits(edits, report, i, j);
      }
      UntouchedByte(orig, edits[..m], report[..m], j);
      assert !Hits(edits, report, m, j);
    }
  }

  /** Where writes overlap, the last applied patch decides. */
  lemma {:induction false} LastWriterWins(orig: seq<Byte>, edits: seq<Edit>, report: seq<Option<int>>, i: nat, j: nat)
    requires Fits(|orig|, edits, report) && j < |orig| && i < |edits|
    requires Hits(edits, report, i, j)
    requires forall k: nat :: i < k < |edits| ==> !Hits(edits, report, k, j)
    ensures WriteAll(orig, edits, report)[j] == edits[i].patchBytes[j - report[i].value]
    decreases |edits|
  {
    var m := |edits| - 1;
    if i == m {
    } else {
      assert Hits(edits[..m], report[..m], i, j);
      forall k: nat | i < k < m ensures !Hits(edits[..m], report[..m], k, j) {
        assert !Hits(edits, report, k, j);
      }
      LastWriterWins(orig, edits[..m], report[..m], i, j);
      assert !Hits(edits, report, m, j);
    }
  }

  lemma {:induction false} NothingSkipped(report: seq<Option<int>>)
    ensures CountNone(report) == 0 <==> forall i :: 0 <= i < |report| ==> report[i].Some?
    ensures CountNone(report) <= |report|
  {
    if report == [] {
    } else {
      NothingSkipped(report[..|report| - 1]);
    }
  }

  lemma {:induction false} CountNoneCounts(report: seq<Option<int>>)
    ensures CountNone(report) == |set i | 0 <= i < |report| && report[i].None?|
  {
    if report == [] {
    } else {
      var m := |report| - 1;
      CountNoneCounts(report[..m]);
      var before := set i | 0 <= i < m && report[..m][i].None?;
      var all := set i | 0 <= i < |report| && report[i].None?;
      assert all == if report[m].None? then before + {m} else before;
    }
  }

  /** The result is the number of patches that were not applied. */
  lemma ResultCounts(profile: nat -> real, orig: seq<Byte>, edits: seq<Edit>, fuzzLevel: int,
                     report: seq<Option<int>>, out: seq<Byte>, skipped: nat)
    requires Outcome(profile, orig, edits, fuzzLevel, report, out, skipped)
    ensures |report| == |edits| && skipped == |set i | 0 <= i < |report| && report[i].None?|
  {
    hide Fits, WriteAll, Decides, WellFormed;
    CountNoneCounts(report);
  }

  /** The result is 0 exactly when every patch was applied. */
  lemma ResultZero(profile: nat -> real, orig: seq<Byte>, edits: seq<Edit>, fuzzLevel: int,
                   report: seq<Option<int>>, out: seq<Byte>, skipped: nat)
    requires Outcome(profile, orig, edits, fuzzLevel, report, out, skipped)
    ensures skipped == 0 <==> forall i :: 0 <= i < |edits| ==> report[i].Some?
    ensures |out| == |orig| && skipped <= |edits|
  {
    NothingSkipped(report);
  }

  lemma {:induction false} CountNoneMonotone(a: seq<Option<int>>, b: seq<Option<int>>)
    requires |a| == |b| && forall i :: 0 <= i < |a| && b[i].Some? ==> a[i].Some?
    ensures CountNone(a) <= CountNone(b)
  {
    if a == [] {
    } else {
      CountNoneMonotone(a[..|a| - 1], b[..|b| - 1]);
    }
  }

  /** Lowering the fuzz level never stops a patch of a delta from being applied, so it never raises
      the number of skipped ones. */
  lemma FuzzMonotone(profile: nat -> real, orig: seq<Byte>, edits: seq<Edit>,
                     low: int, reportLow: seq<Option<int>>, outLow: seq<Byte>, skippedLow: nat,
                     high: int, reportHigh: seq<Option<int>>, outHigh: seq<Byte>, skippedHigh: nat)
    requires low <= high
    requires Outcome(profile, orig, edits, low, reportLow, outLow, skippedLow)
    requires Outcome(profile, orig, edits, high, reportHigh, outHigh, skippedHigh)
    ensures forall i :: 0 <= i < |edits| && reportHigh[i].Some? ==> reportLow[i].Some?
    ensures skippedLow <= skippedHigh
  {
    hide Ranked, WriteAll, Fits, AtBest;
    forall i | 0 <= i < |edits| && reportHigh[i].Some? ensures reportLow[i].Some? {
      assert Decides(profile, orig, edits[i], low, reportLow[i]);
      assert Decides(profile, orig, edits[i], high, reportHigh[i]);
    }
    CountNoneMonotone(reportLow, reportHigh);
  }

  /** The window at p is scanned and counts as an exact match of the patch's pattern. */
  ghost predicate ExactAt(profile: nat -> real, orig: seq<Byte>, e: Edit, p: nat)
    requires Positive(profile) && WellFormed(orig, e)
  {
    EditUsable(profile, orig, e);
    p < Positions(orig, e.matchBytes) && EXACT <= Similarity(orig, p, e.matchBytes, EditWeights(profile, e))
  }

  ghost predicate OnlyExactAt(profile: nat -> real, orig: seq<Byte>, e: Edit, p: nat)
    requires Positive(profile) && WellFormed(orig, e)
  {
    ExactAt(profile, orig, e, p) && forall q: nat :: ExactAt(profile, orig, e, q) ==> q == p
  }

  /** A patch whose pattern matches exactly at one scanned window only is applied there, at any level. */
  lemma UniqueMatchIsApplied(profile: nat -> real, orig: seq<Byte>, e: Edit, fuzzLevel: int, d: Option<int>, p: nat)
    requires Positive(profile) && WellFormed(orig, e)
    requires Decides(profile, orig, e, fuzzLevel, d) && OnlyExactAt(profile, orig, e, p)
    ensures d == Some(p + e.patchOffset)
  {
    hide Ranked, Similarity, EditWeights, Usable;
    EditUsable(profile, orig, e);
    var pat, w := e.matchBytes, EditWeights(profile, e);
    assert Only(orig, p, pat, w, EXACT) by {
      forall q: nat | q < Positions(orig, pat) && EXACT <= Similarity(orig, q, pat, w) ensures q == p {
        assert ExactAt(profile, orig, e, q);
      }
    }
    OneWindowReaches(orig, pat, w, EXACT);
    assert ExactAt(profile, orig, e, d.value - e.patchOffset);
  }

  /** With fuzzing off (level 100 or more) a patch is applied exactly when one and only one scanned
      window is an exact match. */
  lemma AppliedWithoutFuzz(profile: nat -> real, orig: seq<Byte>, e: Edit, fuzzLevel: int, d: Option<int>)
    requires Positive(profile) && WellFormed(orig, e) && 100 <= fuzzLevel
    requires Decides(profile, orig, e, fuzzLevel, d)
    ensures d.Some? <==> exists p :: OnlyExactAt(profile, orig, e, p)
  {
    hide Ranked, Similarity, EditWeights, Usable;
    EditUsable(profile, orig, e);
    var pat, w := e.matchBytes, EditWeights(profile, e);
    OneWindowReaches(orig, pat, w, EXACT);
    if d.Some? {
      var p :| Only(orig, p, pat, w, EXACT);
      assert OnlyExactAt(profile, orig, e, p);
    }
    if exists p :: OnlyExactAt(profile, orig, e, p) {
      var p :| OnlyExactAt(profile, orig, e, p);
      UniqueMatchIsApplied(profile, orig, e, fuzzLevel, d, p);
    }
  }

  /** A pattern that matches exactly at two scanned windows is applied at no level. */
  lemma AmbiguousIsSkipped(profile: nat -> real, orig: seq<Byte>, e: Edit, fuzzLevel: int, d: Option<int>,
                           p: nat, q: nat)
    requires Positive(profile) && WellFormed(orig, e) && p != q
    requires Decides(profile, orig, e, fuzzLevel, d)
    requires ExactAt(profile, orig, e, p) && ExactAt(profile, orig, e, q)
    ensures d.None?
  {
    hide Ranked, Similarity, EditWeights, Usable;
    EditUsable(profile, orig, e);
    var pat, w := e.matchBytes, EditWeights(profile, e);
    RankedBounds(orig, pat, w);
    if Ranked(orig, pat, w, 1) < EXACT {
      BeatsSecond(orig, p, q, pat, w);
    }
  }

  // ----- near matches -----

  /** The similarity of a patch's pattern and the scanned window at p. */
  ghost function ScoreAt(profile: nat -> real, orig: seq<Byte>, e: Edit, p: nat): real
    requires Positive(profile) && WellFormed(orig, e) && p < Positions(orig, e.matchBytes)
  {
    EditUsable(profile, orig, e);
    Similarity(orig, p, e.matchBytes, EditWeights(profile, e))
  }

  /** Some scanned window has the best similarity, and no window a better one. */
  lemma BestScore(profile: nat -> real, orig: seq<Byte>, e: Edit, best: real) returns (p: nat)
    requires Positive(profile) && WellFormed(orig, e) && 0 < Positions(orig, e.matchBytes)
    requires best == BestSimilarity(profile, orig, e)
    ensures p < Positions(orig, e.matchBytes) && ScoreAt(profile, orig, e, p) == best
    ensures forall q: nat :: q < Positions(orig, e.matchBytes) ==> ScoreAt(profile, orig, e, q) <= best
  {
    hide Ranked, Similarity, EditWeights, Usable;
    EditUsable(profile, orig, e);
    var pat, w := e.matchBytes, EditWeights(profile, e);
    RankedBounds(orig, pat, w);
    forall q: nat | q < Positions(orig, pat) ensures ScoreAt(profile, orig, e, q) <= best {
      BestIsMaximum(orig, q, pat, w);
    }
    if 0.0 < best {
      p := BestIsReached(orig, pat, w);
    } else {
      p := 0;
      SimilarityBounds(orig, 0, pat, w);
    }
  }

  ghost function BestSimilarity(profile: nat -> real, orig: seq<Byte>, e: Edit): real
    requires Positive(profile) && WellFormed(orig, e)
  {
    EditUsable(profile, orig, e);
    Ranked(orig, e.matchBytes, EditWeights(profile, e), 0)
  }

  /** A patch that is applied goes to a scanned window that no other beats. */
  lemma AppliedAtBest(profile: nat -> real, orig: seq<Byte>, e: Edit, fuzzLevel: int, d: Option<int>)
    requires Positive(profile) && WellFormed(orig, e) && 0 < Positions(orig, e.matchBytes)
    requires Decides(profile, orig, e, fuzzLevel, d) && d.Some?
    ensures 0 <= d.value - e.patchOffset < Positions(orig, e.matchBytes)
    ensures forall q: nat :: q < Positions(orig, e.matchBytes) ==>
              ScoreAt(profile, orig, e, q) <= ScoreAt(profile, orig, e, d.value - e.patchOffset)
  {
    hide Ranked, Similarity, EditWeights, Usable;
    var p := BestScore(profile, orig, e, BestSimilarity(profile, orig, e));
  }

  /** When windows are scanned and none is an exact match, a patch is applied exactly when the
      percentage of some window exceeds the fuzz level. */
  lemma NearMatch(profile: nat -> real, orig: seq<Byte>, e: Edit, fuzzLevel: int, d: Option<int>)
    requires Positive(profile) && WellFormed(orig, e) && 0 < Positions(orig, e.matchBytes)
    requires Decides(profile, orig, e, fuzzLevel, d)
    requires forall p: nat :: p < Positions(orig, e.matchBytes) ==> ScoreAt(profile, orig, e, p) < 0.9999
    ensures d.Some? <==> exists p: nat :: p < Positions(orig, e.matchBytes) &&
                                          100.0 * ScoreAt(profile, orig, e, p) > fuzzLevel as real
  {
    hide Ranked, Similarity, EditWeights, Usable, ScoreAt;
    var p := BestScore(profile, orig, e, BestSimilarity(profile, orig, e));
    assert ScoreAt(profile, orig, e, p) < 0.9999;
  }

  /** When nothing is scanned, a patch is applied exactly at negative levels, and then at position 0. */
  lemma NothingScanned(profile: nat -> real, orig: seq<Byte>, e: Edit, fuzzLevel: int, d: Option<int>)
    requires Positive(profile) && WellFormed(orig, e) && |e.matchBytes| == |orig|
    requires Decides(profile, orig, e, fuzzLevel, d)
    ensures d == if fuzzLevel < 0 then Some(e.patchOffset) else None
  {
    hide Ranked, EditWeights, Usable;
    EditUsable(profile, orig, e);
    NothingScannedIsZero(orig, e.matchBytes, EditWeights(profile, e));
  }
}
