/** Diffing two images and applying the delta to the first: when the second comes back. */
module RoundTrip {
  import opened Common
  import opened ByteRating
  import opened Correlation
  import opened Matcher
  import opened Ranking
  import opened Acceptance
  import opened Segmenter
  import opened Builder
  import opened Delta
  import opened Diff
  import opened Applier

  /** A built patch that will find its place again: its recorded runner-up is below the exactness
      threshold, and its pattern ends strictly before the end of the image, so that its own window is
      scanned. Both can be read off the patch. */
  predicate Reliable(p: Patch, n: nat) {
    p.secondMatchCorrelation < EXACT && !Flush(p, n)
  }

  predicate Flush(p: Patch, n: nat) {
    p.origOffset + |p.edit.patchBytes| + p.edit.patchOffset >= n
  }

  /** A built patch that is written to its own place at the given fuzz level. Besides the reliable ones
      these are, at negative levels, those whose pattern is the whole image: nothing is scanned for them,
      and their default match at position 0 passes for a near one. */
  predicate Returns(p: Patch, n: nat, fuzzLevel: int) {
    Reliable(p, n) || (fuzzLevel < 0 && |p.edit.matchBytes| == n)
  }

  // ----- one patch -----

  ghost predicate BuiltFor(profile: nat -> real, orig: seq<Byte>, patched: seq<Byte>, s: Segment, p: Patch)
    requires Positive(profile) && |orig| == |patched|
  {
    s.start < s.end <= |orig| && Records(profile, orig, patched, s.start, s.end, p)
  }

  lemma BuiltForFacts(profile: nat -> real, orig: seq<Byte>, patched: seq<Byte>, s: Segment, p: Patch)
    requires Positive(profile) && |orig| == |patched| && BuiltFor(profile, orig, patched, s, p)
    ensures WellFormed(orig, p.edit) && Inside(p.edit) && 0 < |p.edit.patchBytes| && 0 < |p.edit.matchBytes|
    ensures p.origOffset == s.start && p.edit.patchBytes == patched[s.start..s.end]
    ensures InRange(orig, s.start, s.end, p.edit.patchOffset)
    ensures p.edit.matchBytes == Context(orig, s.start, s.end, p.edit.patchOffset)
    ensures EditWeights(profile, p.edit) == ContextWeights(profile, orig, s.start, s.end, p.edit.patchOffset)
    ensures p.secondMatchCorrelation == SecondBest(profile, orig, s.start, s.end, p.edit.patchOffset)
    ensures p.edit.patchOffset <= 512 ==> p.secondMatchCorrelation < EXACT
  {
    hide Accepted, WeightsOf;
  }

  /** A pattern's own window, when scanned, is a perfect match. */
  lemma OwnWindow(profile: nat -> real, orig: seq<Byte>, start: nat, end: nat, e: nat)
    requires Positive(profile) && InRange(orig, start, end, e)
    ensures var pat, w := Context(orig, start, end, e), ContextWeights(profile, orig, start, end, e);
            Usable(orig, pat, w) && Similarity(orig, start - e, pat, w) == 1.0
  {
    hide Usable, Similarity, ContextWeights;
    ContextUsable(profile, orig, start, end, e);
    var pat, w := Context(orig, start, end, e), ContextWeights(profile, orig, start, end, e);
    SimilarityBounds(orig, start - e, pat, w);
    assert start - e + |pat| == end + e;
  }

  lemma ReliableIsApplied(profile: nat -> real, orig: seq<Byte>, patched: seq<Byte>, s: Segment, p: Patch,
                          fuzzLevel: int, d: Option<int>)
    requires Positive(profile) && |orig| == |patched| && BuiltFor(profile, orig, patched, s, p)
    requires WellFormed(orig, p.edit) && Decides(profile, orig, p.edit, fuzzLevel, d)
    requires Reliable(p, |orig|)
    ensures d == Some(s.start)
  {
    hide BuiltFor, Decides, Ranked, Similarity, EditWeights, ContextWeights, Usable;
    BuiltForFacts(profile, orig, patched, s, p);
    var e := p.edit.patchOffset;
    OwnWindow(profile, orig, s.start, s.end, e);
    var t := s.start - e;
    var pat, w := p.edit.matchBytes, EditWeights(profile, p.edit);
    assert ExactAt(profile, orig, p.edit, t);
    forall q: nat | ExactAt(profile, orig, p.edit, q) ensures q == t {
      BeatsSecond(orig, t, q, pat, w);
    }
    UniqueMatchIsApplied(profile, orig, p.edit, fuzzLevel, d, t);
  }

  lemma AmbiguousAcceptanceIsSkipped(profile: nat -> real, orig: seq<Byte>, patched: seq<Byte>, s: Segment, p: Patch,
                                     fuzzLevel: int, d: Option<int>)
    requires Positive(profile) && |orig| == |patched| && BuiltFor(profile, orig, patched, s, p)
    requires WellFormed(orig, p.edit) && Decides(profile, orig, p.edit, fuzzLevel, d)
    requires EXACT <= p.secondMatchCorrelation
    ensures d.None?
  {
    hide BuiltFor, Ranked, EditWeights, ContextWeights, Usable;
    BuiltForFacts(profile, orig, patched, s, p);
    EditUsable(profile, orig, p.edit);
    RankedBounds(orig, p.edit.matchBytes, EditWeights(profile, p.edit));
  }

  /** A whole-image pattern is applied at position 0, its own, exactly when the level is negative. */
  lemma WholeImagePattern(profile: nat -> real, orig: seq<Byte>, patched: seq<Byte>, s: Segment, p: Patch,
                          fuzzLevel: int, d: Option<int>)
    requires Positive(profile) && |orig| == |patched| && BuiltFor(profile, orig, patched, s, p)
    requires WellFormed(orig, p.edit) && Decides(profile, orig, p.edit, fuzzLevel, d)
    requires |p.edit.matchBytes| == |orig|
    ensures d == if fuzzLevel < 0 then Some(s.start) else None
  {
    hide BuiltFor, Decides, ContextWeights;
    BuiltForFacts(profile, orig, patched, s, p);
    NothingScanned(profile, orig, p.edit, fuzzLevel, d);
  }

  /** Any other flush patch, if applied at all, is written before its own place. */
  lemma FlushIsMisplaced(profile: nat -> real, orig: seq<Byte>, patched: seq<Byte>, s: Segment, p: Patch,
                         fuzzLevel: int, d: Option<int>)
    requires Positive(profile) && |orig| == |patched| && BuiltFor(profile, orig, patched, s, p)
    requires WellFormed(orig, p.edit) && Decides(profile, orig, p.edit, fuzzLevel, d)
    requires Flush(p, |orig|) && |p.edit.matchBytes| < |orig|
    ensures d.Some? ==> d.value < s.start
  {
    hide BuiltFor, Ranked, EditWeights, ContextWeights, Usable, Similarity;
    BuiltForFacts(profile, orig, patched, s, p);
    EditUsable(profile, orig, p.edit);
  }

  // ----- all patches -----

  /** Patch i belongs to range i. */
  ghost predicate AllBuiltFor(profile: nat -> real, orig: seq<Byte>, patched: seq<Byte>, segs: seq<Segment>,
                              ps: seq<Patch>)
    requires Positive(profile) && |orig| == |patched|
  {
    |ps| == |segs| && forall i :: 0 <= i < |segs| ==> BuiltFor(profile, orig, patched, segs[i], ps[i])
  }

  lemma {:induction false} BuildAllRecords(profile: nat -> real, orig: seq<Byte>, patched: seq<Byte>,
                                           segs: seq<Segment>)
    requires Positive(profile) && |orig| == |patched| && Proper(segs, |orig|)
    requires BuildAll(profile, orig, patched, segs).Success?
    ensures AllBuiltFor(profile, orig, patched, segs, BuildAll(profile, orig, patched, segs).value)
  {
    hide Build, Records;
    if segs == [] {
    } else {
      var m := |segs| - 1;
      BuildAllRecords(profile, orig, patched, segs[..m]);
      BuiltPatch(profile, orig, patched, segs[m].start, segs[m].end);
      var before := BuildAll(profile, orig, patched, segs[..m]).value;
      forall i: nat | i < m
        ensures BuiltFor(profile, orig, patched, segs[i], BuildAll(profile, orig, patched, segs).value[i])
      {
        assert BuiltFor(profile, orig, patched, segs[..m][i], before[i]);
      }
    }
  }

  /** A successful diff has one patch for each range of the canonical segmentation. */
  lemma DiffRecords(profile: nat -> real, orig: seq<Byte>, patched: seq<Byte>)
    requires Positive(profile) && PatchesOf(profile, orig, patched).Success?
    ensures |orig| == |patched|
    ensures AllBuiltFor(profile, orig, patched, Segments(orig, patched, 0), PatchesOf(profile, orig, patched).value)
  {
    hide BuildAll, AllBuiltFor;
    SegmentsProper(orig, patched);
    BuildAllRecords(profile, orig, patched, Segments(orig, patched, 0));
  }

  function EditsIn(ps: seq<Patch>): (edits: seq<Edit>)
    ensures |edits| == |ps|
  {
    seq(|ps|, i requires 0 <= i < |ps| => ps[i].edit)
  }

  /** The delta of a successful diff can be loaded and applied to the original image at every level. */
  lemma DeltaIsApplicable(profile: nat -> real, orig: seq<Byte>, patched: seq<Byte>, fuzzLevel: int)
    requires Positive(profile) && PatchesOf(profile, orig, patched).Success?
    ensures var delta := NodesOf(PatchesOf(profile, orig, patched).value);
            && (forall i :: 0 <= i < |delta| ==> Loadable(delta[i]))
            && EditsOf(delta) == EditsIn(PatchesOf(profile, orig, patched).value)
            && AllWellFormed(orig, EditsOf(delta))
            && AllSafe(profile, orig, EditsOf(delta), fuzzLevel)
  {
    hide PatchesOf, BuiltFor, WellFormed, Safe, Loadable, EditOf, NodeOf, Segments;
    DiffRecords(profile, orig, patched);
    var ps := PatchesOf(profile, orig, patched).value;
    var segs := Segments(orig, patched, 0);
    forall i: nat | i < |ps|
      ensures Loadable(NodeOf(ps[i].edit)) && EditOf(NodeOf(ps[i].edit)) == ps[i].edit
      ensures WellFormed(orig, ps[i].edit) && Safe(profile, orig, ps[i].edit, fuzzLevel)
    {
      BuiltForFacts(profile, orig, patched, segs[i], ps[i]);
      StoreLoad(ps[i].edit);
      InsideIsSafe(profile, orig, ps[i].edit, fuzzLevel);
    }
    assert EditsOf(NodesOf(ps)) == EditsIn(ps);
  }

  // ----- the whole image -----

  /** An application of the patches ps, built for the canonical ranges, with the given report. */
  ghost predicate Applied(profile: nat -> real, orig: seq<Byte>, patched: seq<Byte>, ps: seq<Patch>, fuzzLevel: int,
                          report: seq<Option<int>>)
    requires Positive(profile) && |orig| == |patched|
  {
    && AllBuiltFor(profile, orig, patched, Segments(orig, patched, 0), ps)
    && AllWellFormed(orig, EditsIn(ps))
    && AllDecided(profile, orig, EditsIn(ps), fuzzLevel, report)
    && Fits(|orig|, EditsIn(ps), report)
  }

  lemma DisjointRanges(orig: seq<Byte>, patched: seq<Byte>, segs: seq<Segment>, i: nat, j: nat)
    requires |orig| == |patched| && Canonical(orig, patched, 0, segs) && i < j < |segs|
    ensures segs[i].end <= segs[j].start
  {
    hide Covers, AllRanges;
  }

  /** What is known of report entry i. */
  lemma Placement(profile: nat -> real, orig: seq<Byte>, patched: seq<Byte>, ps: seq<Patch>, fuzzLevel: int,
                  report: seq<Option<int>>, i: nat)
    requires Positive(profile) && |orig| == |patched| && Applied(profile, orig, patched, ps, fuzzLevel, report)
    requires i < |ps|
    ensures |report| == |ps| == |Segments(orig, patched, 0)|
    ensures var s := Segments(orig, patched, 0)[i];
            && s.start < s.end <= |orig|
            && ps[i].edit.patchBytes == patched[s.start..s.end]
            && (Returns(ps[i], |orig|, fuzzLevel) ==> report[i] == Some(s.start))
            && (!Returns(ps[i], |orig|, fuzzLevel) && report[i].Some? ==> report[i].value < s.start)
  {
    hide Decides, WellFormed, Segments, Records;
    var s := Segments(orig, patched, 0)[i];
    assert BuiltFor(profile, orig, patched, s, ps[i]);
    BuiltForFacts(profile, orig, patched, s, ps[i]);
    assert EditsIn(ps)[i] == ps[i].edit;
    assert Decides(profile, orig, ps[i].edit, fuzzLevel, report[i]);
    if Reliable(ps[i], |orig|) {
      ReliableIsApplied(profile, orig, patched, s, ps[i], fuzzLevel, report[i]);
    } else if |ps[i].edit.matchBytes| == |orig| {
      WholeImagePattern(profile, orig, patched, s, ps[i], fuzzLevel, report[i]);
    } else if Flush(ps[i], |orig|) {
      FlushIsMisplaced(profile, orig, patched, s, ps[i], fuzzLevel, report[i]);
    } else {
      AmbiguousAcceptanceIsSkipped(profile, orig, patched, s, ps[i], fuzzLevel, report[i]);
    }
  }

  ghost predicate AllReturn(ps: seq<Patch>, n: nat, fuzzLevel: int) {
    forall i :: 0 <= i < |ps| ==> Returns(ps[i], n, fuzzLevel)
  }

  /** Patches that are all written to their ranges write exactly the ranges. */
  lemma {:induction false} WritesAreRanges(orig: seq<Byte>, patched: seq<Byte>, segs: seq<Segment>, edits: seq<Edit>,
                                           report: seq<Option<int>>)
    requires |orig| == |patched| && Within(segs, |orig|) && |segs| == |edits| && Fits(|orig|, edits, report)
    requires forall i :: 0 <= i < |segs| ==>
               report[i] == Some(segs[i].start) && edits[i].patchBytes == patched[segs[i].start..segs[i].end]
    ensures WriteAll(orig, edits, report) == WriteRanges(orig, patched, segs)
    decreases |segs|
  {
    if segs == [] {
    } else {
      var m := |segs| - 1;
      WritesAreRanges(orig, patched, segs[..m], edits[..m], report[..m]);
    }
  }

  /** Patches that all return rebuild the patched image. */
  lemma ReturnedWrites(profile: nat -> real, orig: seq<Byte>, patched: seq<Byte>, ps: seq<Patch>, fuzzLevel: int,
                       report: seq<Option<int>>)
    requires Positive(profile) && |orig| == |patched| && Applied(profile, orig, patched, ps, fuzzLevel, report)
    requires AllReturn(ps, |orig|, fuzzLevel)
    ensures WriteAll(orig, EditsIn(ps), report) == patched
    ensures forall i :: 0 <= i < |report| ==> report[i].Some?
  {
    hide Applied, Segments, Returns, WriteAll, WriteRanges;
    var segs := Segments(orig, patched, 0);
    AppliedShape(profile, orig, patched, ps, fuzzLevel, report);
    forall i: nat | i < |ps|
      ensures segs[i].start < segs[i].end <= |orig|
      ensures report[i] == Some(segs[i].start) && ps[i].edit.patchBytes == patched[segs[i].start..segs[i].end]
    {
      Placement(profile, orig, patched, ps, fuzzLevel, report, i);
    }
    SegmentsReconstruct(orig, patched, segs);
    WritesAreRanges(orig, patched, segs, EditsIn(ps), report);
  }

  lemma AppliedShape(profile: nat -> real, orig: seq<Byte>, patched: seq<Byte>, ps: seq<Patch>, fuzzLevel: int,
                     report: seq<Option<int>>)
    requires Positive(profile) && |orig| == |patched| && Applied(profile, orig, patched, ps, fuzzLevel, report)
    ensures |report| == |ps| == |Segments(orig, patched, 0)| && Fits(|orig|, EditsIn(ps), report)
  {
  }

  lemma {:induction false} LastStray(ps: seq<Patch>, n: nat, fuzzLevel: int, m: nat) returns (k: nat)
    requires m <= |ps| && !AllReturn(ps[..m], n, fuzzLevel)
    ensures k < m && !Returns(ps[k], n, fuzzLevel) && forall i :: k < i < m ==> Returns(ps[i], n, fuzzLevel)
    decreases m
  {
    if !Returns(ps[m - 1], n, fuzzLevel) {
      k := m - 1;
    } else {
      k := LastStray(ps, n, fuzzLevel, m - 1);
    }
  }

  /** If every patch is applied although some do not return, the last byte of the range of the last
      of these is written by nobody. */
  lemma StrayByte(profile: nat -> real, orig: seq<Byte>, patched: seq<Byte>, ps: seq<Patch>, fuzzLevel: int,
                  report: seq<Option<int>>)
    requires Positive(profile) && |orig| == |patched| && Applied(profile, orig, patched, ps, fuzzLevel, report)
    requires !AllReturn(ps, |orig|, fuzzLevel)
    requires |report| == |ps| && forall i :: 0 <= i < |ps| ==> report[i].Some?
    ensures WriteAll(orig, EditsIn(ps), report) != patched
  {
    hide Applied, Segments, Canonical, Returns;
    var segs, edits := Segments(orig, patched, 0), EditsIn(ps);
    SegmentsCanonical(orig, patched, 0);
    AppliedShape(profile, orig, patched, ps, fuzzLevel, report);
    assert ps[..|ps|] == ps;
    var m := LastStray(ps, |orig|, fuzzLevel, |ps|);
    Placement(profile, orig, patched, ps, fuzzLevel, report, m);
    var b := segs[m].end - 1;
    forall i: nat | i < |ps| ensures !Hits(edits, report, i, b) {
      MissesByte(profile, orig, patched, ps, fuzzLevel, report, m, i);
    }
    UntouchedByte(orig, edits, report, b);
    LastByteDiffers(orig, patched, segs, m);
  }

  lemma LastByteDiffers(orig: seq<Byte>, patched: seq<Byte>, segs: seq<Segment>, m: nat)
    requires |orig| == |patched| && Canonical(orig, patched, 0, segs) && m < |segs|
    ensures 0 < segs[m].end <= |orig| && orig[segs[m].end - 1] != patched[segs[m].end - 1]
  {
    hide Covers, AllRanges;
    RangeAt(orig, patched, 0, segs, m);
  }

  lemma MissesByte(profile: nat -> real, orig: seq<Byte>, patched: seq<Byte>, ps: seq<Patch>, fuzzLevel: int,
                   report: seq<Option<int>>, m: nat, i: nat)
    requires Positive(profile) && |orig| == |patched| && Applied(profile, orig, patched, ps, fuzzLevel, report)
    requires |ps| == |report| == |Segments(orig, patched, 0)|
    requires forall k :: 0 <= k < |ps| ==> report[k].Some?
    requires m < |ps| && !Returns(ps[m], |orig|, fuzzLevel)
    requires forall k :: m < k < |ps| ==> Returns(ps[k], |orig|, fuzzLevel)
    requires i < |ps|
    ensures !Hits(EditsIn(ps), report, i, Segments(orig, patched, 0)[m].end - 1)
  {
    hide Applied, Segments, Canonical, Returns;
    var segs := Segments(orig, patched, 0);
    SegmentsCanonical(orig, patched, 0);
    Placement(profile, orig, patched, ps, fuzzLevel, report, i);
    Placement(profile, orig, patched, ps, fuzzLevel, report, m);
    if i < m {
      DisjointRanges(orig, patched, segs, i, m);
    } else if m < i {
      DisjointRanges(orig, patched, segs, m, i);
    }
  }

  lemma OutcomeIsApplied(profile: nat -> real, orig: seq<Byte>, patched: seq<Byte>, ps: seq<Patch>, fuzzLevel: int,
                         report: seq<Option<int>>, out: seq<Byte>, skipped: nat)
    requires Positive(profile) && PatchesOf(profile, orig, patched) == Success(ps)
    requires Outcome(profile, orig, EditsIn(ps), fuzzLevel, report, out, skipped)
    ensures |orig| == |patched| && Applied(profile, orig, patched, ps, fuzzLevel, report)
    ensures out == WriteAll(orig, EditsIn(ps), report)
    ensures skipped == 0 <==> forall i :: 0 <= i < |report| ==> report[i].Some?
  {
    hide PatchesOf, AllBuiltFor, AllDecided, Segments, NodesOf, EditsOf;
    DiffRecords(profile, orig, patched);
    NothingSkipped(report);
  }

  /** The round trip: when all patches of a diff return, applying them to the original image gives
      the patched image byte for byte and skips nothing. */
  lemma DiffThenPatch(profile: nat -> real, orig: seq<Byte>, patched: seq<Byte>, ps: seq<Patch>, fuzzLevel: int,
                      report: seq<Option<int>>, out: seq<Byte>, skipped: nat)
    requires Positive(profile) && PatchesOf(profile, orig, patched) == Success(ps)
    requires Outcome(profile, orig, EditsIn(ps), fuzzLevel, report, out, skipped)
    requires AllReturn(ps, |orig|, fuzzLevel)
    ensures out == patched && skipped == 0
  {
    hide Outcome, PatchesOf, AllReturn, Segments, Applied, WriteAll;
    OutcomeIsApplied(profile, orig, patched, ps, fuzzLevel, report, out, skipped);
    ReturnedWrites(profile, orig, patched, ps, fuzzLevel, report);
  }

  /** And only then, at every fuzz level: applying a diff to its original gives the patched image and
      reports success if and only if all patches return. */
  lemma RoundTripExactly(profile: nat -> real, orig: seq<Byte>, patched: seq<Byte>, ps: seq<Patch>, fuzzLevel: int,
                         report: seq<Option<int>>, out: seq<Byte>, skipped: nat)
    requires Positive(profile) && PatchesOf(profile, orig, patched) == Success(ps)
    requires Outcome(profile, orig, EditsIn(ps), fuzzLevel, report, out, skipped)
    ensures out == patched && skipped == 0 <==> AllReturn(ps, |orig|, fuzzLevel)
  {
    hide Outcome, PatchesOf, AllReturn, Segments, Applied, WriteAll;
    OutcomeIsApplied(profile, orig, patched, ps, fuzzLevel, report, out, skipped);
    AppliedShape(profile, orig, patched, ps, fuzzLevel, report);
    if AllReturn(ps, |orig|, fuzzLevel) {
      DiffThenPatch(profile, orig, patched, ps, fuzzLevel, report, out, skipped);
    } else if skipped == 0 {
      StrayByte(profile, orig, patched, ps, fuzzLevel, report);
    }
  }

  /** The same through the stored text: what diffFiles writes, read back and applied by patchFiles. */
  lemma StoredRoundTrip(profile: nat -> real, orig: seq<Byte>, patched: seq<Byte>, ps: seq<Patch>, delta: seq<Node>,
                        fuzzLevel: int, report: seq<Option<int>>, out: seq<Byte>, skipped: nat)
    requires Positive(profile) && PatchesOf(profile, orig, patched) == Success(ps) && delta == NodesOf(ps)
    requires forall i :: 0 <= i < |delta| ==> Loadable(delta[i])
    requires Outcome(profile, orig, EditsOf(delta), fuzzLevel, report, out, skipped)
    ensures out == patched && skipped == 0 <==> AllReturn(ps, |orig|, fuzzLevel)
  {
    hide Outcome, PatchesOf, NodesOf, EditsOf, Loadable, AllReturn;
    DeltaIsApplicable(profile, orig, patched, fuzzLevel);
    RoundTripExactly(profile, orig, patched, ps, fuzzLevel, report, out, skipped);
  }

  /** A run of the program with --diff and, when it succeeds, one with --patch on its delta: the image
      that is written, if any, and the result. */
  method DiffAndPatch(table: RatingTable, profile: nat -> real, orig: seq<Byte>, patched: seq<Byte>, fuzzLevel: int)
    returns (diff: Result<seq<Node>>, written: Option<seq<Byte>>, skipped: nat)
    requires table.Ready() && Positive(profile)
    ensures PatchesOf(profile, orig, patched).Failure? ==>
              diff == Failure(PatchesOf(profile, orig, patched).error) && written.None?
    ensures PatchesOf(profile, orig, patched).Success? ==>
              && diff == Success(NodesOf(PatchesOf(profile, orig, patched).value))
              && written.Some?
              && PatchedTo(profile, orig, PatchesOf(profile, orig, patched).value, fuzzLevel, written.value, skipped)
              && (written.value == patched && skipped == 0 <==>
                  AllReturn(PatchesOf(profile, orig, patched).value, |orig|, fuzzLevel))
  {
    hide Outcome, PatchesOf, NodesOf, EditsOf, Loadable, AllReturn, AllSafe, AllWellFormed, RatingTable.Ready;
    written, skipped := None, 0;
    diff := DiffFiles(table, profile, orig, patched);
    if diff.Failure? {
      return;
    }
    DeltaIsApplicable(profile, orig, patched, fuzzLevel);
    var out, report, n := PatchFiles(table, profile, orig, diff.value, fuzzLevel);
    written, skipped := Some(out[..]), n;
    assert Outcome(profile, orig, EditsIn(PatchesOf(profile, orig, patched).value), fuzzLevel, report, out[..], n);
    StoredRoundTrip(profile, orig, patched, PatchesOf(profile, orig, patched).value, diff.value,
                    fuzzLevel, report, out[..], n);
  }

  /** out and skipped are what applying the patches to orig leaves: every applied patch is written at the
      place decided for it, nothing else is changed, and skipped counts the others. */
  ghost predicate PatchedTo(profile: nat -> real, orig: seq<Byte>, ps: seq<Patch>, fuzzLevel: int,
                            out: seq<Byte>, skipped: nat)
  {
    exists report :: Outcome(profile, orig, EditsIn(ps), fuzzLevel, report, out, skipped)
  }

  /** The condition in terms of the search: extends of at most 512 and patterns that end before the
      end of the image are enough. */
  lemma ShortExtendsAreReliable(profile: nat -> real, orig: seq<Byte>, patched: seq<Byte>, i: nat)
    requires Positive(profile) && PatchesOf(profile, orig, patched).Success?
    requires i < |PatchesOf(profile, orig, patched).value|
    ensures var p := PatchesOf(profile, orig, patched).value[i];
            p.edit.patchOffset <= 512 && !Flush(p, |orig|) ==> Reliable(p, |orig|)
  {
    hide PatchesOf, Segments, BuiltFor;
    DiffRecords(profile, orig, patched);
    BuiltForFacts(profile, orig, patched, Segments(orig, patched, 0)[i], PatchesOf(profile, orig, patched).value[i]);
  }
}
