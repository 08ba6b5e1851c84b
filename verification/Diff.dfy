/** Producing the delta of two images. */
module Diff {
  import opened Common
  import opened ByteRating
  import opened Correlation
  import opened Segmenter
  import opened Builder
  import opened Delta

  ghost predicate Proper(segs: seq<Segment>, n: nat) {
    forall k :: 0 <= k < |segs| ==> segs[k].start < segs[k].end <= n
  }

  /** The ranges followed by at least 6 bytes: all of them but possibly the last. */
  function Complete(segs: seq<Segment>, n: nat): seq<Segment> {
    if segs != [] && segs[|segs| - 1].end + 6 > n then segs[..|segs| - 1] else segs
  }

  /** The patches of the given ranges, or the first failure among them. */
  ghost function BuildAll(profile: nat -> real, orig: seq<Byte>, patched: seq<Byte>, segs: seq<Segment>)
    : (r: Result<seq<Patch>>)
    requires Positive(profile) && |orig| == |patched| && Proper(segs, |orig|)
    ensures r.Success? ==> |r.value| == |segs|
  {
    if segs == [] then Success([])
    else
      var m := |segs| - 1;
      var before := BuildAll(profile, orig, patched, segs[..m]);
      if before.Failure? then before
      else
        var last := Build(profile, orig, patched, segs[m].start, segs[m].end);
        if last.Failure? then Failure(last.error) else Success(before.value + [last.value])
  }

  lemma SegmentsProper(orig: seq<Byte>, patched: seq<Byte>)
    requires |orig| == |patched|
    ensures Proper(Segments(orig, patched, 0), |orig|)
  {
    SegmentsCanonical(orig, patched, 0);
    var segs := Segments(orig, patched, 0);
    forall k: nat | k < |segs| ensures segs[k].start < segs[k].end <= |orig| {
      RangeAt(orig, patched, 0, segs, k);
    }
  }

  /** The patches of a diff: those of all ranges, unless one cannot be built or the last change is
      too close to the end. */
  ghost function PatchesOf(profile: nat -> real, orig: seq<Byte>, patched: seq<Byte>): Result<seq<Patch>>
    requires Positive(profile)
  {
    if |orig| != |patched| then Failure(SizeMismatch)
    else
      SegmentsProper(orig, patched);
      var segs := Segments(orig, patched, 0);
      var built := BuildAll(profile, orig, patched, Complete(segs, |orig|));
      if built.Success? && Complete(segs, |orig|) != segs then Failure(TooCloseToEOF) else built
  }

  ghost function NodesOf(ps: seq<Patch>): (nodes: seq<Node>)
    ensures |nodes| == |ps|
    ensures forall i :: 0 <= i < |ps| ==> nodes[i] == NodeOf(ps[i].edit)
  {
    seq(|ps|, i requires 0 <= i < |ps| => NodeOf(ps[i].edit))
  }

  // ----- the scanning state machine -----

  /** The scanner's state at position i, having emitted the ranges done. */
  ghost predicate Scanning(orig: seq<Byte>, patched: seq<Byte>, i: nat, done: seq<Segment>,
                           inPatch: bool, patchStart: nat, patchEnd: nat)
    requires |orig| == |patched|
  {
    && i <= |orig|
    && (forall k :: 0 <= k < |done| ==> done[k].start < done[k].end && done[k].end + 6 <= |orig|)
    && if !inPatch then Segments(orig, patched, 0) == done + Segments(orig, patched, i)
       else
         && patchStart < patchEnd <= i <= patchEnd + MIN_PATCH_GAP + 1
         && Differ(orig, patched, patchEnd - 1)
         && (forall k: nat :: patchEnd <= k < i ==> !Differ(orig, patched, k))
         && var end := RangeEnd(orig, patched, patchEnd - 1);
            Segments(orig, patched, 0) == done + ([Segment(patchStart, end)] + Segments(orig, patched, end))
  }

  lemma {:induction false} NextDiffSkips(orig: seq<Byte>, patched: seq<Byte>, i: nat, j: nat)
    requires |orig| == |patched| && i <= j <= |orig|
    requires forall k: nat :: i <= k < j ==> !Differ(orig, patched, k)
    ensures NextDiff(orig, patched, i) == NextDiff(orig, patched, j)
    decreases j - i
  {
    if i == j {
    } else {
      assert !Differ(orig, patched, i);
      NextDiffSkips(orig, patched, i + 1, j);
    }
  }

  /** Outside a range, an equal byte is passed over and a differing one opens a range. */
  lemma StepOutside(orig: seq<Byte>, patched: seq<Byte>, i: nat, done: seq<Segment>)
    requires |orig| == |patched| && i < |orig| && Scanning(orig, patched, i, done, false, 0, 0)
    ensures !Differ(orig, patched, i) ==> Scanning(orig, patched, i + 1, done, false, 0, 0)
    ensures Differ(orig, patched, i) ==> Scanning(orig, patched, i + 1, done, true, i, i + 1)
  {
  }

  /** Inside a range, a differing byte extends it and up to 5 equal bytes keep it open. */
  lemma StepInside(orig: seq<Byte>, patched: seq<Byte>, i: nat, done: seq<Segment>, start: nat, end: nat)
    requires |orig| == |patched| && i < |orig| && Scanning(orig, patched, i, done, true, start, end)
    ensures Differ(orig, patched, i) ==> Scanning(orig, patched, i + 1, done, true, start, i + 1)
    ensures !Differ(orig, patched, i) && i <= end + MIN_PATCH_GAP ==>
              Scanning(orig, patched, i + 1, done, true, start, end)
  {
    hide Segments;
    NextDiffSkips(orig, patched, end, i);
  }

  /** The sixth equal byte closes the range. */
  lemma StepCloses(orig: seq<Byte>, patched: seq<Byte>, i: nat, done: seq<Segment>, start: nat, end: nat)
    requires |orig| == |patched| && i < |orig| && Scanning(orig, patched, i, done, true, start, end)
    requires !Differ(orig, patched, i) && end + MIN_PATCH_GAP < i
    ensures Scanning(orig, patched, i + 1, done + [Segment(start, end)], false, 0, 0)
  {
    hide Segments;
    RangeCloses(orig, patched, i, end);
    var rest := Segments(orig, patched, end);
    assert done + ([Segment(start, end)] + rest) == done + [Segment(start, end)] + rest;
  }

  lemma RangeCloses(orig: seq<Byte>, patched: seq<Byte>, i: nat, end: nat)
    requires |orig| == |patched| && 0 < end && end + MIN_PATCH_GAP < i < |orig| && Differ(orig, patched, end - 1)
    requires forall k: nat :: end <= k <= i ==> !Differ(orig, patched, k)
    ensures RangeEnd(orig, patched, end - 1) == end
    ensures Segments(orig, patched, end) == Segments(orig, patched, i + 1)
  {
    hide Segments;
    NextDiffSkips(orig, patched, end, i + 1);
    SegmentsSkip(orig, patched, end, i + 1);
  }

  lemma SegmentsSkip(orig: seq<Byte>, patched: seq<Byte>, i: nat, j: nat)
    requires |orig| == |patched| && i <= j <= |orig|
    requires NextDiff(orig, patched, i) == NextDiff(orig, patched, j)
    ensures Segments(orig, patched, i) == Segments(orig, patched, j)
  {
  }

  /** At the end of the images all ranges are emitted, except an open one near the end. */
  lemma ScanEnds(orig: seq<Byte>, patched: seq<Byte>, done: seq<Segment>, inPatch: bool, start: nat, end: nat)
    requires |orig| == |patched| && Scanning(orig, patched, |orig|, done, inPatch, start, end)
    ensures done == Complete(Segments(orig, patched, 0), |orig|)
    ensures inPatch <==> done != Segments(orig, patched, 0)
  {
    var segs := Segments(orig, patched, 0);
    if inPatch {
      NextDiffSkips(orig, patched, end, |orig|);
      assert segs == done + [Segment(start, end)];
    } else {
      assert segs == done;
    }
  }

  lemma ScanStarts(orig: seq<Byte>, patched: seq<Byte>)
    requires |orig| == |patched|
    ensures Scanning(orig, patched, 0, [], false, 0, 0)
  {
    var none: seq<Segment> := [];
    assert none + Segments(orig, patched, 0) == Segments(orig, patched, 0);
  }

  lemma DoneIsPrefix(orig: seq<Byte>, patched: seq<Byte>, i: nat, done: seq<Segment>)
    requires |orig| == |patched| && Scanning(orig, patched, i, done, false, 0, 0)
    ensures Proper(done, |orig|) && done <= Complete(Segments(orig, patched, 0), |orig|)
  {
  }

  lemma {:induction false} FirstFailureStays(profile: nat -> real, orig: seq<Byte>, patched: seq<Byte>,
                                             segs: seq<Segment>, m: nat)
    requires Positive(profile) && |orig| == |patched| && Proper(segs, |orig|) && m <= |segs|
    requires BuildAll(profile, orig, patched, segs[..m]).Failure?
    ensures BuildAll(profile, orig, patched, segs) == BuildAll(profile, orig, patched, segs[..m])
    decreases |segs|
  {
    if m == |segs| {
      assert segs[..m] == segs;
    } else {
      var init := segs[..|segs| - 1];
      assert init[..m] == segs[..m];
      FirstFailureStays(profile, orig, patched, init, m);
    }
  }

  /** Building one more range. */
  lemma BuildOneMore(profile: nat -> real, orig: seq<Byte>, patched: seq<Byte>, done: seq<Segment>, s: Segment,
                     ps: seq<Patch>)
    requires Positive(profile) && |orig| == |patched| && s.start < s.end <= |orig|
    requires Proper(done + [s], |orig|) && Proper(done, |orig|)
    requires BuildAll(profile, orig, patched, done) == Success(ps)
    ensures var b := Build(profile, orig, patched, s.start, s.end);
            BuildAll(profile, orig, patched, done + [s]) ==
            if b.Success? then Success(ps + [b.value]) else Failure(b.error)
  {
    assert (done + [s])[..|done|] == done;
  }

  /** A range that cannot be built ends the whole diff with its error. */
  lemma FailureIsFinal(profile: nat -> real, orig: seq<Byte>, patched: seq<Byte>, i: nat, done: seq<Segment>)
    requires Positive(profile) && |orig| == |patched| && Scanning(orig, patched, i, done, false, 0, 0)
    requires Proper(done, |orig|) && BuildAll(profile, orig, patched, done).Failure?
    ensures PatchesOf(profile, orig, patched) == Failure(BuildAll(profile, orig, patched, done).error)
  {
    DoneIsPrefix(orig, patched, i, done);
    SegmentsProper(orig, patched);
    var all := Complete(Segments(orig, patched, 0), |orig|);
    assert all[..|done|] == done;
    FirstFailureStays(profile, orig, patched, all, |done|);
  }

  method PtreeNodes(patches: seq<Patch>) returns (nodes: seq<Node>)
    ensures nodes == NodesOf(patches)
  {
    nodes := [];
    for k := 0 to |patches|
      invariant |nodes| == k && forall i :: 0 <= i < k ==> nodes[i] == NodeOf(patches[i].edit)
    {
      var node := PtreeNode(patches[k].edit);
      nodes := nodes + [node];
    }
  }

  method DiffFiles(table: RatingTable, profile: nat -> real, orig: seq<Byte>, patched: seq<Byte>)
    returns (r: Result<seq<Node>>)
    requires table.Ready() && Positive(profile)
    ensures var ps := PatchesOf(profile, orig, patched);
            r == if ps.Success? then Success(NodesOf(ps.value)) else Failure(ps.error)
    ensures |orig| != |patched| ==> r == Failure(SizeMismatch)
  {
    hide Build, NextDiff, RangeEnd, Segments, Scanning, BuildAll, PatchesOf, Complete, NodesOf;
    if |orig| != |patched| {
      SizesDiffer(profile, orig, patched);
      return Failure(SizeMismatch);
    }
    var patches: seq<Patch> := [];
    var inPatch, patchStart, patchEnd := false, 0, 0;
    ghost var done: seq<Segment> := [];
    ScanStarts(orig, patched);
    NothingBuilt(profile, orig, patched);
    var i := 0;
    while i < |orig|
      invariant i <= |orig|
      invariant Scanning(orig, patched, i, done, inPatch, if inPatch then patchStart else 0, if inPatch then patchEnd else 0)
      invariant Proper(done, |orig|) && BuildAll(profile, orig, patched, done) == Success(patches)
    {
      var diff := orig[i] != patched[i];
      if inPatch {
        StepInside(orig, patched, i, done, patchStart, patchEnd);
        if !diff && patchEnd + MIN_PATCH_GAP < i {
          StepCloses(orig, patched, i, done, patchStart, patchEnd);
        }
      } else {
        StepOutside(orig, patched, i, done);
      }
      if !inPatch && diff {
        patchStart := i;
        inPatch := true;
      }
      if inPatch && diff {
        patchEnd := i + 1;
      } else if inPatch && !diff {
        if patchEnd + MIN_PATCH_GAP < i {
          ghost var more := done + [Segment(patchStart, patchEnd)];
          DoneIsPrefix(orig, patched, i + 1, more);
          assert more[|done|] == Segment(patchStart, patchEnd);
          BuildOneMore(profile, orig, patched, done, Segment(patchStart, patchEnd), patches);
          var p := BuildPatch(table, profile, orig, patched, patchStart, patchEnd);
          if p.Failure? {
            FailureIsFinal(profile, orig, patched, i + 1, more);
            return Failure(p.error);
          }
          patches := patches + [p.value];
          done := more;
          inPatch := false;
        }
      }
      i := i + 1;
    }
    ScanEnds(orig, patched, done, inPatch, if inPatch then patchStart else 0, if inPatch then patchEnd else 0);
    ScanResult(profile, orig, patched, done, inPatch, patches);
    if inPatch {
      return Failure(TooCloseToEOF);
    }
    var nodes := PtreeNodes(patches);
    return Success(nodes);
  }

  lemma SizesDiffer(profile: nat -> real, orig: seq<Byte>, patched: seq<Byte>)
    requires Positive(profile) && |orig| != |patched|
    ensures PatchesOf(profile, orig, patched) == Failure(SizeMismatch)
  {
  }

  lemma NothingBuilt(profile: nat -> real, orig: seq<Byte>, patched: seq<Byte>)
    requires Positive(profile) && |orig| == |patched|
    ensures BuildAll(profile, orig, patched, []) == Success([])
  {
  }

  lemma ScanResult(profile: nat -> real, orig: seq<Byte>, patched: seq<Byte>, done: seq<Segment>, inPatch: bool,
                   ps: seq<Patch>)
    requires Positive(profile) && |orig| == |patched| && Proper(done, |orig|)
    requires done == Complete(Segments(orig, patched, 0), |orig|)
    requires inPatch <==> done != Segments(orig, patched, 0)
    requires BuildAll(profile, orig, patched, done) == Success(ps)
    ensures PatchesOf(profile, orig, patched) == if inPatch then Failure(TooCloseToEOF) else Success(ps)
  {
  }

  // ----- what a diff says -----

  lemma {:induction false} BuiltAt(profile: nat -> real, orig: seq<Byte>, patched: seq<Byte>, segs: seq<Segment>, i: nat)
    requires Positive(profile) && |orig| == |patched| && Proper(segs, |orig|) && i < |segs|
    requires BuildAll(profile, orig, patched, segs).Success?
    ensures Build(profile, orig, patched, segs[i].start, segs[i].end) ==
            Success(BuildAll(profile, orig, patched, segs).value[i])
    decreases |segs|
  {
    hide Build;
    var init := segs[..|segs| - 1];
    if i == |segs| - 1 {
    } else {
      BuiltAt(profile, orig, patched, init, i);
    }
  }

  /** A successful diff holds the builder's patch of every range, in the order of the ranges. */
  lemma PatchOfRange(profile: nat -> real, orig: seq<Byte>, patched: seq<Byte>, ps: seq<Patch>, i: nat)
    requires Positive(profile) && PatchesOf(profile, orig, patched) == Success(ps)
    ensures |orig| == |patched| && |ps| == |Segments(orig, patched, 0)|
    ensures i < |ps| ==> var s := Segments(orig, patched, 0)[i];
                         s.start < s.end <= |orig| && Build(profile, orig, patched, s.start, s.end) == Success(ps[i])
  {
    hide BuildAll, Build, Segments;
    SegmentsProper(orig, patched);
    if i < |ps| {
      BuiltAt(profile, orig, patched, Segments(orig, patched, 0), i);
    }
  }

  /** The first range that cannot be built decides a diff. */
  lemma FirstErrorWins(profile: nat -> real, orig: seq<Byte>, patched: seq<Byte>, segs: seq<Segment>, i: nat)
    requires Positive(profile) && |orig| == |patched| && segs == Segments(orig, patched, 0) && Proper(segs, |orig|)
    requires i < |segs| && segs[i].end + 6 <= |orig|
    requires Build(profile, orig, patched, segs[i].start, segs[i].end).Failure?
    requires forall j :: 0 <= j < i ==> Build(profile, orig, patched, segs[j].start, segs[j].end).Success?
    ensures PatchesOf(profile, orig, patched) ==
            Failure(Build(profile, orig, patched, segs[i].start, segs[i].end).error)
  {
    hide Build, Segments;
    var all := Complete(segs, |orig|);
    FirstError(profile, orig, patched, segs[..i + 1], i);
    assert all[..i + 1] == segs[..i + 1];
    FirstFailureStays(profile, orig, patched, all, i + 1);
  }

  lemma FirstError(profile: nat -> real, orig: seq<Byte>, patched: seq<Byte>, segs: seq<Segment>, i: nat)
    requires Positive(profile) && |orig| == |patched| && Proper(segs, |orig|) && |segs| == i + 1
    requires Build(profile, orig, patched, segs[i].start, segs[i].end).Failure?
    requires forall j :: 0 <= j < i ==> Build(profile, orig, patched, segs[j].start, segs[j].end).Success?
    ensures BuildAll(profile, orig, patched, segs) ==
            Failure(Build(profile, orig, patched, segs[i].start, segs[i].end).error)
  {
    hide Build;
    AllSucceed(profile, orig, patched, segs[..i]);
  }

  lemma {:induction false} AllSucceed(profile: nat -> real, orig: seq<Byte>, patched: seq<Byte>, segs: seq<Segment>)
    requires Positive(profile) && |orig| == |patched| && Proper(segs, |orig|)
    requires forall j :: 0 <= j < |segs| ==> Build(profile, orig, patched, segs[j].start, segs[j].end).Success?
    ensures BuildAll(profile, orig, patched, segs).Success?
    decreases |segs|
  {
    hide Build;
    if segs == [] {
    } else {
      AllSucceed(profile, orig, patched, segs[..|segs| - 1]);
    }
  }

  /** Images with a single range, far enough from their end, give its patch. */
  lemma OneRange(profile: nat -> real, orig: seq<Byte>, patched: seq<Byte>, s: Segment, p: Patch)
    requires Positive(profile) && |orig| == |patched| && s.start < s.end && s.end + 6 <= |orig|
    requires Segments(orig, patched, 0) == [s]
    requires Build(profile, orig, patched, s.start, s.end) == Success(p)
    ensures PatchesOf(profile, orig, patched) == Success([p])
  {
    hide Build, Segments;
    var none: seq<Segment>, before: seq<Patch> := [], [];
    assert none + [s] == [s] && before + [p] == [p];
    NothingBuilt(profile, orig, patched);
    BuildOneMore(profile, orig, patched, none, s, before);
  }

  /** No complete range fails to build. */
  ghost predicate AllBuilt(profile: nat -> real, orig: seq<Byte>, patched: seq<Byte>)
    requires Positive(profile) && |orig| == |patched|
  {
    SegmentsProper(orig, patched);
    BuildAll(profile, orig, patched, Complete(Segments(orig, patched, 0), |orig|)).Success?
  }

  /** Unless a patch cannot be built, a diff fails exactly when fewer than 6 bytes follow some
      differing byte. */
  lemma TooCloseExactly(profile: nat -> real, orig: seq<Byte>, patched: seq<Byte>)
    requires Positive(profile) && |orig| == |patched|
    requires AllBuilt(profile, orig, patched)
    ensures PatchesOf(profile, orig, patched) == Failure(TooCloseToEOF) <==>
            exists i: nat :: Differ(orig, patched, i) && |orig| - (i + 1) < 6
    ensures PatchesOf(profile, orig, patched).Success? <==>
            forall i: nat :: Differ(orig, patched, i) ==> 6 <= |orig| - (i + 1)
  {
    hide BuildAll, Segments, Covers, AllRanges, Separated;
    var segs := Segments(orig, patched, 0);
    SegmentsCanonical(orig, patched, 0);
    if Complete(segs, |orig|) != segs {
      RangeAt(orig, patched, 0, segs, |segs| - 1);
      assert Differ(orig, patched, segs[|segs| - 1].end - 1);
    } else {
      forall i: nat | Differ(orig, patched, i) ensures 6 <= |orig| - (i + 1) {
        LastRangeIsLast(orig, patched, segs, i);
      }
    }
  }

  lemma LastRangeIsLast(orig: seq<Byte>, patched: seq<Byte>, segs: seq<Segment>, i: nat)
    requires |orig| == |patched| && Canonical(orig, patched, 0, segs) && Differ(orig, patched, i)
    ensures segs != [] && i < segs[|segs| - 1].end
  {
    hide Covers, AllRanges;
    var k := CoveredBy(orig, patched, 0, segs, i);
    RangeAt(orig, patched, 0, segs, |segs| - 1);
    assert k < |segs| - 1 ==> segs[k].end + 6 <= segs[|segs| - 1].start;
  }
}
