/** Building one patch: widening the context around a change until the second-best match in the
    original image is weak enough. */
module Builder {
  import opened Common
  import opened ByteRating
  import opened Correlation
  import opened Matcher
  import opened Ranking
  import opened Acceptance

  /** The part of a patch that is stored in the delta and read back. */
  datatype Edit = Edit(matchBytes: seq<Byte>, patchBytes: seq<Byte>, patchOffset: int)

  /** A built patch, with what the delta only reports. */
  datatype Patch = Patch(edit: Edit, secondMatchCorrelation: real, origOffset: nat)

  // ----- the widening sequence -----

  function InitialExtend(len: nat): nat {
    if len > 16 then 0 else 8
  }

  function NextExtend(extend: nat): (r: nat)
    ensures extend < r
  {
    if extend == 0 then 1 else 2 * extend
  }

  /** The extend of round k: 0, 1, 2, 4, ... for long changes and 8, 16, 32, ... for short ones. */
  function Extend(len: nat, k: nat): nat {
    if len <= 16 then 8 * Pow2(k) else if k == 0 then 0 else Pow2(k - 1)
  }

  lemma ExtendSteps(len: nat, k: nat)
    ensures Extend(len, 0) == InitialExtend(len)
    ensures Extend(len, k + 1) == NextExtend(Extend(len, k))
  {
  }

  // ----- reference definition -----

  ghost predicate InRange(orig: seq<Byte>, start: nat, end: nat, extend: nat) {
    extend <= start < end && end + extend <= |orig|
  }

  function Context(orig: seq<Byte>, start: nat, end: nat, extend: nat): (pat: seq<Byte>)
    requires extend <= start < end && end + extend <= |orig|
    ensures |pat| == end - start + 2 * extend
  {
    orig[start - extend..end + extend]
  }

  function ContextWeights(profile: nat -> real, orig: seq<Byte>, start: nat, end: nat, extend: nat): seq<real>
    requires extend <= start < end && end + extend <= |orig|
  {
    WeightsOf(profile, Context(orig, start, end, extend), PatchLocation(extend, end - start))
  }

  lemma ContextUsable(profile: nat -> real, orig: seq<Byte>, start: nat, end: nat, extend: nat)
    requires Positive(profile) && InRange(orig, start, end, extend)
    ensures Usable(orig, Context(orig, start, end, extend), ContextWeights(profile, orig, start, end, extend))
  {
    UsableIf(orig, Context(orig, start, end, extend), ContextWeights(profile, orig, start, end, extend));
  }

  /** The second-best similarity of the context in the original image. */
  ghost function SecondBest(profile: nat -> real, orig: seq<Byte>, start: nat, end: nat, extend: nat): real
    requires Positive(profile) && InRange(orig, start, end, extend)
  {
    ContextUsable(profile, orig, start, end, extend);
    Ranked(orig, Context(orig, start, end, extend), ContextWeights(profile, orig, start, end, extend), 1)
  }

  ghost predicate Accepted(profile: nat -> real, orig: seq<Byte>, start: nat, end: nat, extend: nat)
    requires Positive(profile) && InRange(orig, start, end, extend)
  {
    Accepts(SecondBest(profile, orig, start, end, extend), extend)
  }

  ghost function PatchWith(profile: nat -> real, orig: seq<Byte>, patched: seq<Byte>, start: nat, end: nat,
                           extend: nat): Patch
    requires Positive(profile) && InRange(orig, start, end, extend) && |orig| == |patched|
  {
    Patch(Edit(Context(orig, start, end, extend), patched[start..end], extend),
          SecondBest(profile, orig, start, end, extend), start)
  }

  /** The patch for [start, end) when the search has come to the given extend. */
  ghost function BuildFrom(profile: nat -> real, orig: seq<Byte>, patched: seq<Byte>, start: nat, end: nat,
                           extend: nat): Result<Patch>
    requires Positive(profile) && start < end <= |orig| == |patched|
    decreases if extend <= start then 1 + start - extend else 0
  {
    if extend > start then Failure(StartOfFileHit)
    else if end + extend > |orig| then Failure(EndOfFileHit)
    else if Accepted(profile, orig, start, end, extend) then
      Success(PatchWith(profile, orig, patched, start, end, extend))
    else BuildFrom(profile, orig, patched, start, end, NextExtend(extend))
  }

  ghost function Build(profile: nat -> real, orig: seq<Byte>, patched: seq<Byte>, start: nat, end: nat): Result<Patch>
    requires Positive(profile) && start < end <= |orig| == |patched|
  {
    BuildFrom(profile, orig, patched, start, end, InitialExtend(end - start))
  }

  method BuildPatch(table: RatingTable, profile: nat -> real, orig: seq<Byte>, patched: seq<Byte>,
                    start: nat, end: nat)
    returns (r: Result<Patch>)
    requires table.Ready() && Positive(profile) && start < end <= |orig| == |patched|
    ensures r == Build(profile, orig, patched, start, end)
  {
    hide TopMatches, Accepts, Similarity, Ranked, ContextWeights;
    var len := end - start;
    var extend := if len > 16 then 0 else 8;
    while true
      invariant Build(profile, orig, patched, start, end) == BuildFrom(profile, orig, patched, start, end, extend)
      decreases if extend <= start then 1 + start - extend else 0
    {
      if extend > start {
        return Failure(StartOfFileHit);
      }
      var newStart := start - extend;
      var newEnd := end + extend;
      if newEnd > |orig| {
        return Failure(EndOfFileHit);
      }
      var second := SecondMatch(table, profile, orig, start, end, extend);
      if Accepts(second, extend) {
        return Success(Patch(Edit(orig[newStart..newEnd], patched[start..end], extend), second, start));
      }
      if extend == 0 {
        extend := 1;
      } else {
        extend := extend * 2;
      }
    }
  }

  method SecondMatch(table: RatingTable, profile: nat -> real, orig: seq<Byte>, start: nat, end: nat, extend: nat)
    returns (second: real)
    requires table.Ready() && Positive(profile) && InRange(orig, start, end, extend)
    ensures second == SecondBest(profile, orig, start, end, extend)
  {
    var patterns := [orig[start - extend..end + extend]];
    var patchLocations := [PatchLocation(extend, end - start)];
    var ratings := CalculateTopMatches(table.rating, profile, orig, 2, patterns, patchLocations);
    assert Found(orig, patterns[0], WeightsOf(profile, patterns[0], patchLocations[0]), 2, ratings[0]);
    second := ratings[0][1].score;
  }

  // ----- what the search finds -----

  /** Round k of the search is reached: all earlier rounds stayed in the file and were rejected. */
  ghost predicate Reached(profile: nat -> real, orig: seq<Byte>, start: nat, end: nat, k: nat)
    requires Positive(profile) && start < end <= |orig|
  {
    forall j: nat :: j < k ==> Rejected(profile, orig, start, end, j)
  }

  ghost predicate Rejected(profile: nat -> real, orig: seq<Byte>, start: nat, end: nat, j: nat)
    requires Positive(profile) && start < end <= |orig|
  {
    var extend := Extend(end - start, j);
    InRange(orig, start, end, extend) && !Accepted(profile, orig, start, end, extend)
  }

  /** The search ends in round k with the given outcome. */
  ghost predicate EndsInRound(profile: nat -> real, orig: seq<Byte>, patched: seq<Byte>, start: nat, end: nat,
                              k: nat, r: Result<Patch>)
    requires Positive(profile) && start < end <= |orig| == |patched|
  {
    var extend := Extend(end - start, k);
    && Reached(profile, orig, start, end, k)
    && match r {
         case Success(p) => InRange(orig, start, end, extend) && Accepted(profile, orig, start, end, extend)
                            && p == PatchWith(profile, orig, patched, start, end, extend)
         case Failure(e) => (e == StartOfFileHit && start < extend)
                            || (e == EndOfFileHit && extend <= start && |orig| < end + extend)
       }
  }

  lemma SearchEnds(profile: nat -> real, orig: seq<Byte>, patched: seq<Byte>, start: nat, end: nat, k: nat)
    returns (n: nat)
    requires Positive(profile) && start < end <= |orig| == |patched|
    requires Reached(profile, orig, start, end, k)
    ensures EndsInRound(profile, orig, patched, start, end, n,
                        BuildFrom(profile, orig, patched, start, end, Extend(end - start, k)))
    decreases 1 + start - Extend(end - start, k)
  {
    var extend := Extend(end - start, k);
    if InRange(orig, start, end, extend) && !Accepted(profile, orig, start, end, extend) {
      ExtendSteps(end - start, k);
      n := SearchEnds(profile, orig, patched, start, end, k + 1);
    } else {
      n := k;
    }
  }

  lemma {:induction false} ExtendGrows(len: nat, j: nat, k: nat)
    requires j < k
    ensures Extend(len, j) < Extend(len, k)
    decreases k
  {
    ExtendSteps(len, k - 1);
    if j < k - 1 {
      ExtendGrows(len, j, k - 1);
    }
  }

  /** The builder's outcome is that of the first round of the widening sequence that is accepted or
      leaves the file, and the number of rejected rounds is logarithmic in the offset. */
  lemma BuildFindsFirst(profile: nat -> real, orig: seq<Byte>, patched: seq<Byte>, start: nat, end: nat)
    returns (n: nat)
    requires Positive(profile) && start < end <= |orig| == |patched|
    ensures EndsInRound(profile, orig, patched, start, end, n, Build(profile, orig, patched, start, end))
    ensures Pow2(n) <= 4 * start + 2
  {
    hide Accepted, PatchWith;
    ExtendSteps(end - start, 0);
    n := SearchEnds(profile, orig, patched, start, end, 0);
    assert n > 0 ==> Rejected(profile, orig, start, end, n - 1);
    RoundsAreLogarithmic(end - start, start, n);
  }

  lemma RoundsAreLogarithmic(len: nat, start: nat, n: nat)
    requires n > 0 ==> Extend(len, n - 1) <= start
    ensures Pow2(n) <= 4 * start + 2
  {
    if n > 1 {
      assert Pow2(n) == 2 * Pow2(n - 1) == 4 * Pow2(n - 2);
    }
  }

  /** No two rounds can both be the one in which the search ends. */
  lemma RoundIsUnique(profile: nat -> real, orig: seq<Byte>, patched: seq<Byte>, start: nat, end: nat,
                      j: nat, r: Result<Patch>, k: nat, s: Result<Patch>)
    requires Positive(profile) && start < end <= |orig| == |patched|
    requires EndsInRound(profile, orig, patched, start, end, j, r)
    requires EndsInRound(profile, orig, patched, start, end, k, s)
    ensures j == k && r == s
  {
    hide Accepted, PatchWith, Extend;
    assert j < k ==> Rejected(profile, orig, start, end, j);
    assert k < j ==> Rejected(profile, orig, start, end, k);
  }

  /** What an accepted patch records: the change in its context, with the runner-up of that context,
      which an extend of at most 512 keeps below the exactness threshold of the applier. */
  ghost predicate Records(profile: nat -> real, orig: seq<Byte>, patched: seq<Byte>, start: nat, end: nat, p: Patch)
    requires Positive(profile) && start < end <= |orig| == |patched|
  {
    var e := p.edit.patchOffset;
    && 0 <= e
    && InRange(orig, start, end, e)
    && p == PatchWith(profile, orig, patched, start, end, e)
    && (e <= 512 ==> p.secondMatchCorrelation < EXACT)
  }

  lemma BuiltPatch(profile: nat -> real, orig: seq<Byte>, patched: seq<Byte>, start: nat, end: nat)
    requires Positive(profile) && start < end <= |orig| == |patched|
    requires Build(profile, orig, patched, start, end).Success?
    ensures var p := Build(profile, orig, patched, start, end).value; var e := p.edit.patchOffset;
            && Records(profile, orig, patched, start, end, p)
            && p.edit.matchBytes[e..e + (end - start)] == orig[start..end]
  {
    hide Ranked, Reached, Build, Accepted, SecondBest, Extend;
    var n := BuildFindsFirst(profile, orig, patched, start, end);
    var e := Extend(end - start, n);
    ExtendGap(end - start, n);
    ContextHoldsChange(orig, start, end, e);
    SecondBelowExact(profile, orig, start, end, e);
  }

  lemma ContextHoldsChange(orig: seq<Byte>, start: nat, end: nat, e: nat)
    requires InRange(orig, start, end, e)
    ensures Context(orig, start, end, e)[e..e + (end - start)] == orig[start..end]
  {
    var c, n := Context(orig, start, end, e), end - start;
    forall k | 0 <= k < n ensures c[e..e + n][k] == orig[start..end][k] {
      assert c[e + k] == orig[start - e + (e + k)];
    }
  }

  lemma SecondBelowExact(profile: nat -> real, orig: seq<Byte>, start: nat, end: nat, e: nat)
    requires Positive(profile) && InRange(orig, start, end, e) && Accepted(profile, orig, start, end, e)
    ensures e <= 512 ==> SecondBest(profile, orig, start, end, e) < EXACT
  {
    hide Ranked, Accepts;
    if e <= 512 {
      ContextUsable(profile, orig, start, end, e);
      RankedBounds(orig, Context(orig, start, end, e), ContextWeights(profile, orig, start, end, e));
      SafeExtends(e);
    }
  }

  lemma {:induction false} ExtendGap(len: nat, k: nat)
    ensures Extend(len, k) <= 512 || 1024 <= Extend(len, k)
  {
    if k <= 10 {
      assert Pow2(1) == 2 && Pow2(2) == 4 && Pow2(3) == 8 && Pow2(4) == 16 && Pow2(5) == 32;
      assert Pow2(6) == 64 && Pow2(7) == 128 && Pow2(8) == 256 && Pow2(9) == 512 && Pow2(10) == 1024;
    } else {
      Pow2Grows(10, k - 1);
      assert Pow2(10) == 1024;
    }
  }

  lemma {:induction false} Pow2Grows(j: nat, k: nat)
    requires j <= k
    ensures Pow2(j) <= Pow2(k)
  {
    if j == k {
    } else {
      Pow2Grows(j, k - 1);
    }
  }

  // ----- the search, without rounds -----

  /** The extends that are tried: 0, 1, 2, 4, ... for changes of more than 16 bytes and 8, 16, 32, ...
      for others. */
  ghost predicate IsTried(len: nat, e: nat) {
    if len > 16 then e == 0 || exists j: nat :: e == Pow2(j) else exists j: nat :: e == 8 * Pow2(j)
  }

  lemma ExtendIsTried(len: nat, k: nat)
    ensures IsTried(len, Extend(len, k))
  {
    assert k == 0 || Pow2(k - 1) == Pow2(k - 1);
  }

  lemma RoundOf(len: nat, e: nat) returns (k: nat)
    requires IsTried(len, e)
    ensures Extend(len, k) == e
  {
    if len > 16 && e == 0 {
      k := 0;
    } else if len > 16 {
      var j: nat :| e == Pow2(j);
      k := j + 1;
    } else {
      k :| e == 8 * Pow2(k);
    }
  }

  /** The search ends at extend e with the given outcome: all smaller extends it tries stay in the
      file and are rejected, and e is accepted or leaves the file, at its start or else at its end. */
  ghost predicate EndsAt(profile: nat -> real, orig: seq<Byte>, patched: seq<Byte>, start: nat, end: nat,
                         e: nat, r: Result<Patch>)
    requires Positive(profile) && start < end <= |orig| == |patched|
  {
    && IsTried(end - start, e)
    && (forall f: nat :: f < e && IsTried(end - start, f) ==> Refused(profile, orig, start, end, f))
    && if e > start then r == Failure(StartOfFileHit)
       else if end + e > |orig| then r == Failure(EndOfFileHit)
       else Accepted(profile, orig, start, end, e) && r == Success(PatchWith(profile, orig, patched, start, end, e))
  }

  ghost predicate Refused(profile: nat -> real, orig: seq<Byte>, start: nat, end: nat, f: nat)
    requires Positive(profile) && start < end <= |orig|
  {
    InRange(orig, start, end, f) && !Accepted(profile, orig, start, end, f)
  }

  lemma RoundEndsAt(profile: nat -> real, orig: seq<Byte>, patched: seq<Byte>, start: nat, end: nat,
                    k: nat, r: Result<Patch>)
    requires Positive(profile) && start < end <= |orig| == |patched|
    requires EndsInRound(profile, orig, patched, start, end, k, r)
    ensures EndsAt(profile, orig, patched, start, end, Extend(end - start, k), r)
  {
    hide Accepted, PatchWith, Extend, IsTried;
    var len := end - start;
    ExtendIsTried(len, k);
    forall f: nat | f < Extend(len, k) && IsTried(len, f) ensures Refused(profile, orig, start, end, f) {
      var j := RoundOf(len, f);
      if k < j {
        ExtendGrows(len, k, j);
      }
      assert Rejected(profile, orig, start, end, j);
    }
  }

  lemma EndsAtRound(profile: nat -> real, orig: seq<Byte>, patched: seq<Byte>, start: nat, end: nat,
                    e: nat, r: Result<Patch>) returns (k: nat)
    requires Positive(profile) && start < end <= |orig| == |patched|
    requires EndsAt(profile, orig, patched, start, end, e, r)
    ensures Extend(end - start, k) == e && EndsInRound(profile, orig, patched, start, end, k, r)
  {
    hide Accepted, PatchWith, Extend, IsTried;
    var len := end - start;
    k := RoundOf(len, e);
    forall j: nat | j < k ensures Rejected(profile, orig, start, end, j) {
      ExtendGrows(len, j, k);
      ExtendIsTried(len, j);
      assert Refused(profile, orig, start, end, Extend(len, j));
    }
  }

  /** The builder's outcome is the one and only outcome with which the search ends. */
  lemma BuildEndsAt(profile: nat -> real, orig: seq<Byte>, patched: seq<Byte>, start: nat, end: nat, r: Result<Patch>)
    requires Positive(profile) && start < end <= |orig| == |patched|
    ensures Build(profile, orig, patched, start, end) == r <==>
            exists e :: EndsAt(profile, orig, patched, start, end, e, r)
  {
    hide EndsAt, EndsInRound, Build;
    var built := Build(profile, orig, patched, start, end);
    var n := BuildFindsFirst(profile, orig, patched, start, end);
    RoundEndsAt(profile, orig, patched, start, end, n, built);
    if e: nat :| EndsAt(profile, orig, patched, start, end, e, r) {
      var k := EndsAtRound(profile, orig, patched, start, end, e, r);
      RoundIsUnique(profile, orig, patched, start, end, n, built, k, r);
    }
  }

  /** A change of more than 16 bytes is first tried without any context, even at the start of the file. */
  lemma LongChangeNeedsNoContext(profile: nat -> real, orig: seq<Byte>, patched: seq<Byte>, start: nat, end: nat)
    requires Positive(profile) && start < end <= |orig| == |patched|
    requires end - start > 16
    ensures var r := Build(profile, orig, patched, start, end);
            (r.Success? && r.value.edit == Edit(orig[start..end], patched[start..end], 0)) <==>
            SecondBest(profile, orig, start, end, 0) < 0.8
  {
    hide Ranked, Accepts, ContextWeights;
    ContextUsable(profile, orig, start, end, 0);
    RankedBounds(orig, Context(orig, start, end, 0), ContextWeights(profile, orig, start, end, 0));
    AcceptsPlainly(SecondBest(profile, orig, start, end, 0));
    ContextFree(orig, start, end);
    if SecondBest(profile, orig, start, end, 0) >= 0.8 {
      LaterHasContext(profile, orig, patched, start, end, NextExtend(0));
    }
  }

  lemma ContextFree(orig: seq<Byte>, start: nat, end: nat)
    requires start < end <= |orig|
    ensures Context(orig, start, end, 0) == orig[start..end]
  {
  }

  lemma LaterHasContext(profile: nat -> real, orig: seq<Byte>, patched: seq<Byte>, start: nat, end: nat, e: nat)
    requires Positive(profile) && start < end <= |orig| == |patched|
    ensures var r := BuildFrom(profile, orig, patched, start, end, e);
            r.Success? ==> e <= r.value.edit.patchOffset
    decreases if e <= start then 1 + start - e else 0
  {
    hide Accepted, SecondBest;
    if InRange(orig, start, end, e) && !Accepted(profile, orig, start, end, e) {
      LaterHasContext(profile, orig, patched, start, end, NextExtend(e));
    }
  }

  /** A change of at most 16 bytes is tried with 8 bytes of context on either side, or with more. */
  lemma ShortChangeNeedsContext(profile: nat -> real, orig: seq<Byte>, patched: seq<Byte>, start: nat, end: nat)
    requires Positive(profile) && start < end <= |orig| == |patched|
    requires end - start <= 16
    ensures var r := Build(profile, orig, patched, start, end);
            && (start < 8 ==> r == Failure(StartOfFileHit))
            && (8 <= start && |orig| < end + 8 ==> r == Failure(EndOfFileHit))
            && (r.Success? ==> 8 <= r.value.edit.patchOffset)
            && (8 <= start && end + 8 <= |orig| ==>
                  (Accepts(SecondBest(profile, orig, start, end, 8), 8) <==>
                   r.Success? && r.value.edit.patchOffset == 8))
  {
    hide SecondBest, Accepts;
    LaterHasContext(profile, orig, patched, start, end, 8);
    if 8 <= start && end + 8 <= |orig| && !Accepted(profile, orig, start, end, 8) {
      LaterHasContext(profile, orig, patched, start, end, NextExtend(8));
    }
  }
}
