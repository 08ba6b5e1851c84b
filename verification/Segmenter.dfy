/** Grouping the differing bytes of two equally long images into ranges. */
module Segmenter {
  import opened Common

  const MIN_PATCH_GAP: nat := 4

  /** The bytes [start, end). */
  datatype Segment = Segment(start: nat, end: nat)

  predicate Differ(orig: seq<Byte>, patched: seq<Byte>, i: nat)
    requires |orig| == |patched|
  {
    i < |orig| && orig[i] != patched[i]
  }

  // ----- reference definition -----

  /** The first differing position from i on, or the length of the images. */
  function NextDiff(orig: seq<Byte>, patched: seq<Byte>, i: nat): (r: nat)
    requires |orig| == |patched| && i <= |orig|
    ensures i <= r <= |orig|
    ensures r < |orig| ==> Differ(orig, patched, r)
    ensures forall k: nat :: i <= k < r ==> !Differ(orig, patched, k)
    decreases |orig| - i
  {
    if i == |orig| || orig[i] != patched[i] then i else NextDiff(orig, patched, i + 1)
  }

  /** The end of the range that has a differing byte at j: gaps of up to 5 equal bytes are bridged. */
  function RangeEnd(orig: seq<Byte>, patched: seq<Byte>, j: nat): (r: nat)
    requires |orig| == |patched| && Differ(orig, patched, j)
    ensures j < r <= |orig|
    decreases |orig| - j
  {
    var next := NextDiff(orig, patched, j + 1);
    if next < |orig| && next - (j + 1) <= MIN_PATCH_GAP + 1 then RangeEnd(orig, patched, next) else j + 1
  }

  /** The ranges from position lo on. */
  function Segments(orig: seq<Byte>, patched: seq<Byte>, lo: nat): seq<Segment>
    requires |orig| == |patched| && lo <= |orig|
    decreases |orig| - lo
  {
    var start := NextDiff(orig, patched, lo);
    if start == |orig| then []
    else
      var end := RangeEnd(orig, patched, start);
      [Segment(start, end)] + Segments(orig, patched, end)
  }

  // ----- the canonical segmentation -----

  ghost predicate Range(orig: seq<Byte>, patched: seq<Byte>, lo: nat, s: Segment)
    requires |orig| == |patched|
  {
    && lo <= s.start < s.end <= |orig|
    && orig[s.start] != patched[s.start]
    && orig[s.end - 1] != patched[s.end - 1]
  }

  ghost predicate AllRanges(orig: seq<Byte>, patched: seq<Byte>, lo: nat, segs: seq<Segment>)
    requires |orig| == |patched|
  {
    forall k :: 0 <= k < |segs| ==> Range(orig, patched, lo, segs[k])
  }

  /** At least 6 bytes lie between any two ranges. */
  ghost predicate Separated(segs: seq<Segment>) {
    forall k, l :: 0 <= k < l < |segs| ==> segs[k].end + 6 <= segs[l].start
  }

  ghost predicate SixEqual(orig: seq<Byte>, patched: seq<Byte>, i: nat)
    requires |orig| == |patched|
  {
    forall k: nat :: i <= k < i + 6 ==> !Differ(orig, patched, k)
  }

  /** The range holds no run of more than 5 equal bytes. */
  ghost predicate Solid(orig: seq<Byte>, patched: seq<Byte>, s: Segment)
    requires |orig| == |patched|
  {
    forall i: nat :: s.start <= i && i + 6 <= s.end ==> !SixEqual(orig, patched, i)
  }

  ghost predicate Contains(s: Segment, i: nat) {
    s.start <= i < s.end
  }

  ghost predicate Covered(segs: seq<Segment>, i: nat) {
    exists k :: 0 <= k < |segs| && Contains(segs[k], i)
  }

  ghost predicate Covers(orig: seq<Byte>, patched: seq<Byte>, lo: nat, segs: seq<Segment>)
    requires |orig| == |patched|
  {
    forall i: nat :: lo <= i && Differ(orig, patched, i) ==> Covered(segs, i)
  }

  /** Ordered disjoint ranges that start and end on a differing byte, cover all differing bytes from
      lo on, hold no run of 6 equal bytes, and are separated by at least 6 bytes. */
  ghost predicate Canonical(orig: seq<Byte>, patched: seq<Byte>, lo: nat, segs: seq<Segment>)
    requires |orig| == |patched|
  {
    && AllRanges(orig, patched, lo, segs)
    && Separated(segs)
    && (forall k :: 0 <= k < |segs| ==> Solid(orig, patched, segs[k]))
    && Covers(orig, patched, lo, segs)
  }

  lemma RangeAt(orig: seq<Byte>, patched: seq<Byte>, lo: nat, segs: seq<Segment>, k: nat)
    requires |orig| == |patched| && AllRanges(orig, patched, lo, segs) && k < |segs|
    ensures Range(orig, patched, lo, segs[k])
  {
  }

  lemma CoveredBy(orig: seq<Byte>, patched: seq<Byte>, lo: nat, segs: seq<Segment>, i: nat) returns (k: nat)
    requires |orig| == |patched| && Covers(orig, patched, lo, segs)
    requires lo <= i && Differ(orig, patched, i)
    ensures k < |segs| && Contains(segs[k], i)
  {
    assert Covered(segs, i);
    k :| k < |segs| && Contains(segs[k], i);
  }

  lemma {:induction false} RangeEndProperties(orig: seq<Byte>, patched: seq<Byte>, j: nat)
    requires |orig| == |patched| && Differ(orig, patched, j)
    ensures var e := RangeEnd(orig, patched, j);
            && Differ(orig, patched, e - 1)
            && (NextDiff(orig, patched, e) < |orig| ==> e + 6 <= NextDiff(orig, patched, e))
            && Solid(orig, patched, Segment(j, e))
    decreases |orig| - j
  {
    var next := NextDiff(orig, patched, j + 1);
    var e := RangeEnd(orig, patched, j);
    if next < |orig| && next - (j + 1) <= MIN_PATCH_GAP + 1 {
      RangeEndProperties(orig, patched, next);
      forall i: nat | j <= i && i + 6 <= e ensures !SixEqual(orig, patched, i) {
        if i < next {
          var k := if i == j then j else next;
          assert i <= k < i + 6 && Differ(orig, patched, k);
        }
      }
    }
  }

  lemma {:induction false} SegmentsCanonical(orig: seq<Byte>, patched: seq<Byte>, lo: nat)
    requires |orig| == |patched| && lo <= |orig|
    ensures Canonical(orig, patched, lo, Segments(orig, patched, lo))
    decreases |orig| - lo
  {
    hide Covers, AllRanges, NextDiff, RangeEnd, Solid;
    var start := NextDiff(orig, patched, lo);
    if start == |orig| {
      NothingToCover(orig, patched, lo);
    } else {
      var end := RangeEnd(orig, patched, start);
      RangeEndProperties(orig, patched, start);
      SegmentsCanonical(orig, patched, end);
      ConsCanonical(orig, patched, lo, Segment(start, end), Segments(orig, patched, end));
    }
  }

  lemma NothingToCover(orig: seq<Byte>, patched: seq<Byte>, lo: nat)
    requires |orig| == |patched| && lo <= |orig| && NextDiff(orig, patched, lo) == |orig|
    ensures Canonical(orig, patched, lo, [])
  {
  }

  lemma ConsCanonical(orig: seq<Byte>, patched: seq<Byte>, lo: nat, s: Segment, rest: seq<Segment>)
    requires |orig| == |patched| && lo <= |orig| && s.end <= |orig|
    requires Range(orig, patched, lo, s) && Solid(orig, patched, s)
    requires s.start == NextDiff(orig, patched, lo)
    requires NextDiff(orig, patched, s.end) < |orig| ==> s.end + 6 <= NextDiff(orig, patched, s.end)
    requires Canonical(orig, patched, s.end, rest)
    ensures Canonical(orig, patched, lo, [s] + rest)
  {
    hide Covers, AllRanges, Solid;
    ConsCovers(orig, patched, lo, s, rest);
    forall k: nat | k < |rest| ensures s.end + 6 <= rest[k].start && Range(orig, patched, lo, rest[k]) {
      RangeAt(orig, patched, s.end, rest, k);
      assert Differ(orig, patched, rest[k].start);
    }
    ConsRanges(orig, patched, lo, s, rest);
  }

  lemma ConsRanges(orig: seq<Byte>, patched: seq<Byte>, lo: nat, s: Segment, rest: seq<Segment>)
    requires |orig| == |patched| && Range(orig, patched, lo, s) && AllRanges(orig, patched, s.end, rest)
    ensures AllRanges(orig, patched, lo, [s] + rest)
  {
  }

  lemma ConsCovers(orig: seq<Byte>, patched: seq<Byte>, lo: nat, s: Segment, rest: seq<Segment>)
    requires |orig| == |patched| && lo <= |orig| && s.start == NextDiff(orig, patched, lo)
    requires Covers(orig, patched, s.end, rest)
    ensures Covers(orig, patched, lo, [s] + rest)
  {
    forall i: nat | lo <= i && Differ(orig, patched, i) ensures Covered([s] + rest, i) {
      if s.end <= i {
        var k := CoveredBy(orig, patched, s.end, rest, i);
        assert ([s] + rest)[k + 1] == rest[k];
      } else {
        assert Contains(([s] + rest)[0], i);
      }
    }
  }

  /** No other list of ranges is canonical. */
  lemma {:induction false} CanonicalUnique(orig: seq<Byte>, patched: seq<Byte>, lo: nat, a: seq<Segment>, b: seq<Segment>)
    requires |orig| == |patched|
    requires Canonical(orig, patched, lo, a) && Canonical(orig, patched, lo, b)
    ensures a == b
    decreases a
  {
    hide Canonical;
    if a == [] || b == [] {
      FirstIsCovered(orig, patched, lo, a, b);
      FirstIsCovered(orig, patched, lo, b, a);
    } else {
      HeadAtMost(orig, patched, lo, a, b);
      HeadAtMost(orig, patched, lo, b, a);
      TailCanonical(orig, patched, lo, a);
      TailCanonical(orig, patched, lo, b);
      CanonicalUnique(orig, patched, a[0].end, a[1..], b[1..]);
      assert a == [a[0]] + a[1..] && b == [b[0]] + b[1..];
    }
  }

  lemma FirstIsCovered(orig: seq<Byte>, patched: seq<Byte>, lo: nat, a: seq<Segment>, b: seq<Segment>)
    requires |orig| == |patched|
    requires Canonical(orig, patched, lo, a) && Canonical(orig, patched, lo, b)
    ensures a != [] ==> b != []
  {
    hide Covers, AllRanges;
    if a != [] {
      RangeAt(orig, patched, lo, a, 0);
      var k := CoveredBy(orig, patched, lo, b, a[0].start);
    }
  }

  /** The first range of one canonical list starts no later than that of another, and when they
      start together it ends no later. */
  lemma HeadAtMost(orig: seq<Byte>, patched: seq<Byte>, lo: nat, a: seq<Segment>, b: seq<Segment>)
    requires |orig| == |patched|
    requires Canonical(orig, patched, lo, a) && Canonical(orig, patched, lo, b)
    requires a != [] && b != []
    ensures a[0].start <= b[0].start
    ensures a[0].start == b[0].start ==> a[0].end <= b[0].end
  {
    hide Covers, AllRanges;
    RangeAt(orig, patched, lo, a, 0);
    RangeAt(orig, patched, lo, b, 0);
    var k := CoveredBy(orig, patched, lo, a, b[0].start);
    if k > 0 {
      assert a[0].end + 6 <= a[k].start;
    }
    if a[0].start == b[0].start && b[0].end < a[0].end {
      var l := CoveredBy(orig, patched, lo, b, a[0].end - 1);
      assert b[0].end + 6 <= b[l].start;
      GapIsEqual(orig, patched, lo, b);
    }
  }

  /** After the first range come 6 equal bytes, when the images go on. */
  lemma GapIsEqual(orig: seq<Byte>, patched: seq<Byte>, lo: nat, b: seq<Segment>)
    requires |orig| == |patched| && Canonical(orig, patched, lo, b) && b != []
    ensures SixEqual(orig, patched, b[0].end)
  {
    hide Covers, AllRanges;
    RangeAt(orig, patched, lo, b, 0);
    forall d: nat | b[0].end <= d < b[0].end + 6 ensures !Differ(orig, patched, d) {
      if Differ(orig, patched, d) {
        var k := CoveredBy(orig, patched, lo, b, d);
      }
    }
  }

  lemma TailCanonical(orig: seq<Byte>, patched: seq<Byte>, lo: nat, a: seq<Segment>)
    requires |orig| == |patched|
    requires Canonical(orig, patched, lo, a) && a != []
    ensures Canonical(orig, patched, a[0].end, a[1..])
  {
    hide Covers, Solid, AllRanges;
    RangeAt(orig, patched, lo, a, 0);
    TailCovers(orig, patched, lo, a);
    TailRanges(orig, patched, lo, a);
  }

  lemma TailRanges(orig: seq<Byte>, patched: seq<Byte>, lo: nat, a: seq<Segment>)
    requires |orig| == |patched| && a != [] && AllRanges(orig, patched, lo, a) && Separated(a)
    ensures AllRanges(orig, patched, a[0].end, a[1..])
  {
  }

  lemma TailCovers(orig: seq<Byte>, patched: seq<Byte>, lo: nat, a: seq<Segment>)
    requires |orig| == |patched| && a != [] && lo <= a[0].end
    requires Covers(orig, patched, lo, a)
    ensures Covers(orig, patched, a[0].end, a[1..])
  {
    forall i: nat | a[0].end <= i && Differ(orig, patched, i) ensures Covered(a[1..], i) {
      var k := CoveredBy(orig, patched, lo, a, i);
      assert a[1..][k - 1] == a[k];
    }
  }

  // ----- writing ranges back -----

  /** Overwriting out with the bytes of patched in one range. */
  function WriteRange(out: seq<Byte>, patched: seq<Byte>, s: Segment): (r: seq<Byte>)
    requires s.start <= s.end <= |out| == |patched|
    ensures |r| == |out|
  {
    WriteAt(out, s.start, patched[s.start..s.end])
  }

  ghost predicate Within(segs: seq<Segment>, n: nat) {
    forall k :: 0 <= k < |segs| ==> segs[k].start <= segs[k].end <= n
  }

  function WriteRanges(out: seq<Byte>, patched: seq<Byte>, segs: seq<Segment>): (r: seq<Byte>)
    requires |out| == |patched| && forall k :: 0 <= k < |segs| ==> segs[k].start <= segs[k].end <= |out|
    ensures |r| == |out|
  {
    if segs == [] then out
    else WriteRange(WriteRanges(out, patched, segs[..|segs| - 1]), patched, segs[|segs| - 1])
  }

  lemma CoveredByLast(segs: seq<Segment>, i: nat)
    requires segs != []
    ensures Covered(segs, i) <==> Covered(segs[..|segs| - 1], i) || Contains(segs[|segs| - 1], i)
  {
    var m := |segs| - 1;
    if Covered(segs, i) {
      var k :| 0 <= k < |segs| && Contains(segs[k], i);
      assert k < m ==> segs[..m][k] == segs[k];
    }
    if Covered(segs[..m], i) {
      var k :| 0 <= k < m && Contains(segs[..m][k], i);
      assert segs[k] == segs[..m][k];
    }
  }

  lemma WrittenOnce(out: seq<Byte>, patched: seq<Byte>, s: Segment, i: nat)
    requires s.start <= s.end <= |out| == |patched| && i < |out|
    ensures WriteRange(out, patched, s)[i] == if Contains(s, i) then patched[i] else out[i]
  {
  }

  lemma {:induction false} WrittenBytes(out: seq<Byte>, patched: seq<Byte>, segs: seq<Segment>, i: nat)
    requires |out| == |patched| && Within(segs, |out|) && i < |out|
    ensures WriteRanges(out, patched, segs)[i] == if Covered(segs, i) then patched[i] else out[i]
  {
    if segs == [] {
      assert !Covered(segs, i);
    } else {
      hide Covered, WriteRange, Contains;
      var init, last := segs[..|segs| - 1], segs[|segs| - 1];
      WrittenBytes(out, patched, init, i);
      CoveredByLast(segs, i);
      WrittenOnce(WriteRanges(out, patched, init), patched, last, i);
    }
  }

  /** Writing the canonical ranges, in any order and any number of times, turns orig into patched. */
  lemma SegmentsReconstruct(orig: seq<Byte>, patched: seq<Byte>, order: seq<Segment>)
    requires |orig| == |patched|
    requires forall s :: s in order <==> s in Segments(orig, patched, 0)
    ensures Within(order, |orig|) && WriteRanges(orig, patched, order) == patched
  {
    hide Covers, AllRanges, Segments, WriteRanges;
    var segs := Segments(orig, patched, 0);
    SegmentsCanonical(orig, patched, 0);
    forall k | 0 <= k < |order| ensures order[k].start <= order[k].end <= |orig| {
      assert order[k] in segs;
      var l: nat :| l < |segs| && segs[l] == order[k];
      RangeAt(orig, patched, 0, segs, l);
    }
    var r := WriteRanges(orig, patched, order);
    forall i: nat | i < |orig| ensures r[i] == patched[i] {
      WrittenBytes(orig, patched, order, i);
      if Differ(orig, patched, i) {
        var k := CoveredBy(orig, patched, 0, segs, i);
        assert segs[k] in order;
        var l :| 0 <= l < |order| && order[l] == segs[k];
      }
    }
  }
}
