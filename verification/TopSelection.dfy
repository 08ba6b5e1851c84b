/** Keeping the best k entries: the in-place partial sort, what "the best k of a pool" means,
    and why refilling a buffer block by block computes it. */
module TopSelection {

  /** A score and the position it was found at. */
  datatype Rating = Rating(score: real, pos: nat)

  const DEFAULT_RATING := Rating(0.0, 0)

  /** The comparison given to the sort: true when v1 must come first. */
  predicate RatingCompare(v1: Rating, v2: Rating) {
    v1.score > v2.score
  }

  ghost predicate Descending(s: seq<Rating>) {
    forall i, j :: 0 <= i < j < |s| ==> !RatingCompare(s[j], s[i])
  }

  // ----- partial_sort -----

  /** The contract of std::partial_sort with that comparison; the order of ties is left open. */
  ghost predicate PartiallySorted(s: seq<Rating>, k: nat)
    requires k <= |s|
  {
    && Descending(s[..k])
    && forall i, j :: 0 <= i < k <= j < |s| ==> !RatingCompare(s[j], s[i])
  }

  method Swap(v: array<Rating>, i: nat, j: nat)
    requires i < v.Length && j < v.Length
    modifies v
    ensures v[..] == old(v[..])[i := old(v[j])][j := old(v[i])]
    ensures multiset(v[..]) == multiset(old(v[..]))
  {
    v[i], v[j] := v[j], v[i];
  }

  method FindBest(v: array<Rating>, i: nat) returns (best: nat)
    requires i < v.Length
    ensures i <= best < v.Length
    ensures forall b :: i <= b < v.Length ==> !RatingCompare(v[b], v[best])
  {
    best := i;
    var j := i + 1;
    while j < v.Length
      invariant i <= best < j <= v.Length
      invariant forall b :: i <= b < j ==> !RatingCompare(v[b], v[best])
    {
      if RatingCompare(v[j], v[best]) {
        best := j;
      }
      j := j + 1;
    }
  }

  method PartialSort(v: array<Rating>, k: nat)
    requires k <= v.Length
    modifies v
    ensures multiset(v[..]) == multiset(old(v[..]))
    ensures PartiallySorted(v[..], k)
  {
    var i := 0;
    while i < k
      invariant 0 <= i <= k
      invariant multiset(v[..]) == multiset(old(v[..]))
      invariant forall a, b :: 0 <= a < i && a < b < v.Length ==> !RatingCompare(v[b], v[a])
    {
      var best := FindBest(v, i);
      Swap(v, i, best);
      i := i + 1;
    }
  }

  // ----- the best entries of a pool -----

  /** top holds best entries of the pool: it is a descending part of the pool, and every pool
      entry better than the last kept one is kept, as often as the pool has it. */
  ghost predicate TopOf(top: seq<Rating>, pool: multiset<Rating>) {
    && 0 < |top|
    && Descending(top)
    && multiset(top) <= pool
    && forall x :: x in pool && x.score > top[|top| - 1].score ==> multiset(top)[x] == pool[x]
  }

  ghost function Zeros(n: nat): multiset<Rating> {
    multiset{}[DEFAULT_RATING := n]
  }

  lemma CountInParts(s: seq<Rating>, k: nat, x: Rating)
    requires k <= |s|
    ensures multiset(s)[x] == multiset(s[..k])[x] + multiset(s[k..])[x]
  {
    assert s == s[..k] + s[k..];
  }

  lemma NotIn(s: seq<Rating>, x: Rating)
    requires forall i :: 0 <= i < |s| ==> s[i] != x
    ensures multiset(s)[x] == 0
  {
  }

  lemma SubsetSize(a: multiset<Rating>, b: multiset<Rating>)
    requires a <= b
    ensures |a| <= |b|
  {
    assert b == a + (b - a);
  }

  /** The kept scores depend on the pool only, not on how ties are broken. */
  lemma TopScoresUnique(t1: seq<Rating>, t2: seq<Rating>, pool: multiset<Rating>, i: nat)
    requires TopOf(t1, pool) && TopOf(t2, pool)
    requires i < |t1| == |t2|
    ensures t1[i].score == t2[i].score
  {
    TopScoreAtMost(t1, t2, pool, i);
    TopScoreAtMost(t2, t1, pool, i);
  }

  /** Pool entries better than the i-th kept one all sit before it. */
  lemma KeptAbove(top: seq<Rating>, pool: multiset<Rating>, i: nat, x: Rating)
    requires TopOf(top, pool) && i < |top|
    requires x.score > top[i].score
    ensures multiset(top[..i])[x] == pool[x]
  {
    CountInParts(top, i, x);
    NotIn(top[i..], x);
  }

  lemma TopScoreAtMost(t1: seq<Rating>, t2: seq<Rating>, pool: multiset<Rating>, i: nat)
    requires TopOf(t1, pool) && TopOf(t2, pool)
    requires i < |t1| == |t2|
    ensures t1[i].score <= t2[i].score
  {
    if t1[i].score > t2[i].score {
      var a, b := t1[..i + 1], t2[..i];
      forall x | x in multiset(a)
        ensures multiset(a)[x] <= multiset(b)[x]
      {
        var m :| 0 <= m < |a| && a[m] == x;
        CountInParts(t1, i + 1, x);
        KeptAbove(t2, pool, i, x);
      }
      SubsetSize(multiset(a), multiset(b));
      assert false;
    }
  }

  lemma PrefixCount(top: seq<Rating>, pool: multiset<Rating>, k: nat, x: Rating)
    requires TopOf(top, pool) && 0 < k <= |top|
    ensures multiset(top[..k])[x] <= pool[x]
    ensures x.score > top[k - 1].score ==> multiset(top[..k])[x] == pool[x]
  {
    CountInParts(top, k, x);
    if x.score > top[k - 1].score {
      CountInParts(top[..k], k - 1, x);
      assert top[..k][..k - 1] == top[..k - 1];
      KeptAbove(top, pool, k - 1, x);
    }
  }

  lemma TopOfIntro(top: seq<Rating>, pool: multiset<Rating>)
    requires 0 < |top| && Descending(top)
    requires forall x: Rating :: multiset(top)[x] <= pool[x]
    requires forall x: Rating :: x.score > top[|top| - 1].score ==> multiset(top)[x] == pool[x]
    ensures TopOf(top, pool)
  {
  }

  /** The best k of the best n are the best k. */
  lemma TopOfPrefix(top: seq<Rating>, pool: multiset<Rating>, k: nat)
    requires TopOf(top, pool) && 0 < k <= |top|
    ensures TopOf(top[..k], pool)
  {
    forall x: Rating
      ensures multiset(top[..k])[x] <= pool[x]
      ensures x.score > top[k - 1].score ==> multiset(top[..k])[x] == pool[x]
    {
      PrefixCount(top, pool, k, x);
    }
    TopOfIntro(top[..k], pool);
  }

  /** Further default entries do not matter when all scores are non-negative. */
  lemma TopOfMoreZeros(top: seq<Rating>, pool: multiset<Rating>, n: nat)
    requires TopOf(top, pool)
    requires forall x :: x in pool ==> 0.0 <= x.score
    ensures TopOf(top, pool + Zeros(n))
  {
    var last := top[|top| - 1];
    assert last in multiset(top);
  }

  // ----- streaming -----

  /** What the buffer satisfies between blocks, E being the entries scored so far:
      the first k slots hold the best k, every slot holds a scored entry (no position twice)
      or a default one, and no leftover slot is better than the kept ones. */
  ghost predicate Streamed(v: seq<Rating>, k: nat, E: seq<Rating>) {
    && 0 < k <= |v|
    && multiset(v) <= multiset(E) + Zeros(|v|)
    && TopOf(v[..k], multiset(E) + Zeros(|v|))
    && forall j :: k <= j < |v| ==> v[j].score <= v[k - 1].score
  }

  lemma MultisetOfConstant(v: seq<Rating>)
    requires forall i :: 0 <= i < |v| ==> v[i] == DEFAULT_RATING
    ensures multiset(v) == Zeros(|v|)
  {
    if v != [] {
      var u := v[..|v| - 1];
      MultisetOfConstant(u);
      assert v == u + [DEFAULT_RATING];
    }
  }

  lemma StreamStart(v: seq<Rating>, k: nat)
    requires 0 < k <= |v|
    requires forall i :: 0 <= i < |v| ==> v[i] == DEFAULT_RATING
    ensures Streamed(v, k, [])
  {
    MultisetOfConstant(v);
    var none: seq<Rating> := [];
    assert multiset(none) + Zeros(|v|) == multiset(v);
    forall x ensures multiset(v[..k])[x] <= multiset(v)[x] {
      CountInParts(v, k, x);
    }
    assert multiset(v[..k]) <= multiset(v);
  }

  /** One block: overwrite the first |B| leftover slots with new entries and sort again.
      Stale leftovers beyond a short block can only tie with the kept entries. */
  lemma StreamStep(v: seq<Rating>, filled: seq<Rating>, v': seq<Rating>, k: nat, E: seq<Rating>, B: seq<Rating>)
    requires Streamed(v, k, E)
    requires k + |B| <= |v|
    requires filled == v[..k] + B + v[k + |B|..]
    requires |v'| == |v| && multiset(v') == multiset(filled)
    requires PartiallySorted(v', k)
    ensures Streamed(v', k, E + B)
  {
    var pool' := multiset(E + B) + Zeros(|v|);
    KeptAreNoWorse(v, filled, v', k, B);
    forall x: Rating
      ensures multiset(v')[x] <= pool'[x]
      ensures multiset(v'[..k])[x] <= pool'[x]
      ensures x.score > v'[k - 1].score ==> multiset(v'[..k])[x] == pool'[x]
    {
      StepCount(v, filled, v', k, E, B, x);
    }
    StreamedIntro(v', k, E + B);
  }

  lemma StreamedIntro(v: seq<Rating>, k: nat, E: seq<Rating>)
    requires 0 < k <= |v| && PartiallySorted(v, k)
    requires forall x: Rating :: multiset(v)[x] <= (multiset(E) + Zeros(|v|))[x]
    requires forall x: Rating :: multiset(v[..k])[x] <= (multiset(E) + Zeros(|v|))[x]
    requires forall x: Rating :: x.score > v[k - 1].score ==> multiset(v[..k])[x] == (multiset(E) + Zeros(|v|))[x]
    ensures Streamed(v, k, E)
  {
    TopOfIntro(v[..k], multiset(E) + Zeros(|v|));
  }

  lemma StepCount(v: seq<Rating>, filled: seq<Rating>, v': seq<Rating>, k: nat, E: seq<Rating>, B: seq<Rating>,
                  x: Rating)
    requires Streamed(v, k, E)
    requires k + |B| <= |v|
    requires filled == v[..k] + B + v[k + |B|..]
    requires |v'| == |v| && multiset(v') == multiset(filled)
    requires PartiallySorted(v', k) && v[k - 1].score <= v'[k - 1].score
    ensures multiset(v')[x] <= (multiset(E + B) + Zeros(|v|))[x]
    ensures multiset(v'[..k])[x] <= multiset(v')[x]
    ensures x.score > v'[k - 1].score ==> multiset(v'[..k])[x] == (multiset(E + B) + Zeros(|v|))[x]
  {
    CountFilled(v, filled, k, B, x);
    CountInParts(v, k, x);
    CountInParts(v[k..], |B|, x);
    assert v[k..][|B|..] == v[k + |B|..];
    CountInParts(v', k, x);
    assert multiset(v)[x] <= (multiset(E) + Zeros(|v|))[x];
    if x.score > v'[k - 1].score {
      NotIn(v'[k..], x);
      PrefixCount(v[..k], multiset(E) + Zeros(|v|), k, x);
      assert v[..k][..k] == v[..k];
    }
  }

  lemma CountFilled(v: seq<Rating>, filled: seq<Rating>, k: nat, B: seq<Rating>, x: Rating)
    requires k + |B| <= |v|
    requires filled == v[..k] + B + v[k + |B|..]
    ensures multiset(filled)[x] == multiset(v[..k])[x] + multiset(B)[x] + multiset(v[k + |B|..])[x]
  {
  }

  /** The k-th kept score never falls from one block to the next. */
  lemma KeptAreNoWorse(v: seq<Rating>, filled: seq<Rating>, v': seq<Rating>, k: nat, B: seq<Rating>)
    requires 0 < k && k + |B| <= |v|
    requires Descending(v[..k])
    requires filled == v[..k] + B + v[k + |B|..]
    requires |v'| == |v| && multiset(v') == multiset(filled)
    requires PartiallySorted(v', k)
    ensures v[k - 1].score <= v'[k - 1].score
  {
    if v'[k - 1].score < v[k - 1].score {
      var a, b := v[..k], v'[..k - 1];
      forall x | x in multiset(a)
        ensures multiset(a)[x] <= multiset(b)[x]
      {
        assert x in a;
        assert v[k - 1].score <= x.score;
        KeptStaysAhead(a, filled, v', k, x);
      }
      SubsetSize(multiset(a), multiset(b));
      assert false;
    }
  }

  lemma KeptStaysAhead(a: seq<Rating>, filled: seq<Rating>, v': seq<Rating>, k: nat, x: Rating)
    requires 0 < k <= |filled| == |v'| && filled[..k] == a
    requires multiset(v') == multiset(filled) && PartiallySorted(v', k)
    requires v'[k - 1].score < x.score
    ensures multiset(a)[x] <= multiset(v'[..k - 1])[x]
  {
    CountInParts(filled, k, x);
    CountInParts(v', k - 1, x);
    NotIn(v'[k - 1..], x);
  }

  // ----- the simple form: score everything, sort, take k -----

  function InsertDescending(x: Rating, s: seq<Rating>): (r: seq<Rating>)
    ensures |r| == |s| + 1
  {
    if s == [] || RatingCompare(x, s[0]) then [x] + s else [s[0]] + InsertDescending(x, s[1..])
  }

  function SortDescending(s: seq<Rating>): (r: seq<Rating>)
    ensures |r| == |s|
  {
    if s == [] then [] else InsertDescending(s[|s| - 1], SortDescending(s[..|s| - 1]))
  }

  /** The k best entries of E, filled up with default entries when there are fewer. */
  function BestOf(E: seq<Rating>, k: nat): (r: seq<Rating>)
    ensures |r| == k
  {
    SortDescending(E + seq(k, i => DEFAULT_RATING))[..k]
  }

  ghost predicate NonNegative(E: seq<Rating>) {
    forall i :: 0 <= i < |E| ==> 0.0 <= E[i].score
  }

  lemma {:induction false} InsertAdds(x: Rating, s: seq<Rating>)
    ensures multiset(InsertDescending(x, s)) == multiset(s) + multiset{x}
  {
    if s == [] {
    } else {
      assert s == [s[0]] + s[1..];
      if !RatingCompare(x, s[0]) {
        InsertAdds(x, s[1..]);
      }
    }
  }

  lemma {:induction false} InsertSorts(x: Rating, s: seq<Rating>)
    requires Descending(s)
    ensures Descending(InsertDescending(x, s))
  {
    if s == [] || RatingCompare(x, s[0]) {
    } else {
      InsertSorts(x, s[1..]);
      InsertAdds(x, s[1..]);
      var r := InsertDescending(x, s[1..]);
      forall j | 0 <= j < |r| ensures !RatingCompare(r[j], s[0]) {
        assert r[j] in multiset(s[1..]) + multiset{x};
        assert r[j] in s[1..] || r[j] == x;
      }
    }
  }

  lemma {:induction false} SortSorts(s: seq<Rating>)
    ensures Descending(SortDescending(s))
    ensures multiset(SortDescending(s)) == multiset(s)
  {
    if s == [] {
    } else {
      var m := |s| - 1;
      SortSorts(s[..m]);
      InsertSorts(s[m], SortDescending(s[..m]));
      InsertAdds(s[m], SortDescending(s[..m]));
      assert s == s[..m] + [s[m]];
    }
  }

  lemma DescendingIsTop(s: seq<Rating>)
    requires 0 < |s| && Descending(s)
    ensures TopOf(s, multiset(s))
  {
  }

  lemma BestOfIsTop(E: seq<Rating>, k: nat, extra: nat)
    requires 0 < k && NonNegative(E)
    ensures TopOf(BestOf(E, k), multiset(E) + Zeros(k + extra))
  {
    BestOfIsTopExactly(E, k);
    TopOfMoreZeros(BestOf(E, k), multiset(E) + Zeros(k), extra);
    assert multiset(E) + Zeros(k) + Zeros(extra) == multiset(E) + Zeros(k + extra);
  }

  lemma BestOfIsTopExactly(E: seq<Rating>, k: nat)
    requires 0 < k && NonNegative(E)
    ensures TopOf(BestOf(E, k), multiset(E) + Zeros(k))
    ensures forall x :: x in multiset(E) + Zeros(k) ==> 0.0 <= x.score
  {
    var zeros := seq(k, i => DEFAULT_RATING);
    var sorted := SortDescending(E + zeros);
    SortSorts(E + zeros);
    MultisetOfConstant(zeros);
    DescendingIsTop(sorted);
    assert multiset(sorted) == multiset(E) + Zeros(k);
    TopOfPrefix(sorted, multiset(sorted), k);
  }

  /** The best entries of a padded pool have exactly the scores of the simple form. */
  lemma TopScoresAreBest(top: seq<Rating>, E: seq<Rating>, n: nat, i: nat)
    requires TopOf(top, multiset(E) + Zeros(n)) && NonNegative(E)
    requires i < |top| <= n
    ensures top[i].score == BestOf(E, |top|)[i].score
  {
    BestOfIsTop(E, |top|, n - |top|);
    TopScoresUnique(top, BestOf(E, |top|), multiset(E) + Zeros(n), i);
  }

  /** Asking for more results does not change the first ones. */
  lemma BestOfIndependentOfK(E: seq<Rating>, k: nat, n: nat, i: nat)
    requires NonNegative(E) && i < k <= n
    ensures BestOf(E, k)[i].score == BestOf(E, n)[i].score
  {
    BestOfIsTop(E, n, 0);
    TopOfPrefix(BestOf(E, n), multiset(E) + Zeros(n), k);
    TopScoresAreBest(BestOf(E, n)[..k], E, n, i);
  }

  /** A kept entry is a scored one or a default one; a scored one that beats the last is kept. */
  lemma TopMembers(top: seq<Rating>, E: seq<Rating>, n: nat)
    requires TopOf(top, multiset(E) + Zeros(n))
    ensures forall i :: 0 <= i < |top| ==> top[i] in E || top[i] == DEFAULT_RATING
    ensures forall e :: e in E && e.score > top[|top| - 1].score ==> e in top
  {
    forall i | 0 <= i < |top| ensures top[i] in E || top[i] == DEFAULT_RATING {
      assert top[i] in multiset(top);
    }
    forall e: Rating | e in E && e.score > top[|top| - 1].score ensures e in top {
      assert e in multiset(E) + Zeros(n);
      assert multiset(top)[e] > 0;
    }
  }
}
