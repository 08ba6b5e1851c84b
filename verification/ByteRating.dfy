/** The table that says how alike two bytes are, and its one-time initialisation. */
module ByteRating {
  import opened Common

  function Pow2(k: nat): (r: nat)
    ensures 0 < r
  {
    if k == 0 then 1 else 2 * Pow2(k - 1)
  }

  /** Number of bits needed to write t in binary. */
  function BitLength(t: nat): nat {
    if t == 0 then 0 else 1 + BitLength(t / 2)
  }

  lemma {:induction false} BitLengthIsLogarithm(t: nat, k: nat)
    ensures BitLength(t) <= k <==> t < Pow2(k)
  {
    if k == 0 || t == 0 {
    } else {
      BitLengthIsLogarithm(t / 2, k - 1);
    }
  }

  /** What the table holds for a byte difference: 16 for equal bytes, otherwise less the higher
      the top differing bit is, plus 4 when the difference stays inside one nibble. */
  function Rate(diff: nat): int {
    if diff == 0 then 16
    else 8 - BitLength(diff) + (if diff % 16 == 0 || diff / 16 == 0 then 4 else 0)
  }

  /** The rating by magnitude: a difference of k + 1 bits rates 7 - k, or 11 - k inside one nibble. */
  lemma RateByMagnitude(diff: nat, k: nat)
    requires k < 8 && Pow2(k) <= diff < Pow2(k + 1)
    ensures Rate(diff) == (if diff < 16 || diff % 16 == 0 then 11 else 7) - k
  {
    BitLengthIsLogarithm(diff, k);
    BitLengthIsLogarithm(diff, k + 1);
  }

  /** The similarity of two bytes. */
  function XorRate(p: Byte, q: Byte): int {
    Rate((p ^ q) as int)
  }

  /** The same for bytes: what counts is the top bit of their exclusive or. */
  lemma XorRateByMagnitude(p: Byte, q: Byte, k: nat)
    requires k < 8 && Pow2(k) <= (p ^ q) as int < Pow2(k + 1)
    ensures XorRate(p, q) == (if (p ^ q) as int < 16 || (p ^ q) as int % 16 == 0 then 11 else 7) - k
  {
    RateByMagnitude((p ^ q) as int, k);
  }

  /** Only equal bytes reach 16; any difference costs at least 5. */
  lemma XorRateSeparates(p: Byte, q: Byte)
    ensures 0 <= XorRate(p, q) <= 16
    ensures p == q <==> XorRate(p, q) == 16
    ensures p != q <==> XorRate(p, q) <= 11
  {
    BitLengthIsLogarithm((p ^ q) as int, 8);
    assert Pow2(8) == 256;
    BitLengthIsLogarithm((p ^ q) as int, 0);
  }

  /** The bound 11 is reached: flipping the lowest bit of a byte costs exactly 5. */
  lemma LowestBitCostsFive(p: Byte)
    ensures p ^ 1 != p && XorRate(p ^ 1, p) == 11
  {
    assert (p ^ 1) ^ p == 1;
    assert BitLength(1) == 1 + BitLength(0);
    assert Rate(1) == 11;
  }

  /** The static `diff_byte_rating` with its guard variable. */
  class RatingTable {
    const rating: array<int>
    var inited: bool

    constructor ()
      ensures fresh(rating) && !inited && Valid()
    {
      rating := new int[0x100](_ => 0);
      inited := false;
    }

    ghost predicate Valid()
      reads this, rating
    {
      rating.Length == 0x100 && (inited ==> Ready())
    }

    /** Every entry is in place. */
    ghost predicate Ready()
      reads rating
    {
      rating.Length == 0x100 && forall i :: 0 <= i < 0x100 ==> rating[i] == Rate(i)
    }

    method Init()
      requires Valid()
      modifies this, rating
      ensures Valid() && Ready() && inited
    {
      if inited {
        return;
      }
      inited := true;
      var i := 0;
      while i < rating.Length
        invariant 0 <= i <= rating.Length
        invariant inited
        invariant forall k :: 0 <= k < i ==> rating[k] == Rate(k)
      {
        var count := 0;
        var t := i;
        while t != 0
          invariant 0 <= t <= i && 0 <= count
          invariant count + BitLength(t) == BitLength(i)
        {
          count := count + 1;
          t := t / 2;
        }
        var r := 8 - count;
        if count == 0 {
          r := r + 8;
        } else if i % 16 == 0 || i / 16 == 0 {
          r := r + 4;
        }
        rating[i] := r;
        i := i + 1;
      }
    }
  }
}
