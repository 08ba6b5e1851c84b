/** When the builder is content with a pattern. The source compares
    pow(second, 1 + (extend / 16)^2) with 0.8. The exponent is (256 + extend^2) / 256, so over the
    reals the comparison is one between whole powers. */
module Acceptance {

  const MAX_SECOND_MATCH := 0.8
  const EXACT := 0.9999

  function Pow(x: real, n: nat): real {
    if n == 0 then 1.0 else x * Pow(x, n - 1)
  }

  /** The builder's test, for a second-best similarity x found with the given extend. */
  predicate Accepts(x: real, extend: nat) {
    Pow(x, 256 + extend * extend) < Pow(MAX_SECOND_MATCH, 256)
  }

  // ----- powers -----

  lemma {:induction false} PowAdd(x: real, m: nat, n: nat)
    ensures Pow(x, m + n) == Pow(x, m) * Pow(x, n)
  {
    if m == 0 {
    } else {
      PowAdd(x, m - 1, n);
      MulAssociates(x, Pow(x, m - 1), Pow(x, n));
    }
  }

  lemma MulAssociates(a: real, b: real, c: real)
    ensures a * (b * c) == (a * b) * c
  {
  }

  lemma {:induction false} PowMul(x: real, m: nat, n: nat)
    ensures Pow(x, m * n) == Pow(Pow(x, m), n)
  {
    if n == 0 {
    } else {
      PowMul(x, m, n - 1);
      PowAdd(x, m, m * (n - 1));
      assert m * n == m + m * (n - 1);
    }
  }

  lemma {:induction false} PowMonotone(x: real, y: real, n: nat)
    requires 0.0 <= x <= y
    ensures 0.0 <= Pow(x, n) <= Pow(y, n)
    ensures 0.0 < x ==> 0.0 < Pow(x, n)
    ensures 0.0 < y ==> 0.0 < Pow(y, n)
    ensures x < y && 0 < n ==> Pow(x, n) < Pow(y, n)
  {
    if n == 0 {
    } else {
      PowMonotone(x, y, n - 1);
      var a, b := Pow(x, n - 1), Pow(y, n - 1);
      assert Pow(x, n) == x * a && Pow(y, n) == y * b;
      ProductMonotone(x, y, a, b);
    }
  }

  lemma ProductMonotone(x: real, y: real, a: real, b: real)
    requires 0.0 <= x <= y && 0.0 <= a <= b
    ensures 0.0 <= x * a <= y * b
    ensures 0.0 < x && 0.0 < a ==> 0.0 < x * a
    ensures 0.0 < y && 0.0 < b ==> 0.0 < y * b
    ensures x < y && 0.0 < b ==> x * a < y * b
  {
    assert x * a <= x * b;
    assert x * b <= y * b;
    if x < y && 0.0 < b {
      assert (y - x) * b > 0.0;
    }
  }

  lemma {:induction false} PowShrinks(x: real, m: nat, n: nat)
    requires 0.0 <= x <= 1.0 && m <= n
    ensures Pow(x, n) <= Pow(x, m)
  {
    if m == n {
    } else {
      PowShrinks(x, m, n - 1);
      PowMonotone(x, x, n - 1);
      ProductMonotone(x, 1.0, Pow(x, n - 1), Pow(x, n - 1));
    }
  }

  lemma {:induction false} Bernoulli(h: real, n: nat)
    requires -1.0 <= h
    ensures 1.0 + n as real * h <= Pow(1.0 + h, n)
  {
    if n == 0 {
    } else {
      Bernoulli(h, n - 1);
      BernoulliStep(h, (n - 1) as real, Pow(1.0 + h, n - 1));
    }
  }

  lemma BernoulliStep(h: real, m: real, p: real)
    requires -1.0 <= h && 0.0 <= m && 1.0 + m * h <= p
    ensures 1.0 + (m + 1.0) * h <= (1.0 + h) * p
  {
    var b := m * h;
    assert h * b >= 0.0 by {
      assert h * h >= 0.0;
      assert m * (h * h) >= 0.0;
      MulAssociates(h, m, h);
      MulAssociates(m, h, h);
    }
    ProductMonotone(0.0, 1.0 + h, 0.0, p - (1.0 + b));
    assert (1.0 + h) * p == (1.0 + h) * (p - (1.0 + b)) + (1.0 + h) * (1.0 + b);
    assert (1.0 + h) * (1.0 + b) == 1.0 + b + h + h * b;
  }

  // ----- the test -----

  /** The whole-power test decides as the real power does: y is x to the power 1 + (extend / 16)^2
      exactly when y^256 = x^(256 + extend^2). */
  lemma AcceptsComparesPower(x: real, extend: nat, y: real)
    requires 0.0 <= y && Pow(y, 256) == Pow(x, 256 + extend * extend)
    ensures Accepts(x, extend) <==> y < 0.8
  {
    if y < MAX_SECOND_MATCH {
      PowMonotone(y, MAX_SECOND_MATCH, 256);
    } else {
      PowMonotone(MAX_SECOND_MATCH, y, 256);
    }
  }

  /** The two exponents that need no root: 1 without context and 2 with 16 bytes of it. */
  lemma AcceptsPlainly(x: real)
    requires 0.0 <= x
    ensures Accepts(x, 0) <==> x < 0.8
    ensures Accepts(x, 16) <==> x * x < 0.8
  {
    AcceptsComparesPower(x, 0, x);
    PowMul(x, 2, 256);
    assert Pow(x, 2) == x * Pow(x, 1) && Pow(x, 1) == x * Pow(x, 0) && Pow(x, 0) == 1.0;
    assert Pow(x, 2) == x * x && 2 * 256 == 256 + 16 * 16;
    AcceptsComparesPower(x, 16, x * x);
  }

  lemma ExtendSquare(e: nat, bound: nat)
    ensures e <= bound ==> e * e <= bound * bound
    ensures bound <= e ==> bound * bound <= e * e
  {
    if e <= bound {
      assert bound * bound - e * e == (bound - e) * (bound + e);
    } else {
      assert e * e - bound * bound == (e - bound) * (e + bound);
    }
  }

  lemma RejectsExact(x: real, extend: nat)
    requires EXACT <= x <= 1.0 && extend <= 512
    ensures !Accepts(x, extend)
  {
    var n := 256 + extend * extend;
    ExtendSquare(extend, 512);
    PowMonotone(EXACT, x, n);
    PowShrinks(EXACT, n, 1025 * 256);
    PowMul(EXACT, 1025, 256);
    Bernoulli(-0.0001, 1025);
    PowMonotone(MAX_SECOND_MATCH, Pow(EXACT, 1025), 256);
  }

  lemma AcceptsExact(extend: nat)
    requires 1024 <= extend
    ensures Accepts(EXACT, extend)
  {
    var n := 256 + extend * extend;
    ExtendSquare(extend, 1024);
    PowShrinks(EXACT, 4097 * 256, n);
    PowMul(EXACT, 4097, 256);
    FarPowerIsSmall();
    PowMonotone(EXACT, EXACT, 4097);
    PowMonotone(Pow(EXACT, 4097), MAX_SECOND_MATCH, 256);
  }

  lemma FarPowerIsSmall()
    ensures Pow(EXACT, 4097) < MAX_SECOND_MATCH
  {
    var inv := 1.0 / EXACT;
    Bernoulli(inv - 1.0, 4097);
    PowInverse(EXACT, inv, 4097);
    PowMonotone(EXACT, EXACT, 4097);
    var p, q := Pow(EXACT, 4097), Pow(inv, 4097);
    assert q >= 1.4;
    assert p * (q - 1.4) >= 0.0;
  }

  lemma {:induction false} PowInverse(x: real, y: real, n: nat)
    requires x * y == 1.0
    ensures Pow(x, n) * Pow(y, n) == 1.0
  {
    if n == 0 {
    } else {
      PowInverse(x, y, n - 1);
      var a, b := Pow(x, n - 1), Pow(y, n - 1);
      assert (x * a) * (y * b) == (x * y) * (a * b);
    }
  }

  /** A pattern with a perfect runner-up is rejected in every round. */
  lemma RejectsPerfect(extend: nat)
    ensures !Accepts(1.0, extend)
  {
    PowOne(256 + extend * extend);
    PowShrinks(MAX_SECOND_MATCH, 0, 256);
  }

  lemma {:induction false} PowOne(n: nat)
    ensures Pow(1.0, n) == 1.0
  {
    if n == 0 {
    } else {
      PowOne(n - 1);
    }
  }

  /** A runner-up that falls short of 1 by 5 / (64 * (1 + extend)) is accepted from extend 1024 on. */
  lemma AcceptsShortfall(x: real, m: nat)
    requires 64 <= m && 0.0 <= x <= 1.0 - 5.0 / (64.0 * (1.0 + 16.0 * m as real))
    ensures Accepts(x, 16 * m)
  {
    hide Pow;
    var r := m as real;
    var d := 5.0 / (64.0 * (1.0 + 16.0 * r));
    var y := 1.0 + d;
    var z := 1.0 / y;
    var n := 1 + m * m;
    ShortfallFacts(r, d, z);
    Bernoulli(d, n);
    assert n as real == 1.0 + r * r;
    PowInverse(z, y, n);
    BelowThreshold(Pow(z, n), Pow(y, n));
    PowMonotone(z, z, n);
    PowMonotone(Pow(z, n), MAX_SECOND_MATCH, 256);
    PowMul(z, n, 256);
    assert n * 256 == 256 + (16 * m) * (16 * m);
    PowMonotone(x, z, n * 256);
  }

  lemma BelowThreshold(p: real, q: real)
    requires p * q == 1.0 && 1.25 < q
    ensures p < MAX_SECOND_MATCH
  {
    if MAX_SECOND_MATCH <= p {
      ProductMonotone(0.8, p, 1.25, q);
    }
  }

  lemma ShortfallFacts(r: real, d: real, z: real)
    requires 64.0 <= r && d == 5.0 / (64.0 * (1.0 + 16.0 * r)) && z == 1.0 / (1.0 + d)
    ensures 0.0 < d && 0.25 < (1.0 + r * r) * d
    ensures 0.0 < z && 1.0 - d <= z && z * (1.0 + d) == 1.0
  {
    var u := 64.0 * (1.0 + 16.0 * r);
    assert d * u == 5.0;
    assert 5.0 * (r * r) >= 320.0 * r;
    assert 0.25 * u < 5.0 * (1.0 + r * r);
    QuotientExceeds(1.0 + r * r, d, u);
    assert (1.0 - d) * (1.0 + d) == 1.0 - d * d;
    assert d * d >= 0.0;
    assert (1.0 - d - z) * (1.0 + d) == (1.0 - d) * (1.0 + d) - z * (1.0 + d);
    if z < 1.0 - d {
      ProductMonotone(0.0, 1.0 - d - z, 1.0 + d, 1.0 + d);
    }
  }

  lemma QuotientExceeds(a: real, d: real, u: real)
    requires 0.0 < u && d * u == 5.0 && 0.25 * u < 5.0 * a
    ensures 0.25 < a * d
  {
    assert (0.25 - a * d) * u == 0.25 * u - a * (d * u);
    if a * d <= 0.25 {
      ProductMonotone(0.0, 0.25 - a * d, u, u);
    }
  }

  /** Accepting keeps the runner-up below the applier's exactness threshold for exactly those
      extends of the widening sequence that are at most 512. */
  lemma SafeExtends(extend: nat)
    requires extend <= 512 || 1024 <= extend
    ensures (forall x :: 0.0 <= x <= 1.0 && Accepts(x, extend) ==> x < EXACT) <==> extend <= 512
  {
    if extend <= 512 {
      forall x | 0.0 <= x <= 1.0 && Accepts(x, extend) ensures x < EXACT {
        if EXACT <= x {
          RejectsExact(x, extend);
        }
      }
    } else {
      AcceptsExact(extend);
    }
  }
}
