/**
 * The period of the CRC's generator: x to the power n leaves the remainder 1 exactly when 32767 divides n. It decides
 * which double errors the check can miss.
 */
module CrcOrder {
  import opened Arithmetic
  import opened Bits
  import opened Crc16

  // ---- remainders by coefficient ----

  /** The remainder with its sixteen coefficients by name. */
  datatype Poly = Poly(
    c15: Bit, c14: Bit, c13: Bit, c12: Bit, c11: Bit, c10: Bit, c9: Bit, c8: Bit,
    c7: Bit, c6: Bit, c5: Bit, c4: Bit, c3: Bit, c2: Bit, c1: Bit, c0: Bit)

  function PolyOf(r: Remainder): Poly {
    Poly(r[0], r[1], r[2], r[3], r[4], r[5], r[6], r[7], r[8], r[9], r[10], r[11], r[12], r[13], r[14], r[15])
  }

  lemma PolyOfInjective(r: Remainder, s: Remainder)
    requires PolyOf(r) == PolyOf(s)
    ensures r == s
  {
    forall i | 0 <= i < 16
      ensures r[i] == s[i]
    {
      SameAt(r, s, PolyOf(r), i);
    }
  }

  lemma SameAt(r: Remainder, s: Remainder, p: Poly, i: nat)
    requires p == PolyOf(r) == PolyOf(s) && i < 16
    ensures r[i] == s[i]
  {
    assert i in {0, 1, 2, 3, 4, 5, 6, 7, 8, 9, 10, 11, 12, 13, 14, 15};
  }

  /** Equal coefficients make equal remainders. */
  lemma Same(a: Poly, b: Poly)
    requires a.c15 == b.c15 && a.c14 == b.c14 && a.c13 == b.c13 && a.c12 == b.c12
    requires a.c11 == b.c11 && a.c10 == b.c10 && a.c9 == b.c9 && a.c8 == b.c8
    requires a.c7 == b.c7 && a.c6 == b.c6 && a.c5 == b.c5 && a.c4 == b.c4
    requires a.c3 == b.c3 && a.c2 == b.c2 && a.c1 == b.c1 && a.c0 == b.c0
    ensures a == b
  {
  }

  /** Multiplication by x. */
  function Step(p: Poly): Poly {
    Poly(
      p.c14, p.c13, p.c12, p.c11 != p.c15, p.c10, p.c9, p.c8, p.c7, p.c6, p.c5, p.c4 != p.c15, p.c3, p.c2, p.c1,
      p.c0, p.c15)
  }

  /** The square, which over GF(2) is a linear map. */
  function Square(p: Poly): Poly {
    Poly(
      p.c13, (p.c7 != p.c9) != (p.c11 != p.c13), p.c12, (p.c6 != p.c8) != (p.c10 != p.c12),
      p.c11 != (p.c13 != p.c15), p.c5 != (p.c13 != p.c15), p.c10 != (p.c12 != p.c14),
      (p.c4 != p.c12) != (p.c14 != p.c15), (p.c9 != p.c11) != (p.c13 != p.c15),
      (p.c3 != p.c11) != (p.c13 != (p.c14 != p.c15)), (p.c8 != p.c10) != (p.c12 != p.c14),
      (p.c2 != p.c10) != (p.c12 != p.c14), p.c15, (p.c1 != p.c9) != (p.c11 != (p.c13 != p.c15)), p.c14,
      (p.c0 != p.c8) != (p.c10 != (p.c12 != p.c14)))
  }

  lemma StepInjective(p: Poly, q: Poly)
    requires Step(p) == Step(q)
    ensures p == q
  {
  }

  ghost predicate SquaredStep(p: Poly, a: Poly, b: Poly) {
    a == Square(Step(p)) && b == Step(Step(Square(p)))
  }

  lemma SquareOfStepA(p: Poly, a: Poly, b: Poly)
    requires SquaredStep(p, a, b)
    ensures a.c15 == b.c15 && a.c14 == b.c14 && a.c13 == b.c13 && a.c12 == b.c12
  {
  }

  lemma SquareOfStepB(p: Poly, a: Poly, b: Poly)
    requires SquaredStep(p, a, b)
    ensures a.c11 == b.c11 && a.c10 == b.c10 && a.c9 == b.c9 && a.c8 == b.c8
  {
  }

  lemma SquareOfStepC(p: Poly, a: Poly, b: Poly)
    requires SquaredStep(p, a, b)
    ensures a.c7 == b.c7 && a.c6 == b.c6 && a.c5 == b.c5 && a.c4 == b.c4
  {
  }

  lemma SquareOfStepD(p: Poly, a: Poly, b: Poly)
    requires SquaredStep(p, a, b)
    ensures a.c3 == b.c3 && a.c2 == b.c2 && a.c1 == b.c1 && a.c0 == b.c0
  {
  }

  lemma SquareOfStepAll(p: Poly, a: Poly, b: Poly)
    requires SquaredStep(p, a, b)
    ensures a == b
  {
    SquareOfStepA(p, a, b);
    SquareOfStepB(p, a, b);
    SquareOfStepC(p, a, b);
    SquareOfStepD(p, a, b);
    Same(a, b);
  }

  lemma SquareOfStep(p: Poly)
    ensures Square(Step(p)) == Step(Step(Square(p)))
  {
    SquareOfStepAll(p, Square(Step(p)), Step(Step(Square(p))));
  }

  lemma FeedIsStep(r: Remainder)
    ensures PolyOf(Feed(r, false)) == Step(PolyOf(r))
  {
  }

  // ---- powers of x ----

  /** `p` times x to the power `n`. */
  function Times(p: Poly, n: nat): Poly
    decreases p, n
  {
    if n == 0 then p else Step(Times(p, n - 1))
  }

  lemma {:induction false} TimesAdds(p: Poly, m: nat, n: nat)
    ensures Times(p, m + n) == Times(Times(p, m), n)
  {
    if n > 0 {
      TimesAdds(p, m, n - 1);
    }
  }

  lemma {:induction false} SquareOfTimes(p: Poly, n: nat)
    ensures Square(Times(p, n)) == Times(Square(p), 2 * n)
  {
    if n > 0 {
      SquareOfTimes(p, n - 1);
      SquareOfStep(Times(p, n - 1));
    }
  }

  /** `p` is x to the power `n`, when `one` is 1. */
  ghost predicate IsPower(one: Poly, n: nat, p: Poly) {
    Times(one, n) == p
  }

  lemma Double(one: Poly, n: nat, p: Poly, q: Poly)
    requires IsPower(one, n, p) && Square(one) == one && q == Square(p)
    ensures IsPower(one, 2 * n, q)
  {
    SquareOfTimes(one, n);
  }

  lemma DoubleAndStep(one: Poly, n: nat, p: Poly, q: Poly)
    requires IsPower(one, n, p) && Square(one) == one && q == Step(Square(p))
    ensures IsPower(one, 2 * n + 1, q)
  {
    Double(one, n, p, Square(p));
  }

  /** The eighth power. */
  function Square3(p: Poly): Poly {
    Square(Square(Square(p)))
  }

  lemma Eightfold(one: Poly, n: nat, p: Poly, q: Poly)
    requires IsPower(one, n, p) && Square(one) == one && q == Square3(p)
    ensures IsPower(one, 8 * n, q)
  {
    var p2 := Square(p);
    var p4 := Square(p2);
    Double(one, n, p, p2);
    Double(one, 2 * n, p2, p4);
    Double(one, 4 * n, p4, q);
  }

  lemma EightfoldAndStep(one: Poly, n: nat, p: Poly, q: Poly)
    requires IsPower(one, n, p) && Square(one) == one && q == Step(Square3(p))
    ensures IsPower(one, 8 * n + 1, q)
  {
    Eightfold(one, n, p, Square3(p));
  }

  function Power16(p: Poly): Poly {
    Square(Square3(Step(p)))
  }

  lemma Power16IsPower(one: Poly)
    requires Square(one) == one
    ensures IsPower(one, 16, Power16(one))
  {
    var p1 := Step(one);
    assert IsPower(one, 1, p1);
    var p8 := Square3(p1);
    Eightfold(one, 1, p1, p8);
    var p16 := Square(p8);
    Double(one, 8, p8, p16);
  }

  function Power217(p: Poly): Poly {
    Step(Square3(Step(Square(Step(Square(Square(Step(Square(Step(p))))))))))
  }

  lemma Power217IsPower(one: Poly)
    requires Square(one) == one
    ensures IsPower(one, 217, Power217(one))
  {
    var p1 := Step(one);
    assert IsPower(one, 1, p1);
    var p3 := Step(Square(p1));
    DoubleAndStep(one, 1, p1, p3);
    var p6 := Square(p3);
    Double(one, 3, p3, p6);
    var p13 := Step(Square(p6));
    DoubleAndStep(one, 6, p6, p13);
    var p27 := Step(Square(p13));
    DoubleAndStep(one, 13, p13, p27);
    var p217 := Step(Square3(p27));
    EightfoldAndStep(one, 27, p27, p217);
  }

  function Power1057(p: Poly): Poly {
    Step(Square(Square(Square3(Step(Square(Square(Square3(Step(p)))))))))
  }

  lemma Power1057IsPower(one: Poly)
    requires Square(one) == one
    ensures IsPower(one, 1057, Power1057(one))
  {
    var p1 := Step(one);
    assert IsPower(one, 1, p1);
    var p8 := Square3(p1);
    Eightfold(one, 1, p1, p8);
    var p16 := Square(p8);
    Double(one, 8, p8, p16);
    var p33 := Step(Square(p16));
    DoubleAndStep(one, 16, p16, p33);
    var p264 := Square3(p33);
    Eightfold(one, 33, p33, p264);
    var p528 := Square(p264);
    Double(one, 264, p264, p528);
    var p1057 := Step(Square(p528));
    DoubleAndStep(one, 528, p528, p1057);
  }

  function Power4681(p: Poly): Poly {
    Step(Square3(Step(Square3(Step(Square3(Step(Square3(Step(p)))))))))
  }

  lemma Power4681IsPower(one: Poly)
    requires Square(one) == one
    ensures IsPower(one, 4681, Power4681(one))
  {
    var p1 := Step(one);
    assert IsPower(one, 1, p1);
    var p9 := Step(Square3(p1));
    EightfoldAndStep(one, 1, p1, p9);
    var p73 := Step(Square3(p9));
    EightfoldAndStep(one, 9, p9, p73);
    var p585 := Step(Square3(p73));
    EightfoldAndStep(one, 73, p73, p585);
    var p4681 := Step(Square3(p585));
    EightfoldAndStep(one, 585, p585, p4681);
  }

  function Power32768(p: Poly): Poly {
    Square3(Square3(Square3(Square3(Square3(Step(p))))))
  }

  lemma Power32768IsPower(one: Poly)
    requires Square(one) == one
    ensures IsPower(one, 32768, Power32768(one))
  {
    var p1 := Step(one);
    assert IsPower(one, 1, p1);
    var p8 := Square3(p1);
    Eightfold(one, 1, p1, p8);
    var p64 := Square3(p8);
    Eightfold(one, 8, p8, p64);
    var p512 := Square3(p64);
    Eightfold(one, 64, p64, p512);
    var p4096 := Square3(p512);
    Eightfold(one, 512, p512, p4096);
    var p32768 := Square3(p4096);
    Eightfold(one, 4096, p4096, p32768);
  }

  const ONE: Poly :=
    Poly(false, false, false, false, false, false, false, false, false, false, false, false, false, false, false, true)

  ghost predicate IsOne(p: Poly) {
    && !p.c15 && !p.c14 && !p.c13 && !p.c12 && !p.c11 && !p.c10 && !p.c9 && !p.c8
    && !p.c7 && !p.c6 && !p.c5 && !p.c4 && !p.c3 && !p.c2 && !p.c1 && p.c0
  }

  lemma GetOne() returns (one: Poly)
    ensures IsOne(one)
  {
    one := ONE;
  }

  lemma SquareOfOne(one: Poly)
    requires IsOne(one)
    ensures Square(one) == one
  {
    Same(Square(one), one);
  }

  // The polynomial without its leading term, which is what x to the power 16 leaves.
  const GENERATOR: Poly :=
    Poly(false, false, false, true, false, false, false, false, false, false, true, false, false, false, false, true)

  lemma GeneratorIsPolynomial()
    ensures PolyOf(POLYNOMIAL) == GENERATOR
  {
  }

  lemma Value16()
    ensures Power16(ONE) == GENERATOR
  {
  }

  lemma Value217()
    ensures Power217(ONE) != ONE
  {
  }

  lemma Value1057()
    ensures Power1057(ONE) != ONE
  {
  }

  lemma Value4681()
    ensures Power4681(ONE) != ONE
  {
  }

  lemma Value32768()
    ensures Power32768(ONE) == Step(ONE)
  {
  }

  // ---- the period of x ----

  ghost predicate Period(one: Poly, n: nat) {
    IsPower(one, n, one)
  }

  lemma {:induction false} TimesInjective(p: Poly, q: Poly, n: nat)
    requires Times(p, n) == Times(q, n)
    ensures p == q
    decreases n
  {
    if n > 0 {
      StepInjective(Times(p, n - 1), Times(q, n - 1));
      TimesInjective(p, q, n - 1);
    }
  }

  lemma PeriodSum(one: Poly, a: nat, b: nat)
    requires Period(one, a)
    ensures Period(one, a + b) <==> Period(one, b)
  {
    TimesAdds(one, a, b);
  }

  lemma {:induction false} PeriodMultiple(one: Poly, a: nat, k: nat, n: nat)
    requires Period(one, a) && n == a * k
    ensures Period(one, n)
    decreases k
  {
    if k > 0 {
      assert n - a == a * (k - 1);
      PeriodMultiple(one, a, k - 1, n - a);
      PeriodSum(one, a, n - a);
    }
  }

  lemma FullPeriod(one: Poly, n: nat, p: Poly)
    requires IsPower(one, n + 1, p) && p == Step(one)
    ensures Period(one, n)
  {
    StepInjective(Times(one, n), one);
  }

  lemma SixteenthPower(one: Poly)
    requires IsOne(one)
    ensures IsPower(one, 16, GENERATOR)
  {
    Same(one, ONE);
    SquareOfOne(one);
    Value16();
    Power16IsPower(one);
  }

  lemma NoPeriod217(one: Poly)
    requires IsOne(one)
    ensures !Period(one, 217)
  {
    Same(one, ONE);
    SquareOfOne(one);
    Value217();
    Power217IsPower(one);
  }

  lemma NoPeriod1057(one: Poly)
    requires IsOne(one)
    ensures !Period(one, 1057)
  {
    Same(one, ONE);
    SquareOfOne(one);
    Value1057();
    Power1057IsPower(one);
  }

  lemma NoPeriod4681(one: Poly)
    requires IsOne(one)
    ensures !Period(one, 4681)
  {
    Same(one, ONE);
    SquareOfOne(one);
    Value4681();
    Power4681IsPower(one);
  }

  /** Fifteen squarings of x lead back to x. */
  lemma Period32767(one: Poly)
    requires IsOne(one)
    ensures Period(one, 32767)
  {
    Same(one, ONE);
    SquareOfOne(one);
    Value32768();
    Power32768IsPower(one);
    FullPeriod(one, 32767, Power32768(one));
  }

  // ---- divisors of 32767 ----

  lemma SumDivides(g: nat, x: nat, y: nat)
    requires g > 0 && x % g == 0 && y % g == 0
    ensures (x + y) % g == 0
  {
    assert x == g * (x / g) && y == g * (y / g);
    assert x + y == (x / g + y / g) * g;
    QuotientAndRest(g, x / g + y / g, 0, x + y);
  }

  lemma DifferenceDivides(g: nat, x: nat, y: nat)
    requires g > 0 && x % g == 0 && y % g == 0 && x <= y
    ensures (y - x) % g == 0
  {
    var q := y / g - x / g;
    assert x == g * (x / g) && y == g * (y / g);
    assert y - x == q * g;
    AtLeast(g, q);
    QuotientAndRest(g, q, 0, y - x);
  }

  ghost predicate ClosedUnderDifference(S: nat -> bool) {
    forall x: nat, y: nat | S(x) && S(y) && x <= y :: S(y - x)
  }

  /** Euclid's algorithm stays within a set that is closed under differences. */
  lemma {:induction false} CommonMeasure(S: nat -> bool, a: nat, b: nat) returns (g: nat)
    requires ClosedUnderDifference(S) && a > 0 && S(a) && S(b)
    ensures g > 0 && a % g == 0 && b % g == 0 && S(g)
    decreases a + b, a
  {
    if b == 0 {
      g := a;
    } else if a <= b {
      g := CommonMeasure(S, a, b - a);
      SumDivides(g, a, b - a);
    } else {
      g := CommonMeasure(S, b, a);
    }
  }

  ghost predicate Prime(p: nat) {
    p >= 2 && forall d | 1 <= d <= p && p % d == 0 :: d == 1 || d == p
  }

  lemma SmallFactor(p: nat, d: nat, e: nat)
    requires p in {7, 31, 151} && d * e == p && 2 <= d <= 12
    ensures p == 7 && d == 7
  {
    assert d in {2, 3, 4, 5, 6, 7, 8, 9, 10, 11, 12};
  }

  lemma ProductOfLarge(d: nat, e: nat)
    ensures d >= 13 && e >= 13 ==> d * e >= 169
  {
    if d >= 13 && e >= 13 {
      assert (d - 13) * (e - 13) >= 0;
    }
  }

  lemma ThreePrimes(p: nat)
    requires p in {7, 31, 151}
    ensures Prime(p)
  {
    forall d | 1 <= d <= p && p % d == 0
      ensures d == 1 || d == p
    {
      var e := p / d;
      assert p == d * e;
      ProductOfLarge(d, e);
      if 2 <= d <= 12 {
        SmallFactor(p, d, e);
      } else if 2 <= e <= 12 {
        SmallFactor(p, e, d);
      }
    }
  }

  /** A prime that divides a product divides one of its factors. */
  lemma PrimeFactor(p: nat, a: nat, b: nat)
    requires Prime(p) && (a * b) % p == 0
    ensures a % p == 0 || b % p == 0
  {
    var S := (n: nat) => (n * b) % p == 0;
    forall x: nat, y: nat | S(x) && S(y) && x <= y
      ensures S(y - x)
    {
      DifferenceDivides(p, x * b, y * b);
      assert (y - x) * b == y * b - x * b;
    }
    QuotientAndRest(p, b, 0, p * b);
    var g := CommonMeasure(S, p, a);
    assert g <= p by {
      assert p == g * (p / g);
      AtLeast(g, p / g);
    }
  }

  lemma Factor(p: nat, g: nat) returns (q: nat)
    requires p > 0 && g % p == 0
    ensures g == p * q
  {
    q := g / p;
  }

  lemma SevenCancels(x: nat, y: nat)
    ensures 7 * x * y == 32767 || x * (7 * y) == 32767 ==> x * y == 4681
  {
    assert 7 * x * y == 7 * (x * y) == x * (7 * y);
  }

  lemma ThirtyOneCancels(x: nat, y: nat)
    ensures 31 * x * y == 4681 || x * (31 * y) == 4681 ==> x * y == 151
  {
    assert 31 * x * y == 31 * (x * y) == x * (31 * y);
  }

  /** Every proper divisor of 32767, which is 7 times 31 times 151, divides one of the three largest. */
  lemma ProperDivisor(g: nat, h: nat)
    requires g > 0 && h > 1 && g * h == 32767
    ensures 217 % g == 0 || 1057 % g == 0 || 4681 % g == 0
  {
    ThreePrimes(7);
    ThreePrimes(31);
    ThreePrimes(151);
    PrimeFactor(7, g, h);
    if h % 7 == 0 {
      var q := Factor(7, h);
      SevenCancels(g, q);
      QuotientAndRest(g, q, 0, 4681);
    } else {
      var u := Factor(7, g);
      SevenCancels(u, h);
      PrimeFactor(31, u, h);
      if h % 31 == 0 {
        var q := Factor(31, h);
        ThirtyOneCancels(u, q);
        assert 1057 == q * g;
        QuotientAndRest(g, q, 0, 1057);
      } else {
        var v := Factor(31, u);
        ThirtyOneCancels(v, h);
        QuotientAndRest(h, v, 0, 151);
      }
    }
  }

  ghost predicate ClosedUnderMultiples(S: nat -> bool) {
    forall g: nat, n: nat | g > 0 && S(g) && n % g == 0 :: S(n)
  }

  /** A set of numbers that holds 32767 and none of its largest proper divisors holds only its multiples. */
  lemma OnlyMultiples(S: nat -> bool, d: nat)
    requires ClosedUnderDifference(S) && ClosedUnderMultiples(S)
    requires S(32767) && !S(217) && !S(1057) && !S(4681) && S(d) && d > 0
    ensures d % 32767 == 0
  {
    var g := CommonMeasure(S, d, 32767);
    var h := 32767 / g;
    assert 32767 == g * h;
    if h > 1 {
      ProperDivisor(g, h);
    }
  }

  lemma PeriodsAreClosed(one: Poly, S: nat -> bool)
    requires forall n: nat :: S(n) == Period(one, n)
    ensures ClosedUnderDifference(S) && ClosedUnderMultiples(S)
  {
    forall x: nat, y: nat | S(x) && S(y) && x <= y
      ensures S(y - x)
    {
      PeriodSum(one, x, y - x);
    }
    forall g: nat, n: nat | g > 0 && S(g) && n % g == 0
      ensures S(n)
    {
      PeriodMultiple(one, g, n / g, n);
    }
  }

  lemma PeriodIsMultiple(one: Poly, d: nat)
    requires IsOne(one) && d > 0 && Period(one, d)
    ensures d % 32767 == 0
  {
    var S := (n: nat) => Period(one, n);
    PeriodsAreClosed(one, S);
    Period32767(one);
    NoPeriod217(one);
    NoPeriod1057(one);
    NoPeriod4681(one);
    OnlyMultiples(S, d);
  }

  /** x to the power `d` leaves 1 exactly when 32767 divides `d`. */
  lemma PeriodIff(one: Poly, d: nat)
    requires IsOne(one) && d > 0
    ensures Period(one, d) <==> d % 32767 == 0
  {
    if d % 32767 == 0 {
      Period32767(one);
      PeriodMultiple(one, 32767, d / 32767, d);
    } else if Period(one, d) {
      PeriodIsMultiple(one, d);
    }
  }

  // ---- double errors ----

  /** The pattern of length `n` with ones in two places. */
  function TwoOnes(n: nat, i: nat, j: nat): (e: seq<Bit>)
    ensures |e| == n
  {
    seq(n, t => t == i || t == j)
  }

  lemma {:induction false} ZerosAreSteps(r: Remainder, n: nat)
    ensures PolyOf(FeedAll(r, Zeros(n))) == Times(PolyOf(r), n)
  {
    if n > 0 {
      assert Zeros(n)[..n - 1] == Zeros(n - 1);
      ZerosAreSteps(r, n - 1);
      FeedIsStep(FeedAll(r, Zeros(n - 1)));
    }
  }

  lemma ZerosReturnIff(r: Remainder, p: Poly, d: nat)
    requires p == PolyOf(r)
    ensures FeedAll(r, Zeros(d)) == r <==> Times(p, d) == p
  {
    ZerosAreSteps(r, d);
    if Times(p, d) == p {
      PolyOfInjective(FeedAll(r, Zeros(d)), r);
    }
  }

  lemma PowerReturnsIff(one: Poly, k: nat, p: Poly, d: nat)
    requires IsPower(one, k, p)
    ensures Times(p, d) == p <==> Period(one, d)
  {
    TimesAdds(one, k, d);
    TimesAdds(one, d, k);
    if Times(p, d) == p {
      TimesInjective(Times(one, d), one, k);
    }
  }

  /** Multiplied by x to the power `d`, the polynomial is unchanged exactly when 32767 divides `d`. */
  lemma PolynomialReturnsIff(poly: Remainder, d: nat)
    requires poly == POLYNOMIAL && d > 0
    ensures FeedAll(poly, Zeros(d)) == poly <==> d % 32767 == 0
  {
    var one := GetOne();
    SixteenthPower(one);
    PeriodIff(one, d);
    GeneratorIsPolynomial();
    ZerosReturnIff(poly, GENERATOR, d);
    PowerReturnsIff(one, 16, GENERATOR, d);
  }

  lemma FirstOneFed()
    ensures Feed(ZERO, true) == POLYNOMIAL
  {
    assert Shift(ZERO) == ZERO && Xor(ZERO, POLYNOMIAL) == POLYNOMIAL;
  }

  lemma SecondOneFed(r: Remainder)
    ensures Feed(r, true) == ZERO <==> Feed(r, false) == POLYNOMIAL
  {
    FirstOneFed();
    FeedLinear(r, ZERO, false, true);
    assert Xor(r, ZERO) == r;
    XorIsZero(Feed(r, false), POLYNOMIAL);
  }

  lemma OneThenZeros(d: nat)
    requires d > 0
    ensures FeedAll(ZERO, [true] + Zeros(d - 1) + [true]) == ZERO <==> FeedAll(POLYNOMIAL, Zeros(d)) == POLYNOMIAL
  {
    var u := [true] + Zeros(d - 1);
    assert (u + [true])[..d] == u && [true][..0] == [] && Zeros(d)[..d - 1] == Zeros(d - 1);
    FeedSplit(ZERO, [true], Zeros(d - 1));
    FirstOneFed();
    SecondOneFed(FeedAll(ZERO, u));
  }

  lemma TwoOnesParts(n: nat, i: nat, j: nat)
    requires i < j < n
    ensures TwoOnes(n, i, j) == Zeros(i) + ([true] + Zeros(j - i - 1) + [true]) + Zeros(n - j - 1)
  {
  }

  lemma BetweenZeros(i: nat, middle: seq<Bit>, k: nat)
    ensures FeedAll(ZERO, Zeros(i) + middle + Zeros(k)) == ZERO <==> FeedAll(ZERO, middle) == ZERO
  {
    FeedSplit(ZERO, Zeros(i) + middle, Zeros(k));
    FeedSplit(ZERO, Zeros(i), middle);
    ZerosKeepNonZero(ZERO, i);
    ZerosKeepNonZero(FeedAll(ZERO, middle), k);
  }

  /** The division misses two errors exactly when 32767 divides their distance. */
  lemma TwoErrorsMissedIff(n: nat, i: nat, j: nat)
    requires i < j < n
    ensures FeedAll(ZERO, TwoOnes(n, i, j)) == ZERO <==> (j - i) % 32767 == 0
  {
    var d := j - i;
    TwoOnesParts(n, i, j);
    BetweenZeros(i, [true] + Zeros(d - 1) + [true], n - j - 1);
    OneThenZeros(d);
    PolynomialReturnsIff(POLYNOMIAL, d);
  }

  lemma {:induction false} LastOne(e: seq<Bit>) returns (j: nat)
    requires Weight(e) > 0
    ensures j < |e| && e == e[..j] + [true] + Zeros(|e| - j - 1) && Weight(e[..j]) == Weight(e) - 1
  {
    var n := |e| - 1;
    if e[n] {
      j := n;
    } else {
      j := LastOne(e[..n]);
      assert e[..n][..j] == e[..j] && e == e[..n] + [false];
    }
  }

  lemma WeightTwo(e: seq<Bit>) returns (i: nat, j: nat)
    requires Weight(e) == 2
    ensures i < j < |e| && e == TwoOnes(|e|, i, j)
  {
    j := LastOne(e);
    i := LastOne(e[..j]);
    assert e[..j][..i] == e[..i];
    WeightZeroMeansZeros(e[..i]);
  }

  lemma TwoOnesWeight(n: nat, i: nat, j: nat)
    requires i < j < n
    ensures Weight(TwoOnes(n, i, j)) == 2
  {
    var z := Zeros(j - i - 1);
    TwoOnesParts(n, i, j);
    WeightConcat(Zeros(i) + ([true] + z + [true]), Zeros(n - j - 1));
    WeightConcat(Zeros(i), [true] + z + [true]);
    WeightConcat([true] + z, [true]);
    WeightConcat([true], z);
    WeightZeroMeansZeros(Zeros(i));
    WeightZeroMeansZeros(z);
    WeightZeroMeansZeros(Zeros(n - j - 1));
    assert [true][..0] == [];
  }

  lemma NearErrorsAreDetected(e: seq<Bit>, n: nat, i: nat, j: nat)
    requires i < j < n <= 32767 && e == TwoOnes(n, i, j)
    ensures FeedAll(ZERO, e) != ZERO
  {
    TwoErrorsMissedIff(n, i, j);
  }

  lemma TwoErrorsAreDetected(e: seq<Bit>)
    requires |e| <= 32767 && Weight(e) == 2
    ensures FeedAll(ZERO, e) != ZERO
  {
    var i, j := WeightTwo(e);
    NearErrorsAreDetected(e, |e|, i, j);
  }

  lemma UpToThreeErrorsAreDetected(e: seq<Bit>, w: nat)
    requires |e| <= 32767 && w == Weight(e) && 1 <= w <= 3
    ensures FeedAll(ZERO, e) != ZERO
  {
    if w == 2 {
      TwoErrorsAreDetected(e);
    } else {
      OddErrorsAreDetected(e);
    }
  }
}
