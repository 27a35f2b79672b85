/** The discrete Fourier transform over a commutative ring, as evaluation of a polynomial at powers of a root. */
module Dft {
  import opened Rings
  import opened BinaryNumbers

  /** x[0] + x[1] z + x[2] z^2 + ..., by Horner's rule. */
  function Eval<T>(R: Ring<T>, x: seq<T>, z: T): T {
    if x == [] then R.zero else R.add(x[0], R.mul(z, Eval(R, x[1..], z)))
  }

  /** The transform: bin k is the sum over j of x[j] w^(jk). */
  function Transform<T>(R: Ring<T>, w: T, x: seq<T>): (y: seq<T>)
    ensures |y| == |x|
  {
    seq(|x|, k requires 0 <= k < |x| => Eval(R, x, Pow(R, w, k)))
  }

  /** The textbook sum x[0] z^0 + ... + x[n-1] z^(n-1). */
  function PowerSum<T>(R: Ring<T>, x: seq<T>, z: T): T {
    if x == [] then R.zero
    else var n := |x| - 1; R.add(PowerSum(R, x[..n], z), R.mul(x[n], Pow(R, z, n)))
  }

  lemma {:induction false} EvalSnoc<T(!new)>(R: Ring<T>, x: seq<T>, c: T, z: T)
    requires IsCommutativeRing(R)
    ensures Eval(R, x + [c], z) == R.add(Eval(R, x, z), R.mul(c, Pow(R, z, |x|)))
  {
    if x == [] {
      assert ([] + [c])[1..] == [];
      MulZero(R, z);
      MulOne(R, c);
      AddComm(R, c, R.zero);
    } else {
      assert (x + [c])[1..] == x[1..] + [c];
      EvalSnoc(R, x[1..], c, z);
      var rest, p := Eval(R, x[1..], z), Pow(R, z, |x| - 1);
      Distribute(R, z, rest, R.mul(c, p));
      MulComm(R, z, R.mul(c, p));
      MulAssoc(R, c, p, z);
      AddAssoc(R, x[0], R.mul(z, rest), R.mul(c, R.mul(p, z)));
    }
  }

  /** Horner's rule computes the textbook sum. */
  lemma {:induction false} EvalIsPowerSum<T(!new)>(R: Ring<T>, x: seq<T>, z: T)
    requires IsCommutativeRing(R)
    ensures Eval(R, x, z) == PowerSum(R, x, z)
  {
    if x != [] {
      var n := |x| - 1;
      EvalIsPowerSum(R, x[..n], z);
      EvalSnoc(R, x[..n], x[n], z);
      assert x == x[..n] + [x[n]];
    }
  }

  lemma {:induction false} EvalConcat<T(!new)>(R: Ring<T>, x: seq<T>, y: seq<T>, z: T)
    requires IsCommutativeRing(R)
    ensures Eval(R, x + y, z) == R.add(Eval(R, x, z), R.mul(Pow(R, z, |x|), Eval(R, y, z)))
  {
    if x == [] {
      assert x + y == y;
      MulOne(R, Eval(R, y, z));
      AddZero(R, Eval(R, y, z));
    } else {
      assert (x + y)[1..] == x[1..] + y;
      EvalConcat(R, x[1..], y, z);
      var rest, p, e := Eval(R, x[1..], z), Pow(R, z, |x| - 1), Eval(R, y, z);
      Distribute(R, z, rest, R.mul(p, e));
      MulAssoc(R, z, p, e);
      MulComm(R, z, p);
      AddAssoc(R, x[0], R.mul(z, rest), R.mul(R.mul(p, z), e));
    }
  }

  // ---- even and odd halves ----

  function Evens<T>(x: seq<T>): (y: seq<T>)
    ensures |y| == (|x| + 1) / 2
  {
    if x == [] then [] else if |x| == 1 then x else [x[0]] + Evens(x[2..])
  }

  function Odds<T>(x: seq<T>): (y: seq<T>)
    ensures |y| == |x| / 2
  {
    if |x| < 2 then [] else [x[1]] + Odds(x[2..])
  }

  function Interleave<T>(e: seq<T>, o: seq<T>): (x: seq<T>)
    requires |e| == |o|
    ensures |x| == 2 * |e|
  {
    if e == [] then [] else [e[0], o[0]] + Interleave(e[1..], o[1..])
  }

  lemma {:induction false} InterleaveHalves<T>(e: seq<T>, o: seq<T>)
    requires |e| == |o|
    ensures Evens(Interleave(e, o)) == e && Odds(Interleave(e, o)) == o
  {
    if e != [] {
      InterleaveHalves(e[1..], o[1..]);
      assert Interleave(e, o)[2..] == Interleave(e[1..], o[1..]);
    }
  }

  lemma {:induction false} InterleaveAt<T>(e: seq<T>, o: seq<T>, i: nat)
    requires |e| == |o| && i < |e|
    ensures Interleave(e, o)[2 * i] == e[i] && Interleave(e, o)[2 * i + 1] == o[i]
  {
    if i > 0 {
      InterleaveAt(e[1..], o[1..], i - 1);
    }
  }

  /** One step of the even-odd split, on the first two coefficients. */
  lemma SplitAlgebra<T(!new)>(R: Ring<T>, a: T, b: T, e: T, o: T, z: T)
    requires IsCommutativeRing(R)
    ensures R.add(a, R.mul(z, R.add(b, R.mul(z, R.add(e, R.mul(z, o))))))
         == R.add(R.add(a, R.mul(R.mul(z, z), e)), R.mul(z, R.add(b, R.mul(R.mul(z, z), o))))
  {
    var q, zo := R.mul(z, z), R.mul(z, o);
    var inner := R.add(e, zo);
    // z (b + z inner) == z b + q inner == z b + (q e + q zo)
    Distribute(R, z, b, R.mul(z, inner));
    MulAssoc(R, z, z, inner);
    Distribute(R, q, e, zo);
    // z (b + q o) == z b + z (q o), and z (q o) == q zo
    Distribute(R, z, b, R.mul(q, o));
    MulAssoc(R, q, z, o);
    MulAssoc(R, z, q, o);
    MulComm(R, z, q);
    // a + (z b + (q e + q zo)) == (a + q e) + (z b + q zo)
    var zb, qe, qzo := R.mul(z, b), R.mul(q, e), R.mul(q, zo);
    AddAssoc(R, zb, qe, qzo);
    AddComm(R, zb, qe);
    AddAssoc(R, qe, zb, qzo);
    AddAssoc(R, a, qe, R.add(zb, qzo));
  }

  /** Decimation in time: x(z) == even(z^2) + z odd(z^2). */
  lemma {:induction false} EvalSplit<T(!new)>(R: Ring<T>, x: seq<T>, z: T)
    requires IsCommutativeRing(R) && |x| % 2 == 0
    ensures var q := R.mul(z, z);
            Eval(R, x, z) == R.add(Eval(R, Evens(x), q), R.mul(z, Eval(R, Odds(x), q)))
  {
    var q := R.mul(z, z);
    if x == [] {
      MulZero(R, z);
      AddZero(R, R.zero);
    } else {
      EvalSplit(R, x[2..], z);
      assert x[1..][1..] == x[2..];
      assert Evens(x)[1..] == Evens(x[2..]) && Odds(x)[1..] == Odds(x[2..]);
      SplitAlgebra(R, x[0], x[1], Eval(R, Evens(x[2..]), q), Eval(R, Odds(x[2..]), q), z);
    }
  }

  // ---- roots ----

  /** `w` is a root of unity of order 2h, and principal: its h-th power is -1. */
  ghost predicate HalfTurn<T>(R: Ring<T>, w: T, h: nat) {
    Pow(R, w, h) == R.neg(R.one)
  }

  lemma PowSquare<T(!new)>(R: Ring<T>, w: T, k: nat)
    requires IsCommutativeRing(R)
    ensures R.mul(Pow(R, w, k), Pow(R, w, k)) == Pow(R, R.mul(w, w), k)
  {
    PowMulBase(R, w, w, k);
  }

  lemma PowPastHalf<T(!new)>(R: Ring<T>, w: T, h: nat, k: nat, j: nat)
    requires IsCommutativeRing(R) && HalfTurn(R, w, h) && j == h + k
    ensures Pow(R, w, j) == R.neg(Pow(R, w, k))
  {
    PowAdd(R, w, h, k);
    MulNeg(R, Pow(R, w, k), R.one);
    MulOne(R, Pow(R, w, k));
  }

  /** A polynomial at z and at -z, from its even and odd parts at z^2. */
  lemma EvalBothSigns<T(!new)>(R: Ring<T>, x: seq<T>, z: T)
    requires IsCommutativeRing(R) && |x| % 2 == 0
    ensures var e, o := Eval(R, Evens(x), R.mul(z, z)), Eval(R, Odds(x), R.mul(z, z));
            Eval(R, x, z) == R.add(e, R.mul(o, z)) && Eval(R, x, R.neg(z)) == Sub(R, e, R.mul(o, z))
  {
    var o := Eval(R, Odds(x), R.mul(z, z));
    EvalSplit(R, x, z);
    MulComm(R, z, o);
    EvalSplit(R, x, R.neg(z));
    NegSquare(R, z);
    MulNeg(R, o, z);
  }

  lemma TransformAt<T>(R: Ring<T>, w: T, x: seq<T>, k: nat, z: T)
    requires k < |x| && z == Pow(R, w, k)
    ensures Transform(R, w, x)[k] == Eval(R, x, z)
  {
  }

  lemma EvenHalf<T>(x: seq<T>, h: nat)
    requires |x| == 2 * h
    ensures |x| % 2 == 0 && |Evens(x)| == |Odds(x)| == h
  {
  }

  /** The butterfly: bins k and h + k of a transform from bin k of the transforms of the even and odd parts. */
  lemma Butterfly<T(!new)>(R: Ring<T>, w: T, q: T, x: seq<T>, e: seq<T>, o: seq<T>, h: nat, k: nat, j: nat)
    requires IsCommutativeRing(R) && |x| == 2 * h && HalfTurn(R, w, h) && k < h && j == h + k && q == R.mul(w, w)
    requires e == Transform(R, q, Evens(x)) && o == Transform(R, q, Odds(x))
    ensures |e| == |o| == h
    ensures Transform(R, w, x)[k] == R.add(e[k], R.mul(o[k], Pow(R, w, k)))
    ensures Transform(R, w, x)[j] == Sub(R, e[k], R.mul(o[k], Pow(R, w, k)))
  {
    var z := Pow(R, w, k);
    EvenHalf(x, h);
    PowSquare(R, w, k);
    TransformAt(R, q, Evens(x), k, R.mul(z, z));
    TransformAt(R, q, Odds(x), k, R.mul(z, z));
    EvalBothSigns(R, x, z);
    TransformAt(R, w, x, k, z);
    PowPastHalf(R, w, h, k, j);
    TransformAt(R, w, x, j, R.neg(z));
  }

  // ---- the inverse ----

  function AddSeq<T>(R: Ring<T>, x: seq<T>, y: seq<T>): (s: seq<T>)
    requires |x| == |y|
    ensures |s| == |x|
  {
    seq(|x|, k requires 0 <= k < |x| => R.add(x[k], y[k]))
  }

  function ScaleSeq<T>(R: Ring<T>, c: T, x: seq<T>): (s: seq<T>)
    ensures |s| == |x|
  {
    seq(|x|, k requires 0 <= k < |x| => R.mul(c, x[k]))
  }

  /** x[k] becomes c^k x[k]. */
  function Ramp<T>(R: Ring<T>, c: T, x: seq<T>): (s: seq<T>)
    ensures |s| == |x|
  {
    seq(|x|, k requires 0 <= k < |x| => R.mul(Pow(R, c, k), x[k]))
  }

  lemma {:induction false} EvalAddSeq<T(!new)>(R: Ring<T>, x: seq<T>, y: seq<T>, z: T)
    requires IsCommutativeRing(R) && |x| == |y|
    ensures Eval(R, AddSeq(R, x, y), z) == R.add(Eval(R, x, z), Eval(R, y, z))
  {
    if x == [] {
      AddZero(R, R.zero);
    } else {
      assert AddSeq(R, x, y)[1..] == AddSeq(R, x[1..], y[1..]);
      EvalAddSeq(R, x[1..], y[1..], z);
      var a, b := Eval(R, x[1..], z), Eval(R, y[1..], z);
      Distribute(R, z, a, b);
      AddSwap(R, x[0], y[0], R.mul(z, a), R.mul(z, b));
    }
  }

  lemma {:induction false} EvalScaleSeq<T(!new)>(R: Ring<T>, c: T, x: seq<T>, z: T)
    requires IsCommutativeRing(R)
    ensures Eval(R, ScaleSeq(R, c, x), z) == R.mul(c, Eval(R, x, z))
  {
    if x == [] {
      MulZero(R, c);
    } else {
      assert ScaleSeq(R, c, x)[1..] == ScaleSeq(R, c, x[1..]);
      EvalScaleSeq(R, c, x[1..], z);
      var a := Eval(R, x[1..], z);
      Distribute(R, c, x[0], R.mul(z, a));
      MulAssoc(R, z, c, a);
      MulComm(R, z, c);
      MulAssoc(R, c, z, a);
    }
  }

  lemma {:induction false} EvalRamp<T(!new)>(R: Ring<T>, c: T, x: seq<T>, z: T)
    requires IsCommutativeRing(R)
    ensures Eval(R, Ramp(R, c, x), z) == Eval(R, x, R.mul(c, z))
  {
    if x != [] {
      var tail := x[1..];
      assert Ramp(R, c, x)[1..] == ScaleSeq(R, c, Ramp(R, c, tail)) by {
        forall k | 0 <= k < |tail|
          ensures Ramp(R, c, x)[k + 1] == R.mul(c, Ramp(R, c, tail)[k])
        {
          assert Pow(R, c, k + 1) == R.mul(Pow(R, c, k), c);
          MulComm(R, Pow(R, c, k), c);
          MulAssoc(R, c, Pow(R, c, k), tail[k]);
        }
      }
      EvalScaleSeq(R, c, Ramp(R, c, tail), z);
      EvalRamp(R, c, tail, z);
      var a := Eval(R, tail, R.mul(c, z));
      assert Ramp(R, c, x)[0] == x[0] by {
        assert Pow(R, c, 0) == R.one;
        MulOne(R, x[0]);
      }
      MulAssoc(R, z, c, a);
      MulComm(R, z, c);
    }
  }

  /** Folding the upper half of a polynomial onto the lower one. */
  lemma FoldHalves<T(!new)>(R: Ring<T>, lo: seq<T>, hi: seq<T>, z: T, c: T)
    requires IsCommutativeRing(R) && |lo| == |hi| && c == Pow(R, z, |lo|)
    ensures Eval(R, lo + hi, z) == Eval(R, AddSeq(R, lo, ScaleSeq(R, c, hi)), z)
  {
    EvalConcat(R, lo, hi, z);
    EvalScaleSeq(R, c, hi, z);
    EvalAddSeq(R, lo, ScaleSeq(R, c, hi), z);
  }

  lemma {:induction false} EvensOddsAt<T>(x: seq<T>, i: nat)
    requires |x| % 2 == 0 && 2 * i < |x|
    ensures Evens(x)[i] == x[2 * i] && Odds(x)[i] == x[2 * i + 1]
  {
    if i > 0 {
      var tail := x[2..];
      EvensOddsAt(tail, i - 1);
      assert Evens(x)[i] == Evens(tail)[i - 1] && Odds(x)[i] == Odds(tail)[i - 1];
      assert tail[2 * (i - 1)] == x[2 * i];
    }
  }

  /** Mutually inverse roots for transforms of length 2^m. */
  ghost predicate RootPair<T>(R: Ring<T>, w: T, v: T, m: nat) {
    && R.mul(w, v) == R.one
    && (m > 0 ==> HalfTurn(R, w, Pow2(m - 1)) && HalfTurn(R, v, Pow2(m - 1)))
  }

  lemma HalfTurnSquare<T(!new)>(R: Ring<T>, w: T, h: nat)
    requires IsCommutativeRing(R) && HalfTurn(R, w, 2 * h)
    ensures HalfTurn(R, R.mul(w, w), h)
  {
    PowAdd(R, w, h, h);
    PowSquare(R, w, h);
  }

  lemma RootPairSquares<T(!new)>(R: Ring<T>, w: T, v: T, m: nat)
    requires IsCommutativeRing(R) && m > 0 && RootPair(R, w, v, m)
    ensures RootPair(R, R.mul(w, w), R.mul(v, v), m - 1)
  {
    MulSwap(R, w, w, v, v);
    MulOne(R, R.one);
    if m > 1 {
      HalfTurnSquare(R, w, Pow2(m - 2));
      HalfTurnSquare(R, v, Pow2(m - 2));
    }
  }

  function Two<T>(R: Ring<T>): T {
    R.add(R.one, R.one)
  }

  lemma TwoTimes<T(!new)>(R: Ring<T>, x: T)
    requires IsCommutativeRing(R)
    ensures R.mul(Two(R), x) == R.add(x, x)
  {
    MulComm(R, Two(R), x);
    Distribute(R, x, R.one, R.one);
    MulOne(R, x);
  }

  lemma TimesDouble<T(!new)>(R: Ring<T>, h: nat, n: nat, x: T)
    requires IsCommutativeRing(R) && n == 2 * h
    ensures R.mul(Two(R), R.mul(Times(R, h, R.one), x)) == R.mul(Times(R, n, R.one), x)
  {
    TimesAdd(R, h, h, R.one);
    TwoTimes(R, Times(R, h, R.one));
    MulAssoc(R, Two(R), Times(R, h, R.one), x);
  }

  /** (a + b) + (a - b) == 2 a and (a + b) - (a - b) == 2 b */
  lemma SumAndDifference<T(!new)>(R: Ring<T>, a: T, b: T)
    requires IsCommutativeRing(R)
    ensures R.add(R.add(a, b), R.mul(R.one, Sub(R, a, b))) == R.mul(Two(R), a)
    ensures R.add(R.add(a, b), R.mul(R.neg(R.one), Sub(R, a, b))) == R.mul(Two(R), b)
  {
    var d := Sub(R, a, b);
    MulOne(R, d);
    AddSwap(R, a, b, a, R.neg(b));
    AddNeg(R, b);
    AddZero(R, R.add(a, a));
    TwoTimes(R, a);
    // the negative of the difference
    MulNeg(R, d, R.one);
    Distribute(R, R.neg(R.one), a, R.neg(b));
    MulNeg(R, a, R.one);
    MulOne(R, a);
    MulNeg(R, R.neg(b), R.one);
    MulOne(R, R.neg(b));
    NegNeg(R, b);
    assert R.mul(R.neg(R.one), d) == R.add(R.neg(a), b);
    AddSwap(R, a, b, R.neg(a), b);
    AddNeg(R, a);
    AddZero(R, R.add(b, b));
    TwoTimes(R, b);
  }

  lemma {:induction false} PowOfHalfTurn<T(!new)>(R: Ring<T>, v: T, h: nat, i: nat)
    requires IsCommutativeRing(R) && HalfTurn(R, v, h)
    ensures Pow(R, Pow(R, v, 2 * i), h) == R.one
    ensures Pow(R, Pow(R, v, 2 * i + 1), h) == R.neg(R.one)
    decreases i
  {
    var c := R.neg(R.one);
    if i == 0 {
      PowOfOne(R, h);
      MulOne(R, v);
      assert Pow(R, v, 1) == R.mul(Pow(R, v, 0), v);
    } else {
      PowOfHalfTurn(R, v, h, i - 1);
      assert Pow(R, v, 2 * i) == R.mul(Pow(R, v, 2 * i - 1), v);
      PowMulBase(R, Pow(R, v, 2 * i - 1), v, h);
      assert 2 * i - 1 == 2 * (i - 1) + 1;
      NegSquare(R, R.one);
      MulOne(R, R.one);
      assert Pow(R, v, 2 * i + 1) == R.mul(Pow(R, v, 2 * i), v);
      PowMulBase(R, Pow(R, v, 2 * i), v, h);
      MulOne(R, c);
    }
  }

  /** The halves of a transform, added with sign +1 or -1, are twice the even part, or twice the ramped odd part. */
  lemma FoldedTransform<T(!new)>(R: Ring<T>, w: T, e: seq<T>, o: seq<T>, lo: seq<T>, hi: seq<T>)
    requires IsCommutativeRing(R) && |e| == |o| == |lo| == |hi|
    requires forall k | 0 <= k < |e| ::
               lo[k] == R.add(e[k], R.mul(o[k], Pow(R, w, k))) && hi[k] == Sub(R, e[k], R.mul(o[k], Pow(R, w, k)))
    ensures AddSeq(R, lo, ScaleSeq(R, R.one, hi)) == ScaleSeq(R, Two(R), e)
    ensures AddSeq(R, lo, ScaleSeq(R, R.neg(R.one), hi)) == ScaleSeq(R, Two(R), Ramp(R, w, o))
  {
    forall k | 0 <= k < |e|
      ensures R.add(lo[k], R.mul(R.one, hi[k])) == R.mul(Two(R), e[k])
      ensures R.add(lo[k], R.mul(R.neg(R.one), hi[k])) == R.mul(Two(R), Ramp(R, w, o)[k])
    {
      SumAndDifference(R, e[k], R.mul(o[k], Pow(R, w, k)));
      MulComm(R, o[k], Pow(R, w, k));
    }
  }

  /** w v^(2i+1) == v^(2i) == (v^2)^i */
  lemma OddPower<T(!new)>(R: Ring<T>, w: T, v: T, i: nat)
    requires IsCommutativeRing(R) && R.mul(w, v) == R.one
    ensures Pow(R, v, 2 * i) == Pow(R, R.mul(v, v), i)
    ensures R.mul(w, Pow(R, v, 2 * i + 1)) == Pow(R, R.mul(v, v), i)
  {
    PowAdd(R, v, i, i);
    PowSquare(R, v, i);
    var z := Pow(R, v, 2 * i);
    assert Pow(R, v, 2 * i + 1) == R.mul(z, v);
    MulComm(R, z, v);
    MulAssoc(R, w, v, z);
    MulOne(R, z);
  }

  /** The transforms for mutually inverse roots undo each other up to the factor 2^m. */
  lemma {:induction false} InverseTransform<T(!new)>(R: Ring<T>, w: T, v: T, m: nat, x: seq<T>)
    requires IsCommutativeRing(R) && |x| == Pow2(m) && RootPair(R, w, v, m)
    ensures Transform(R, v, Transform(R, w, x)) == ScaleSeq(R, Times(R, Pow2(m), R.one), x)
    decreases m
  {
    if m == 0 {
      SingletonTransform(R, w, x);
      SingletonTransform(R, v, x);
      AddZero(R, R.one);
      MulOne(R, x[0]);
      assert Times(R, 1, R.one) == R.add(Times(R, 0, R.one), R.one);
    } else {
      var h, q, p := Pow2(m - 1), R.mul(w, w), R.mul(v, v);
      var e, o := Transform(R, q, Evens(x)), Transform(R, q, Odds(x));
      RootPairSquares(R, w, v, m);
      InverseTransform(R, q, p, m - 1, Evens(x));
      InverseTransform(R, q, p, m - 1, Odds(x));
      forall i | 0 <= i < h
        ensures Transform(R, v, Transform(R, w, x))[2 * i] == R.mul(Times(R, 2 * h, R.one), x[2 * i])
        ensures Transform(R, v, Transform(R, w, x))[2 * i + 1] == R.mul(Times(R, 2 * h, R.one), x[2 * i + 1])
      {
        InverseBins(R, w, v, x, e, o, h, i);
      }
      forall j | 0 <= j < 2 * h
        ensures Transform(R, v, Transform(R, w, x))[j] == R.mul(Times(R, 2 * h, R.one), x[j])
      {
        assert j == 2 * (j / 2) || j == 2 * (j / 2) + 1;
      }
    }
  }

  lemma SingletonTransform<T(!new)>(R: Ring<T>, w: T, x: seq<T>)
    requires IsCommutativeRing(R) && |x| == 1
    ensures Transform(R, w, x) == x
  {
    var z := Pow(R, w, 0);
    assert x[1..] == [] && Eval(R, x[1..], z) == R.zero;
    MulZero(R, z);
    AddZero(R, x[0]);
    TransformAt(R, w, x, 0, z);
    assert Transform(R, w, x)[0] == x[0];
  }

  /** Any bin of the inverse transform of `lo + hi`, whose root power turns the upper half by c = +1 or -1. */
  lemma InverseBin<T(!new)>(R: Ring<T>, lo: seq<T>, hi: seq<T>, z: T, c: T, folded: seq<T>, bin: T)
    requires IsCommutativeRing(R) && |lo| == |hi| && c == Pow(R, z, |lo|)
    requires AddSeq(R, lo, ScaleSeq(R, c, hi)) == ScaleSeq(R, Two(R), folded) && bin == Eval(R, folded, z)
    ensures Eval(R, lo + hi, z) == R.mul(Two(R), bin)
  {
    FoldHalves(R, lo, hi, z, c);
    EvalScaleSeq(R, Two(R), folded, z);
  }

  lemma ScaledBin<T(!new)>(R: Ring<T>, p: T, e: seq<T>, x: seq<T>, h: nat, i: nat, bin: T, xi: T)
    requires IsCommutativeRing(R) && |e| == |x| && i < |x| && x[i] == xi && bin == Eval(R, e, Pow(R, p, i))
    requires Transform(R, p, e) == ScaleSeq(R, Times(R, h, R.one), x)
    ensures R.mul(Two(R), bin) == R.mul(Times(R, 2 * h, R.one), xi)
  {
    TransformAt(R, p, e, i, Pow(R, p, i));
    TimesDouble(R, h, 2 * h, xi);
  }

  lemma TransformHalves<T(!new)>(R: Ring<T>, w: T, x: seq<T>, e: seq<T>, o: seq<T>, h: nat)
    requires IsCommutativeRing(R) && |x| == 2 * h && HalfTurn(R, w, h)
    requires e == Transform(R, R.mul(w, w), Evens(x)) && o == Transform(R, R.mul(w, w), Odds(x)) && |e| == |o| == h
    ensures var lo, hi := Transform(R, w, x)[..h], Transform(R, w, x)[h..];
            && AddSeq(R, lo, ScaleSeq(R, R.one, hi)) == ScaleSeq(R, Two(R), e)
            && AddSeq(R, lo, ScaleSeq(R, R.neg(R.one), hi)) == ScaleSeq(R, Two(R), Ramp(R, w, o))
  {
    var y := Transform(R, w, x);
    forall k | 0 <= k < h
      ensures y[k] == R.add(e[k], R.mul(o[k], Pow(R, w, k))) && y[h..][k] == Sub(R, e[k], R.mul(o[k], Pow(R, w, k)))
    {
      Butterfly(R, w, R.mul(w, w), x, e, o, h, k, h + k);
    }
    FoldedTransform(R, w, e, o, y[..h], y[h..]);
  }

  lemma InverseBins<T(!new)>(R: Ring<T>, w: T, v: T, x: seq<T>, e: seq<T>, o: seq<T>, h: nat, i: nat)
    requires IsCommutativeRing(R) && |x| == 2 * h && i < h
    requires R.mul(w, v) == R.one && HalfTurn(R, w, h) && HalfTurn(R, v, h)
    requires e == Transform(R, R.mul(w, w), Evens(x)) && o == Transform(R, R.mul(w, w), Odds(x))
    requires |e| == |o| == h
    requires Transform(R, R.mul(v, v), e) == ScaleSeq(R, Times(R, h, R.one), Evens(x))
    requires Transform(R, R.mul(v, v), o) == ScaleSeq(R, Times(R, h, R.one), Odds(x))
    ensures Transform(R, v, Transform(R, w, x))[2 * i] == R.mul(Times(R, 2 * h, R.one), x[2 * i])
    ensures Transform(R, v, Transform(R, w, x))[2 * i + 1] == R.mul(Times(R, 2 * h, R.one), x[2 * i + 1])
  {
    var y := Transform(R, w, x);
    var lo, hi, j := y[..h], y[h..], 2 * i + 1;
    assert y == lo + hi;
    TransformHalves(R, w, x, e, o, h);
    PowOfHalfTurn(R, v, h, i);
    OddPower(R, w, v, i);
    EvensOddsAt(x, i);
    var even, odd, p := Pow(R, v, 2 * i), Pow(R, v, j), R.mul(v, v);
    EvalRamp(R, w, o, odd);
    InverseBin(R, lo, hi, even, R.one, e, Eval(R, e, even));
    InverseBin(R, lo, hi, odd, R.neg(R.one), Ramp(R, w, o), Eval(R, o, Pow(R, p, i)));
    ScaledBin(R, p, e, Evens(x), h, i, Eval(R, e, even), x[2 * i]);
    ScaledBin(R, p, o, Odds(x), h, i, Eval(R, o, Pow(R, p, i)), x[j]);
    TransformAt(R, v, y, 2 * i, even);
    TransformAt(R, v, y, j, odd);
  }
}
