/** Commutative rings as records of operations, so that exact arithmetic replaces complex floats. */
module Rings {

  datatype Ring<!T> = Ring(zero: T, one: T, add: (T, T) -> T, neg: T -> T, mul: (T, T) -> T)

  // The axioms are quantified under these marks so that each use of one names its operands.
  predicate Mark1<T>(x: T) { true }
  predicate Mark2<T>(x: T, y: T) { true }
  predicate Mark3<T>(x: T, y: T, z: T) { true }

  ghost predicate IsCommutativeRing<T(!new)>(R: Ring<T>) {
    && (forall x: T {:trigger Mark1(x)} :: Mark1(x) ==>
          && R.add(x, R.zero) == x && R.add(x, R.neg(x)) == R.zero && R.mul(R.one, x) == x)
    && (forall x: T, y: T {:trigger Mark2(x, y)} :: Mark2(x, y) ==>
          && R.add(x, y) == R.add(y, x) && R.mul(x, y) == R.mul(y, x))
    && (forall x: T, y: T, z: T {:trigger Mark3(x, y, z)} :: Mark3(x, y, z) ==>
          && R.add(R.add(x, y), z) == R.add(x, R.add(y, z))
          && R.mul(R.mul(x, y), z) == R.mul(x, R.mul(y, z))
          && R.mul(x, R.add(y, z)) == R.add(R.mul(x, y), R.mul(x, z)))
  }

  function Sub<T>(R: Ring<T>, x: T, y: T): T {
    R.add(x, R.neg(y))
  }

  lemma AddZero<T(!new)>(R: Ring<T>, x: T)
    requires IsCommutativeRing(R)
    ensures R.add(x, R.zero) == x && R.add(R.zero, x) == x
  {
    assert Mark1(x) && Mark2(x, R.zero);
  }

  lemma AddNeg<T(!new)>(R: Ring<T>, x: T)
    requires IsCommutativeRing(R)
    ensures R.add(x, R.neg(x)) == R.zero && R.add(R.neg(x), x) == R.zero
  {
    assert Mark1(x) && Mark2(x, R.neg(x));
  }

  lemma MulOne<T(!new)>(R: Ring<T>, x: T)
    requires IsCommutativeRing(R)
    ensures R.mul(R.one, x) == x && R.mul(x, R.one) == x
  {
    assert Mark1(x) && Mark2(x, R.one);
  }

  lemma AddComm<T(!new)>(R: Ring<T>, x: T, y: T)
    requires IsCommutativeRing(R)
    ensures R.add(x, y) == R.add(y, x)
  {
    assert Mark2(x, y);
  }

  lemma MulComm<T(!new)>(R: Ring<T>, x: T, y: T)
    requires IsCommutativeRing(R)
    ensures R.mul(x, y) == R.mul(y, x)
  {
    assert Mark2(x, y);
  }

  lemma AddAssoc<T(!new)>(R: Ring<T>, x: T, y: T, z: T)
    requires IsCommutativeRing(R)
    ensures R.add(R.add(x, y), z) == R.add(x, R.add(y, z))
  {
    assert Mark3(x, y, z);
  }

  lemma MulAssoc<T(!new)>(R: Ring<T>, x: T, y: T, z: T)
    requires IsCommutativeRing(R)
    ensures R.mul(R.mul(x, y), z) == R.mul(x, R.mul(y, z))
  {
    assert Mark3(x, y, z);
  }

  lemma Distribute<T(!new)>(R: Ring<T>, x: T, y: T, z: T)
    requires IsCommutativeRing(R)
    ensures R.mul(x, R.add(y, z)) == R.add(R.mul(x, y), R.mul(x, z))
  {
    assert Mark3(x, y, z);
  }

  /** (a + b) + (c + d) == (a + c) + (b + d) */
  lemma AddSwap<T(!new)>(R: Ring<T>, a: T, b: T, c: T, d: T)
    requires IsCommutativeRing(R)
    ensures R.add(R.add(a, b), R.add(c, d)) == R.add(R.add(a, c), R.add(b, d))
  {
    AddAssoc(R, a, b, R.add(c, d));
    AddAssoc(R, b, c, d);
    AddComm(R, b, c);
    AddAssoc(R, c, b, d);
    AddAssoc(R, a, c, R.add(b, d));
  }

  /** (a b) (c d) == (a c) (b d) */
  lemma MulSwap<T(!new)>(R: Ring<T>, a: T, b: T, c: T, d: T)
    requires IsCommutativeRing(R)
    ensures R.mul(R.mul(a, b), R.mul(c, d)) == R.mul(R.mul(a, c), R.mul(b, d))
  {
    MulAssoc(R, a, b, R.mul(c, d));
    MulAssoc(R, b, c, d);
    MulComm(R, b, c);
    MulAssoc(R, c, b, d);
    MulAssoc(R, a, c, R.mul(b, d));
  }

  lemma CancelAdd<T(!new)>(R: Ring<T>, x: T, y: T, z: T)
    requires IsCommutativeRing(R) && R.add(x, y) == R.add(x, z)
    ensures y == z
  {
    AddAssoc(R, R.neg(x), x, y);
    AddAssoc(R, R.neg(x), x, z);
    AddNeg(R, x);
    AddZero(R, y);
    AddZero(R, z);
  }

  lemma MulZero<T(!new)>(R: Ring<T>, x: T)
    requires IsCommutativeRing(R)
    ensures R.mul(x, R.zero) == R.zero && R.mul(R.zero, x) == R.zero
  {
    AddZero(R, R.zero);
    Distribute(R, x, R.zero, R.zero);
    AddZero(R, R.mul(x, R.zero));
    CancelAdd(R, R.mul(x, R.zero), R.mul(x, R.zero), R.zero);
    MulComm(R, x, R.zero);
  }

  lemma MulNeg<T(!new)>(R: Ring<T>, x: T, y: T)
    requires IsCommutativeRing(R)
    ensures R.mul(x, R.neg(y)) == R.neg(R.mul(x, y)) && R.mul(R.neg(y), x) == R.neg(R.mul(x, y))
  {
    Distribute(R, x, y, R.neg(y));
    AddNeg(R, y);
    MulZero(R, x);
    AddNeg(R, R.mul(x, y));
    CancelAdd(R, R.mul(x, y), R.mul(x, R.neg(y)), R.neg(R.mul(x, y)));
    MulComm(R, x, R.neg(y));
  }

  lemma NegNeg<T(!new)>(R: Ring<T>, x: T)
    requires IsCommutativeRing(R)
    ensures R.neg(R.neg(x)) == x
  {
    AddNeg(R, x);
    AddNeg(R, R.neg(x));
    CancelAdd(R, R.neg(x), R.neg(R.neg(x)), x);
  }

  /** (-x) (-x) == x x */
  lemma NegSquare<T(!new)>(R: Ring<T>, x: T)
    requires IsCommutativeRing(R)
    ensures R.mul(R.neg(x), R.neg(x)) == R.mul(x, x)
  {
    MulNeg(R, R.neg(x), x);
    MulNeg(R, x, x);
    NegNeg(R, R.mul(x, x));
  }

  // ---- powers and multiples ----

  function Pow<T>(R: Ring<T>, w: T, e: nat): T
    decreases e
  {
    if e == 0 then R.one else R.mul(Pow(R, w, e - 1), w)
  }

  lemma {:induction false} PowAdd<T(!new)>(R: Ring<T>, w: T, a: nat, b: nat)
    requires IsCommutativeRing(R)
    ensures Pow(R, w, a + b) == R.mul(Pow(R, w, a), Pow(R, w, b))
    decreases b
  {
    if b == 0 {
      MulOne(R, Pow(R, w, a));
    } else {
      PowAdd(R, w, a, b - 1);
      MulAssoc(R, Pow(R, w, a), Pow(R, w, b - 1), w);
    }
  }

  lemma {:induction false} PowMulBase<T(!new)>(R: Ring<T>, v: T, w: T, e: nat)
    requires IsCommutativeRing(R)
    ensures Pow(R, R.mul(v, w), e) == R.mul(Pow(R, v, e), Pow(R, w, e))
    decreases e
  {
    if e == 0 {
      MulOne(R, R.one);
    } else {
      PowMulBase(R, v, w, e - 1);
      MulSwap(R, Pow(R, v, e - 1), Pow(R, w, e - 1), v, w);
    }
  }

  lemma {:induction false} PowOfOne<T(!new)>(R: Ring<T>, e: nat)
    requires IsCommutativeRing(R)
    ensures Pow(R, R.one, e) == R.one
    decreases e
  {
    if e > 0 {
      PowOfOne(R, e - 1);
      MulOne(R, R.one);
    }
  }

  /** x added to itself `n` times. */
  function Times<T>(R: Ring<T>, n: nat, x: T): T
    decreases n
  {
    if n == 0 then R.zero else R.add(Times(R, n - 1, x), x)
  }

  lemma {:induction false} TimesAdd<T(!new)>(R: Ring<T>, m: nat, n: nat, x: T)
    requires IsCommutativeRing(R)
    ensures Times(R, m + n, x) == R.add(Times(R, m, x), Times(R, n, x))
    decreases n
  {
    if n == 0 {
      AddZero(R, Times(R, m, x));
    } else {
      TimesAdd(R, m, n - 1, x);
      AddAssoc(R, Times(R, m, x), Times(R, n - 1, x), x);
    }
  }

  lemma {:induction false} TimesIsMul<T(!new)>(R: Ring<T>, n: nat, x: T)
    requires IsCommutativeRing(R)
    ensures Times(R, n, x) == R.mul(x, Times(R, n, R.one))
    decreases n
  {
    if n == 0 {
      MulZero(R, x);
    } else {
      TimesIsMul(R, n - 1, x);
      Distribute(R, x, Times(R, n - 1, R.one), R.one);
      MulOne(R, x);
    }
  }
}
