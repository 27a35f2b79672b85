/** Bit vectors: exclusive or, Hamming weight and Hamming distance. */
module Bits {

  // A coded or channel bit; `true` is the bit 1.
  type Bit = bool

  function Value(b: Bit): nat {
    if b then 1 else 0
  }

  /** Bitwise exclusive or of two vectors of the same length. */
  function Xor(a: seq<Bit>, b: seq<Bit>): (r: seq<Bit>)
    requires |a| == |b|
    ensures |r| == |a|
  {
    seq(|a|, i requires 0 <= i < |a| => a[i] != b[i])
  }

  /** The number of ones. */
  function Weight(a: seq<Bit>): nat {
    if a == [] then 0 else Weight(a[..|a| - 1]) + Value(a[|a| - 1])
  }

  /** The number of positions in which two vectors of the same length differ. */
  function Distance(a: seq<Bit>, b: seq<Bit>): nat
    requires |a| == |b|
  {
    if a == [] then 0
    else Distance(a[..|a| - 1], b[..|b| - 1]) + Value(a[|a| - 1] != b[|b| - 1])
  }

  function Zeros(n: nat): (r: seq<Bit>)
    ensures |r| == n
  {
    seq(n, i => false)
  }

  lemma ZerosSnoc(n: nat)
    ensures Zeros(n + 1) == Zeros(n) + [false]
  {
  }

  lemma XorConcat(a: seq<Bit>, b: seq<Bit>, c: seq<Bit>, d: seq<Bit>)
    requires |a| == |b| && |c| == |d|
    ensures Xor(a + c, b + d) == Xor(a, b) + Xor(c, d)
  {
  }

  /** Flipping the positions marked in `b` changes the parity of `a` by the parity of `b`. */
  lemma {:induction false} XorParity(a: seq<Bit>, b: seq<Bit>)
    requires |a| == |b|
    ensures Weight(Xor(a, b)) % 2 == (Weight(a) + Weight(b)) % 2
  {
    if a != [] {
      var n := |a| - 1;
      assert Xor(a, b)[..n] == Xor(a[..n], b[..n]);
      XorParity(a[..n], b[..n]);
    }
  }

  lemma {:induction false} DistanceIsWeight(a: seq<Bit>, b: seq<Bit>)
    requires |a| == |b|
    ensures Distance(a, b) == Weight(Xor(a, b))
  {
    if a != [] {
      var n := |a| - 1;
      assert Xor(a, b)[..n] == Xor(a[..n], b[..n]);
      DistanceIsWeight(a[..n], b[..n]);
    }
  }

  lemma {:induction false} DistanceSymmetric(a: seq<Bit>, b: seq<Bit>)
    requires |a| == |b|
    ensures Distance(a, b) == Distance(b, a)
  {
    if a != [] {
      DistanceSymmetric(a[..|a| - 1], b[..|b| - 1]);
    }
  }

  lemma {:induction false} TriangleInequality(a: seq<Bit>, b: seq<Bit>, c: seq<Bit>)
    requires |a| == |b| == |c|
    ensures Distance(a, c) <= Distance(a, b) + Distance(b, c)
  {
    if a != [] {
      var n := |a| - 1;
      TriangleInequality(a[..n], b[..n], c[..n]);
    }
  }

  lemma {:induction false} DistanceConcat(a: seq<Bit>, b: seq<Bit>, c: seq<Bit>, d: seq<Bit>)
    requires |a| == |b| && |c| == |d|
    ensures Distance(a + c, b + d) == Distance(a, b) + Distance(c, d)
  {
    if c == [] {
      assert a + c == a && b + d == b;
    } else {
      var n := |c| - 1;
      assert (a + c)[..|a + c| - 1] == a + c[..n];
      assert (b + d)[..|b + d| - 1] == b + d[..n];
      DistanceConcat(a, b, c[..n], d[..n]);
    }
  }

  lemma {:induction false} WeightConcat(a: seq<Bit>, b: seq<Bit>)
    ensures Weight(a + b) == Weight(a) + Weight(b)
  {
    if b == [] {
      assert a + b == a;
    } else {
      var n := |b| - 1;
      assert (a + b)[..|a + b| - 1] == a + b[..n];
      WeightConcat(a, b[..n]);
    }
  }

  lemma {:induction false} DistanceZeroMeansEqual(a: seq<Bit>, b: seq<Bit>)
    requires |a| == |b|
    ensures Distance(a, b) == 0 <==> a == b
  {
    if a != [] {
      var n := |a| - 1;
      DistanceZeroMeansEqual(a[..n], b[..n]);
      assert a == a[..n] + [a[n]] && b == b[..n] + [b[n]];
    }
  }

  lemma {:induction false} WeightZeroMeansZeros(a: seq<Bit>)
    ensures Weight(a) == 0 <==> a == Zeros(|a|)
  {
    if a != [] {
      var n := |a| - 1;
      WeightZeroMeansZeros(a[..n]);
      assert a == a[..n] + [a[n]];
      assert Zeros(|a|)[..n] == Zeros(n);
    }
  }
}
