/** The in-place iterative radix-2 FFT: bit-reversal swaps, then butterfly stages of doubling length. */
module Fft {
  import opened Bits
  import opened BinaryNumbers
  import opened Chunks
  import opened Rings
  import opened Dft

  // ---- bit reversal ----

  function Reverse(bits: seq<Bit>): (r: seq<Bit>)
    ensures |r| == |bits|
  {
    seq(|bits|, i requires 0 <= i < |bits| => bits[|bits| - 1 - i])
  }

  lemma {:induction false} NumberOfFront(b: Bit, bits: seq<Bit>)
    ensures NumberOf([b] + bits) == Value(b) * Pow2(|bits|) + NumberOf(bits)
  {
    if bits == [] {
      assert [b] + bits == [b] && [b][..0] == [];
    } else {
      var n := |bits| - 1;
      assert ([b] + bits)[..n + 1] == [b] + bits[..n];
      NumberOfFront(b, bits[..n]);
    }
  }

  /** The number whose `m` bits are those of `i` in reverse order: the lowest bit becomes the highest. */
  function Rev(i: nat, m: nat): nat
    decreases i, m
  {
    if m == 0 then 0 else (if i % 2 == 1 then Pow2(m - 1) else 0) + Rev(i / 2, m - 1)
  }

  lemma {:induction false} RevIsReversal(i: nat, m: nat)
    ensures Rev(i, m) == NumberOf(Reverse(BitsOf(i, m)))
    decreases m
  {
    if m > 0 {
      var rest := BitsOf(i / 2, m - 1);
      RevIsReversal(i / 2, m - 1);
      assert Reverse(BitsOf(i, m)) == [i % 2 == 1] + Reverse(rest);
      NumberOfFront(i % 2 == 1, Reverse(rest));
    }
  }

  lemma RevBound(i: nat, m: nat)
    ensures Rev(i, m) < Pow2(m)
  {
    RevIsReversal(i, m);
    BitsOfNumberOf(Reverse(BitsOf(i, m)));
  }

  lemma BitsOfRev(i: nat, m: nat)
    ensures BitsOf(Rev(i, m), m) == Reverse(BitsOf(i, m))
  {
    RevIsReversal(i, m);
    BitsOfNumberOf(Reverse(BitsOf(i, m)));
  }

  lemma ReverseTwice(bits: seq<Bit>)
    ensures Reverse(Reverse(bits)) == bits
  {
  }

  lemma RevInvolution(i: nat, m: nat)
    requires i < Pow2(m)
    ensures Rev(Rev(i, m), m) == i
  {
    BitsOfRev(i, m);
    RevIsReversal(Rev(i, m), m);
    ReverseTwice(BitsOf(i, m));
    NumberOfBitsOf(i, m);
  }

  lemma RevStep(i: nat, m: nat)
    requires m > 0
    ensures Rev(i, m) == (if i % 2 == 1 then Pow2(m - 1) else 0) + Rev(i / 2, m - 1)
  {
  }

  lemma {:induction false} RevZero(m: nat)
    ensures Rev(0, m) == 0
  {
    if m > 0 {
      RevZero(m - 1);
    }
  }

  /** The test `j & bit` for a power of two. */
  predicate HasBit(j: nat, bit: nat) {
    bit > 0 && j / bit % 2 == 1
  }

  lemma HasTopBit(j: nat, bit: nat)
    requires bit > 0 && j < 2 * bit
    ensures HasBit(j, bit) <==> j >= bit
  {
    if j >= bit {
      QuotientIsOne(j, bit);
    } else {
      QuotientIsZero(j, bit);
    }
  }

  lemma QuotientIsOne(j: nat, bit: nat)
    requires bit <= j < 2 * bit
    ensures j / bit == 1
  {
  }

  lemma QuotientIsZero(j: nat, bit: nat)
    requires j < bit
    ensures j / bit == 0
  {
  }

  /** One turn of the carry: an odd counter `c` of `q` bits, seen reversed. */
  lemma CarryStep(c: nat, q: nat)
    requires q > 0 && c + 1 < Pow2(q)
    ensures c % 2 == 1 <==> Rev(c, q) >= Pow2(q - 1)
    ensures c % 2 == 1 ==> q > 1 && c / 2 + 1 < Pow2(q - 1)
                           && Rev(c, q) == Pow2(q - 1) + Rev(c / 2, q - 1) && Rev(c / 2, q - 1) < Pow2(q - 1)
                           && Rev(c + 1, q) == Rev(c / 2 + 1, q - 1)
    ensures c % 2 == 0 ==> Rev(c + 1, q) == Pow2(q - 1) + Rev(c, q)
  {
    RevStep(c, q);
    RevStep(c + 1, q);
    RevBound(c / 2, q - 1);
    assert c % 2 == 1 ==> (c + 1) / 2 == c / 2 + 1 && (c + 1) % 2 == 0;
  }

  /** The loop test of the carry: whether the lowest bit of the counter is set. */
  method CarryBit(j: nat, bit: nat, ghost c: nat, ghost q: nat) returns (carry: bool)
    requires q > 0 && bit == Pow2(q - 1) && c + 1 < Pow2(q) && j == Rev(c, q)
    ensures carry <==> c % 2 == 1
    ensures carry ==>
              && q > 1 && c / 2 + 1 < Pow2(q - 1) && bit / 2 == Pow2(q - 2) && bit / 2 < bit
              && j >= bit && j - bit == Rev(c / 2, q - 1) && Rev(c + 1, q) == Rev(c / 2 + 1, q - 1)
    ensures !carry ==> Rev(c + 1, q) == j + bit
  {
    RevBound(c, q);
    HasTopBit(j, bit);
    CarryStep(c, q);
    carry := HasBit(j, bit);
  }

  /** Adding one to the reversed counter: the carry runs from the top bit down. */
  method ReversedIncrement(j0: nat, i: nat, n: nat, ghost m: nat) returns (j: nat)
    requires n == Pow2(m) && 0 < i < n && j0 == Rev(i - 1, m)
    ensures j == Rev(i, m)
  {
    j := j0;
    var bit := n / 2;
    ghost var c: nat, q: nat := i - 1, m;
    while true
      invariant q > 0 && bit == Pow2(q - 1) && c + 1 < Pow2(q)
      invariant j == Rev(c, q) && Rev(i, m) == Rev(c + 1, q)
      decreases bit
    {
      var carry := CarryBit(j, bit, c, q);
      if !carry {
        return j + bit;
      }
      j := j - bit;
      bit := bit / 2;
      c, q := c / 2, q - 1;
    }
  }

  method BitReverse<T>(a: array<T>, ghost m: nat)
    requires a.Length == Pow2(m)
    modifies a
    ensures forall k | 0 <= k < a.Length :: Rev(k, m) < a.Length && a[k] == old(a[Rev(k, m)])
  {
    var n, j := a.Length, 0;
    forall k | 0 <= k < n
      ensures Rev(k, m) < n && Rev(Rev(k, m), m) == k
    {
      RevBound(k, m);
      RevInvolution(k, m);
    }
    RevZero(m);
    for i := 1 to n
      invariant j == Rev(i - 1, m)
      invariant forall k | 0 <= k < n ::
                  a[k] == if k < i || Rev(k, m) < i then old(a[Rev(k, m)]) else old(a[k])
    {
      j := ReversedIncrement(j, i, n, m);
      if i < j {
        a[i], a[j] := a[j], a[i];
      }
    }
  }

  // ---- blocks ----

  /** The input order behind a bit-reversed block of length 2^s. */
  function Unrev<T>(q: seq<T>, s: nat): (x: seq<T>)
    requires |q| == Pow2(s)
    ensures |x| == |q|
    decreases s
  {
    if s == 0 then q
    else var h := Pow2(s - 1); Interleave(Unrev(q[..h], s - 1), Unrev(q[h..], s - 1))
  }

  lemma UnrevHalves<T>(q: seq<T>, s: nat, h: nat, lo: seq<T>, hi: seq<T>, i: nat, j: nat, v: T)
    requires |q| == Pow2(s) && s > 0 && h == Pow2(s - 1) && i < h && lo == q[..h] && hi == q[h..] && i == j / 2
    requires v == if j % 2 == 0 then Unrev(lo, s - 1)[i] else Unrev(hi, s - 1)[i]
    ensures j < |q| && Unrev(q, s)[j] == v
  {
    var e, o := Unrev(lo, s - 1), Unrev(hi, s - 1);
    InterleaveAt(e, o, i);
    assert Unrev(q, s) == Interleave(e, o) && (j == 2 * i || j == 2 * i + 1);
  }

  lemma {:induction false} UnrevAt<T>(q: seq<T>, s: nat, j: nat, r: nat)
    requires |q| == Pow2(s) && j < |q| && r == Rev(j, s)
    ensures r < |q| && Unrev(q, s)[j] == q[r]
    decreases s
  {
    RevBound(j, s);
    if s == 0 {
      assert r == 0 && j == 0;
    } else {
      var h, i := Pow2(s - 1), j / 2;
      var lo, hi := q[..h], q[h..];
      var r' := Rev(i, s - 1);
      RevStep(j, s);
      if j % 2 == 0 {
        UnrevAt(lo, s - 1, i, r');
        UnrevHalves(q, s, h, lo, hi, i, j, lo[r']);
      } else {
        UnrevAt(hi, s - 1, i, r');
        UnrevHalves(q, s, h, lo, hi, i, j, hi[r']);
      }
    }
  }

  lemma UnrevOfReversed<T>(x: seq<T>, p: seq<T>, m: nat)
    requires |x| == |p| == Pow2(m)
    requires forall k | 0 <= k < |x| :: Rev(k, m) < |x| && p[k] == x[Rev(k, m)]
    ensures Unrev(p, m) == x
  {
    forall j | 0 <= j < |x|
      ensures Unrev(p, m)[j] == x[j]
    {
      UnrevAt(p, m, j, Rev(j, m));
      RevInvolution(j, m);
    }
  }

  ghost predicate Multiple(n: nat, len: nat)
    requires len > 0
  {
    n == 0 || (n >= len && Multiple(n - len, len))
  }

  lemma {:induction false} MultipleOfDouble(n: nat, h: nat)
    requires h > 0 && Multiple(n, 2 * h)
    ensures Multiple(n, h)
  {
    if n > 0 {
      MultipleOfDouble(n - 2 * h, h);
      assert n - h >= h && n - h - h == n - 2 * h;
    }
  }

  lemma {:induction false} MultipleSum(m: nat, n: nat, len: nat)
    requires len > 0 && Multiple(m, len) && Multiple(n, len)
    ensures Multiple(m + n, len)
    decreases m
  {
    if m > 0 {
      MultipleSum(m - len, n, len);
      assert m + n - len == m - len + n;
    }
  }

  lemma {:induction false} PowerIsMultiple(m: nat, s: nat)
    requires s <= m
    ensures Multiple(Pow2(m), Pow2(s))
    decreases m
  {
    if s == m {
      assert Multiple(0, Pow2(s));
    } else {
      PowerIsMultiple(m - 1, s);
      MultipleSum(Pow2(m - 1), Pow2(m - 1), Pow2(s));
    }
  }

  /** The transform of one bit-reversed block. */
  function Block<T>(R: Ring<T>, w: T, q: seq<T>, s: nat): (y: seq<T>)
    requires |q| == Pow2(s)
    ensures |y| == |q|
  {
    Transform(R, w, Unrev(q, s))
  }

  /** The array after the stage of block length 2^s: every block transformed on its own. */
  ghost function Stage<T>(R: Ring<T>, w: T, p: seq<T>, s: nat): (y: seq<T>)
    requires Multiple(|p|, Pow2(s))
    ensures |y| == |p|
    decreases |p|
  {
    if p == [] then []
    else var len := Pow2(s); Block(R, w, p[..len], s) + Stage(R, w, p[len..], s)
  }

  lemma StageOneBlock<T>(R: Ring<T>, w: T, q: seq<T>, s: nat, b: seq<T>)
    requires |q| == Pow2(s) && b == Block(R, w, q, s)
    ensures Multiple(|q|, Pow2(s)) && Stage(R, w, q, s) == b
  {
    assert Multiple(0, Pow2(s));
    var rest := q[|q|..];
    assert q[..|q|] == q && rest == [] && Stage(R, w, rest, s) == [];
  }

  lemma StageFront<T>(R: Ring<T>, w: T, len: nat, p: seq<T>, q: seq<T>, s: nat)
    requires len == Pow2(s) && |p| >= len && Multiple(|p|, len) && Multiple(|p| - len, len) && Multiple(|p + q|, len)
    requires Multiple(|p + q| - len, len)
    ensures Stage(R, w, p + q, s) == Block(R, w, p[..len], s) + Stage(R, w, p[len..] + q, s)
  {
    assert (p + q)[..len] == p[..len] && (p + q)[len..] == p[len..] + q;
  }

  lemma {:induction false} StageSnoc<T>(R: Ring<T>, w: T, p: seq<T>, q: seq<T>, s: nat, len: nat, b: seq<T>)
    requires len == Pow2(s) && Multiple(|p|, len) && |q| == len && b == Block(R, w, q, s)
    ensures Multiple(|p + q|, len) && Stage(R, w, p + q, s) == Stage(R, w, p, s) + b
    decreases |p|
  {
    assert Multiple(0, len) && Multiple(len, len);
    MultipleSum(|p|, len, len);
    if p == [] {
      assert p + q == q;
      StageOneBlock(R, w, q, s, b);
    } else {
      var tail := p[len..];
      StageSnoc(R, w, tail, q, s, len, b);
      assert |tail + q| == |p + q| - len;
      StageFront(R, w, len, p, q, s);
      Regroup(Block(R, w, p[..len], s), Stage(R, w, tail, s), b);
    }
  }

  /** The even coefficients of a block's input are those of its lower half, the odd ones those of its upper half. */
  lemma BlockHalves<T>(R: Ring<T>, w: T, q: T, p: seq<T>, s: nat, h: nat, x: seq<T>, e: seq<T>, o: seq<T>)
    requires s > 0 && h == Pow2(s - 1) && |p| == Pow2(s) && x == Unrev(p, s)
    requires e == Block(R, q, p[..h], s - 1) && o == Block(R, q, p[h..], s - 1)
    ensures |e| == |o| == h && |x| == 2 * h
    ensures e == Transform(R, q, Evens(x)) && o == Transform(R, q, Odds(x)) && Transform(R, w, x) == Block(R, w, p, s)
  {
    InterleaveHalves(Unrev(p[..h], s - 1), Unrev(p[h..], s - 1));
  }

  /** `lo` and `hi` are what the butterflies make of the even and odd transforms. */
  ghost predicate Butterflies<T>(R: Ring<T>, w: T, e: seq<T>, o: seq<T>, lo: seq<T>, hi: seq<T>) {
    && |e| == |o| == |lo| == |hi|
    && (forall k | 0 <= k < |e| ::
          lo[k] == R.add(e[k], R.mul(o[k], Pow(R, w, k))) && hi[k] == Sub(R, e[k], R.mul(o[k], Pow(R, w, k))))
  }

  /** Index `k` of both halves of `y`. */
  predicate PairAt<T(==)>(y: seq<T>, lo: seq<T>, hi: seq<T>, h: nat, k: nat) {
    k < |lo| && k < |hi| && h + k < |y| && y[k] == lo[k] && y[h + k] == hi[k]
  }

  lemma ButterflyBins<T(!new)>(R: Ring<T>, w: T, q: T, x: seq<T>, e: seq<T>, o: seq<T>,
                               lo: seq<T>, hi: seq<T>, h: nat, k: nat, y: seq<T>)
    requires IsCommutativeRing(R) && |x| == 2 * h && |e| == h && HalfTurn(R, w, h) && q == R.mul(w, w)
    requires e == Transform(R, q, Evens(x)) && o == Transform(R, q, Odds(x)) && y == Transform(R, w, x)
    requires |o| == h && k < |lo| && k < |hi| && k < h && lo[k] == R.add(e[k], R.mul(o[k], Pow(R, w, k)))
    requires hi[k] == Sub(R, e[k], R.mul(o[k], Pow(R, w, k)))
    ensures PairAt(y, lo, hi, h, k)
  {
    Butterfly(R, w, q, x, e, o, h, k, h + k);
  }

  lemma JoinHalves<T>(y: seq<T>, lo: seq<T>, hi: seq<T>, h: nat)
    requires |y| == 2 * h && |lo| == |hi| == h
    requires forall k | 0 <= k < h :: PairAt(y, lo, hi, h, k)
    ensures y == lo + hi
  {
    forall j | 0 <= j < 2 * h
      ensures y[j] == (lo + hi)[j]
    {
      var k := if j < h then j else j - h;
      assert PairAt(y, lo, hi, h, k);
    }
  }

  /** Butterflies turn the transforms of the two half blocks into the transform of the block. */
  lemma BlockFromHalves<T(!new)>(R: Ring<T>, w: T, q: T, p: seq<T>, s: nat, h: nat,
                                 e: seq<T>, o: seq<T>, lo: seq<T>, hi: seq<T>)
    requires IsCommutativeRing(R) && s > 0 && h == Pow2(s - 1) && |p| == Pow2(s)
    requires HalfTurn(R, w, h) && q == R.mul(w, w)
    requires e == Block(R, q, p[..h], s - 1) && o == Block(R, q, p[h..], s - 1)
    requires Butterflies(R, w, e, o, lo, hi)
    ensures Block(R, w, p, s) == lo + hi
  {
    var x, y := Unrev(p, s), Block(R, w, p, s);
    BlockHalves(R, w, q, p, s, h, x, e, o);
    forall k | 0 <= k < h
      ensures PairAt(y, lo, hi, h, k)
    {
      ButterflyBins(R, w, q, x, e, o, lo, hi, h, k, y);
    }
    JoinHalves(y, lo, hi, h);
  }

  // ---- the transform in place ----

  /** Entry `k` of the block of length 2h at `i`, before and after. */
  predicate ButterflyAt<T(==)>(R: Ring<T>, w: T, y: seq<T>, y': seq<T>, i: nat, h: nat, k: nat) {
    && i + h + k < |y| && i + h + k < |y'|
    && y'[i + k] == R.add(y[i + k], R.mul(y[i + h + k], Pow(R, w, k)))
    && y'[i + h + k] == Sub(R, y[i + k], R.mul(y[i + h + k], Pow(R, w, k)))
  }

  /** `y'` is `y` after the butterflies of the block of length 2h at `i`; nothing else changes. */
  ghost predicate OneBlock<T>(R: Ring<T>, w: T, y: seq<T>, y': seq<T>, i: nat, h: nat) {
    && |y'| == |y|
    && (forall k | 0 <= k < h :: ButterflyAt(R, w, y, y', i, h, k))
    && (forall j | 0 <= j < |y| && !(i <= j < i + 2 * h) :: y'[j] == y[j])
  }

  /** The innermost loop: one block of length 2h at `i`. */
  method ButterflyBlock<T>(R: Ring<T>, w: T, a: array<T>, i: nat, h: nat)
    requires i + 2 * h <= a.Length
    modifies a
    ensures OneBlock(R, w, old(a[..]), a[..], i, h)
  {
    var z := R.one;
    for k := 0 to h
      invariant z == Pow(R, w, k)
      invariant forall j | 0 <= j < k :: ButterflyAt(R, w, old(a[..]), a[..], i, h, j)
      invariant forall j | 0 <= j < a.Length && !(i <= j < i + k) && !(i + h <= j < i + h + k) :: a[j] == old(a[j])
    {
      ghost var y := a[..];
      var u, v := a[i + k], R.mul(a[i + k + h], z);
      a[i + k] := R.add(u, v);
      a[i + k + h] := Sub(R, u, v);
      z := R.mul(z, w);
      forall j | 0 <= j <= k
        ensures ButterflyAt(R, w, old(a[..]), a[..], i, h, j)
      {
        assert j < k ==> ButterflyAt(R, w, old(a[..]), y, i, h, j);
      }
    }
  }

  /** The array after the butterflies of the block that follows `done`. */
  lemma ButterflyPieces<T>(R: Ring<T>, w: T, h: nat, y: seq<T>, y': seq<T>,
                           done: seq<T>, e: seq<T>, o: seq<T>, rest: seq<T>)
    returns (lo: seq<T>, hi: seq<T>, done': seq<T>)
    requires |e| == |o| == h && y == done + (e + (o + rest)) && OneBlock(R, w, y, y', |done|, h)
    ensures Butterflies(R, w, e, o, lo, hi) && done' == done + (lo + hi) && y' == done' + rest
  {
    var i := |done|;
    lo, hi, done' := y'[i..i + h], y'[i + h..i + 2 * h], y'[..i + 2 * h];
    forall k | 0 <= k < h
      ensures lo[k] == R.add(e[k], R.mul(o[k], Pow(R, w, k))) && hi[k] == Sub(R, e[k], R.mul(o[k], Pow(R, w, k)))
    {
      assert ButterflyAt(R, w, y, y', i, h, k);
    }
  }

  /** The first two half-length blocks of a stage, and what follows them. */
  lemma StageFrontPair<T>(R: Ring<T>, q: T, p0: seq<T>, p1: seq<T>, rest: seq<T>, s: nat, h: nat)
    requires h == Pow2(s) && |p0| == |p1| == h
    requires Multiple(|rest|, h) && Multiple(|p1 + rest|, h) && Multiple(|p0 + (p1 + rest)|, h)
    ensures Stage(R, q, p0 + (p1 + rest), s) == Block(R, q, p0, s) + (Block(R, q, p1, s) + Stage(R, q, rest, s))
  {
    var q1, q0 := p1 + rest, p0 + (p1 + rest);
    assert q1[..h] == p1 && q1[h..] == rest;
    assert q0[..h] == p0 && q0[h..] == q1;
  }

  /** One turn of the middle loop, on values: the block `p0 + p1` joins the finished blocks `done`. */
  lemma NextBlock<T(!new)>(R: Ring<T>, w: T, q: T, s: nat, h: nat, done: seq<T>, p0: seq<T>, p1: seq<T>, done': seq<T>,
                           e: seq<T>, o: seq<T>, lo: seq<T>, hi: seq<T>, y0: seq<T>, y0': seq<T>)
    requires IsCommutativeRing(R) && s > 0 && h == Pow2(s - 1) && HalfTurn(R, w, h) && q == R.mul(w, w)
    requires |p0| == |p1| == h && Multiple(|done|, 2 * h) && done' == done + (p0 + p1)
    requires e == Block(R, q, p0, s - 1) && o == Block(R, q, p1, s - 1) && Butterflies(R, w, e, o, lo, hi)
    requires y0 == Stage(R, w, done, s) && y0' == y0 + (lo + hi)
    ensures Multiple(|done'|, 2 * h) && Stage(R, w, done', s) == y0'
  {
    var blk := p0 + p1;
    assert blk[..h] == p0 && blk[h..] == p1;
    BlockFromHalves(R, w, q, blk, s, h, e, o, lo, hi);
    StageSnoc(R, w, done, blk, s, 2 * h, lo + hi);
  }

  lemma FrontBlocks<T>(R: Ring<T>, q: T, todo: seq<T>, s: nat, h: nat)
    returns (p0: seq<T>, p1: seq<T>, rest: seq<T>, e: seq<T>, o: seq<T>, y: seq<T>)
    requires h == Pow2(s) && |todo| >= 2 * h
    requires Multiple(|todo|, h) && Multiple(|todo| - h, h) && Multiple(|todo| - 2 * h, h)
    ensures todo == p0 + (p1 + rest) && |p0| == |p1| == h && Multiple(|rest|, h)
    ensures e == Block(R, q, p0, s) && o == Block(R, q, p1, s) && y == Stage(R, q, rest, s)
    ensures Stage(R, q, todo, s) == e + (o + y)
  {
    p0, p1, rest := todo[..h], todo[h..2 * h], todo[2 * h..];
    assert todo == p0 + (p1 + rest) && |p1 + rest| == |todo| - h;
    StageFrontPair(R, q, p0, p1, rest, s, h);
    e, o, y := Block(R, q, p0, s), Block(R, q, p1, s), Stage(R, q, rest, s);
  }

  lemma RegroupBlocks<T>(a: seq<T>, b: seq<T>, c: seq<T>, d: seq<T>)
    ensures a + (b + (c + d)) == (a + (b + c)) + d
  {
  }

  lemma HalvesAreMultiples(n: nat, h: nat)
    requires h > 0 && n > 0 && Multiple(n, 2 * h)
    ensures n >= 2 * h && Multiple(n - 2 * h, 2 * h) && Multiple(n - 2 * h, h) && Multiple(n - h, h) && Multiple(n, h)
  {
    MultipleOfDouble(n - 2 * h, h);
    assert n - h - h == n - 2 * h;
  }

  /** The array `y` in the middle of a stage: the blocks of `done` are transformed, those of `todo` are not. */
  ghost predicate MidStage<T>(R: Ring<T>, w: T, q: T, s: nat, h: nat, done: seq<T>, todo: seq<T>, y: seq<T>)
    requires s > 0 && h == Pow2(s - 1)
  {
    && Multiple(|done|, 2 * h) && Multiple(|todo|, 2 * h) && Multiple(|todo|, h)
    && y == Stage(R, w, done, s) + Stage(R, q, todo, s - 1)
  }

  /** The next block before and after its butterflies, and the blocks around it. */
  lemma MidStagePieces<T>(R: Ring<T>, w: T, q: T, s: nat, h: nat, todo: seq<T>, y: seq<T>, y': seq<T>,
                          y0: seq<T>, y1: seq<T>)
    returns (p0: seq<T>, p1: seq<T>, rest: seq<T>, e: seq<T>, o: seq<T>, lo: seq<T>, hi: seq<T>,
             y0': seq<T>, y2: seq<T>)
    requires h == Pow2(s) && todo != [] && Multiple(|todo|, 2 * h) && Multiple(|todo|, h)
    requires y1 == Stage(R, q, todo, s) && y == y0 + y1 && OneBlock(R, w, y, y', |y0|, h)
    ensures todo == p0 + (p1 + rest) && |p0| == |p1| == h && Multiple(|rest|, 2 * h) && Multiple(|rest|, h)
    ensures e == Block(R, q, p0, s) && o == Block(R, q, p1, s) && y2 == Stage(R, q, rest, s)
    ensures Butterflies(R, w, e, o, lo, hi) && y0' == y0 + (lo + hi) && y' == y0' + y2
  {
    HalvesAreMultiples(|todo|, h);
    p0, p1, rest, e, o, y2 := FrontBlocks(R, q, todo, s, h);
    lo, hi, y0' := ButterflyPieces(R, w, h, y, y', y0, e, o, y2);
  }

  lemma JoinMidStage<T>(R: Ring<T>, w: T, q: T, s: nat, h: nat, done: seq<T>, todo: seq<T>, y: seq<T>,
                        y0: seq<T>, y1: seq<T>)
    requires s > 0 && h == Pow2(s - 1) && Multiple(|done|, 2 * h) && Multiple(|todo|, 2 * h) && Multiple(|todo|, h)
    requires y0 == Stage(R, w, done, s) && y1 == Stage(R, q, todo, s - 1) && y == y0 + y1
    ensures MidStage(R, w, q, s, h, done, todo, y)
  {
  }

  lemma NextMidStage<T(!new)>(R: Ring<T>, w: T, q: T, s: nat, h: nat, done: seq<T>, todo: seq<T>, y: seq<T>, y': seq<T>)
    returns (done': seq<T>, todo': seq<T>)
    requires IsCommutativeRing(R) && s > 0 && h == Pow2(s - 1) && HalfTurn(R, w, h) && q == R.mul(w, w)
    requires MidStage(R, w, q, s, h, done, todo, y) && todo != [] && OneBlock(R, w, y, y', |done|, h)
    ensures done' + todo' == done + todo && |done'| == |done| + 2 * h
    ensures MidStage(R, w, q, s, h, done', todo', y')
  {
    var y0, y1 := Stage(R, w, done, s), Stage(R, q, todo, s - 1);
    var p0, p1, rest, e, o, lo, hi, y0', y2 := MidStagePieces(R, w, q, s - 1, h, todo, y, y', y0, y1);
    done', todo' := done + (p0 + p1), rest;
    RegroupBlocks(done, p0, p1, rest);
    NextBlock(R, w, q, s, h, done, p0, p1, done', e, o, lo, hi, y0, y0');
    JoinMidStage(R, w, q, s, h, done', todo', y', y0', y2);
  }

  /** One butterfly stage over the whole array. */
  method StagePass<T(!new)>(R: Ring<T>, wlen: T, a: array<T>, len: nat, ghost p: seq<T>, ghost q: T, ghost s: nat)
    requires IsCommutativeRing(R) && s > 0 && len == Pow2(s) && HalfTurn(R, wlen, Pow2(s - 1)) && q == R.mul(wlen, wlen)
    requires a.Length == |p| && Multiple(|p|, len) && Multiple(|p|, Pow2(s - 1)) && a[..] == Stage(R, q, p, s - 1)
    modifies a
    ensures a[..] == Stage(R, wlen, p, s)
  {
    ghost var h, done, todo := Pow2(s - 1), [], p;
    var i := 0;
    assert Multiple(0, len);
    assert [] + Stage(R, q, p, s - 1) == a[..] && [] + p == p;
    while i < a.Length
      invariant i == |done| && p == done + todo && MidStage(R, wlen, q, s, h, done, todo, a[..])
      decreases a.Length - i
    {
      ghost var y := a[..];
      HalvesAreMultiples(|todo|, h);
      assert len / 2 == h;
      ButterflyBlock(R, wlen, a, i, len / 2);
      ghost var y' := a[..];
      assert OneBlock(R, wlen, y, y', i, h);
      done, todo := NextMidStage(R, wlen, q, s, h, done, todo, y, y');
      i := i + len;
    }
    assert todo == [] && done == p && Stage(R, wlen, p, s) + [] == a[..];
  }

  lemma {:induction false} StageZero<T(!new)>(R: Ring<T>, w: T, p: seq<T>)
    requires IsCommutativeRing(R)
    ensures Multiple(|p|, Pow2(0)) && Stage(R, w, p, 0) == p
    decreases |p|
  {
    if p != [] {
      StageZero(R, w, p[1..]);
      SingletonTransform(R, w, p[..1]);
      assert p == p[..1] + p[1..];
    }
  }

  /** `root(len)` is a root of unity of order `len`: for 2 it is -1, and each squares to that of half the order. */
  ghost predicate Roots<T(!new)>(R: Ring<T>, root: nat -> T, m: nat) {
    && root(2) == R.neg(R.one)
    && (forall s | 0 <= s < m :: root(Pow2(s)) == R.mul(root(2 * Pow2(s)), root(2 * Pow2(s))))
  }

  lemma {:induction false} RootHalfTurn<T(!new)>(R: Ring<T>, root: nat -> T, m: nat, s: nat)
    requires IsCommutativeRing(R) && Roots(R, root, m) && 0 < s <= m
    ensures HalfTurn(R, root(Pow2(s)), Pow2(s - 1))
    decreases s
  {
    if s == 1 {
      assert Pow2(1) == 2 * Pow2(0) && Pow2(0) == 1;
      assert Pow(R, root(2), 1) == R.mul(Pow(R, root(2), 0), root(2));
      MulOne(R, root(2));
    } else {
      RootHalfTurn(R, root, m, s - 1);
      var w, h := root(Pow2(s)), Pow2(s - 2);
      assert root(Pow2(s - 1)) == R.mul(w, w);
      PowSquare(R, w, h);
      PowAdd(R, w, h, h);
    }
  }

  lemma WholeBlock<T(!new)>(R: Ring<T>, w: T, p: seq<T>, x: seq<T>, m: nat, y: seq<T>)
    requires |p| == |x| == Pow2(m) && Multiple(|p|, Pow2(m)) && y == Stage(R, w, p, m)
    requires forall k | 0 <= k < |x| :: Rev(k, m) < |x| && p[k] == x[Rev(k, m)]
    ensures y == Transform(R, w, x)
  {
    StageOneBlock(R, w, p, m, Block(R, w, p, m));
    UnrevOfReversed(x, p, m);
  }

  lemma NextStage<T(!new)>(R: Ring<T>, root: nat -> T, n: nat, m: nat, s: nat, w: T, len: nat, wlen: T)
    requires IsCommutativeRing(R) && Roots(R, root, m) && n == Pow2(m) && len == Pow2(s + 1) && len <= n
    requires w == root(Pow2(s)) && wlen == root(len)
    ensures s < m && HalfTurn(R, wlen, Pow2(s)) && Multiple(n, len) && w == R.mul(wlen, wlen)
  {
    Pow2Order(s + 1, m);
    RootHalfTurn(R, root, m, s + 1);
    PowerIsMultiple(m, s + 1);
  }

  /** All the stages, on a bit-reversed array. */
  method Stages<T(!new)>(R: Ring<T>, root: nat -> T, a: array<T>, ghost m: nat)
    requires IsCommutativeRing(R) && a.Length == Pow2(m) && Roots(R, root, m)
    modifies a
    ensures Multiple(a.Length, Pow2(m)) && a[..] == Stage(R, root(a.Length), old(a[..]), m)
  {
    ghost var p, s, w := a[..], 0, root(1);
    var n, len := a.Length, 2;
    StageZero(R, w, p);
    while len <= n
      invariant s <= m && len == Pow2(s + 1) && w == root(Pow2(s))
      invariant Multiple(n, Pow2(s)) && a[..] == Stage(R, w, p, s)
      decreases n + 1 - len
    {
      var wlen := root(len);
      NextStage(R, root, n, m, s, w, len, wlen);
      StagePass(R, wlen, a, len, p, w, s + 1);
      s, w, len := s + 1, wlen, len * 2;
    }
    Pow2Order(s, m);
  }

  lemma {:induction false} Pow2Order(s: nat, m: nat)
    ensures Pow2(s) <= Pow2(m) ==> s <= m
    ensures s < m ==> Pow2(s + 1) <= Pow2(m)
    decreases m
  {
    if s > 0 && m > 0 {
      Pow2Order(s - 1, m - 1);
    }
  }

  /** The in-place transform; the inverse one uses the inverse roots and multiplies by 1/n at the end. */
  method Run<T(!new)>(R: Ring<T>, root: bool -> nat -> T, ninv: T, a: array<T>, inv: bool, ghost m: nat)
    requires IsCommutativeRing(R) && a.Length == Pow2(m) && Roots(R, root(inv), m)
    modifies a
    ensures a[..] == var y := Transform(R, root(inv)(a.Length), old(a[..])); if inv then ScaleSeq(R, ninv, y) else y
  {
    ghost var x := a[..];
    BitReverse(a, m);
    ghost var p := a[..];
    Stages(R, root(inv), a, m);
    WholeBlock(R, root(inv)(a.Length), p, x, m, a[..]);
    if inv {
      Scale(R, ninv, a);
    }
  }

  method Scale<T>(R: Ring<T>, c: T, a: array<T>)
    modifies a
    ensures a[..] == ScaleSeq(R, c, old(a[..]))
  {
    for k := 0 to a.Length
      invariant forall j | 0 <= j < a.Length :: a[j] == if j < k then R.mul(c, old(a[j])) else old(a[j])
    {
      a[k] := R.mul(c, a[k]);
    }
  }

  /** The inverse call undoes the forward call whenever the two roots are inverse and `ninv` is 1/n. */
  lemma InverseUndoesForward<T(!new)>(R: Ring<T>, root: bool -> nat -> T, ninv: T, m: nat, x: seq<T>)
    requires IsCommutativeRing(R) && |x| == Pow2(m) && Roots(R, root(false), m) && Roots(R, root(true), m)
    requires R.mul(root(false)(|x|), root(true)(|x|)) == R.one && R.mul(ninv, Times(R, |x|, R.one)) == R.one
    ensures ScaleSeq(R, ninv, Transform(R, root(true)(|x|), Transform(R, root(false)(|x|), x))) == x
  {
    var w, v, n := root(false)(|x|), root(true)(|x|), Times(R, |x|, R.one);
    if m > 0 {
      RootHalfTurn(R, root(false), m, m);
      RootHalfTurn(R, root(true), m, m);
    }
    InverseTransform(R, w, v, m, x);
    forall k | 0 <= k < |x|
      ensures R.mul(ninv, R.mul(n, x[k])) == x[k]
    {
      MulAssoc(R, ninv, n, x[k]);
      MulOne(R, x[k]);
    }
  }
}
