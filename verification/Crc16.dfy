/** CRC-16-CCITT (polynomial 0x1021, initial value 0xFFFF) as division of bit strings, and what it detects. */
module Crc16 {
  import opened Bits

  // The remainder register: the coefficients of x^15 down to x^0.
  type Remainder = r: seq<Bit> | |r| == 16
    witness Zeros(16)

  const ZERO: Remainder := Zeros(16)
  const INITIAL: Remainder :=
    [true, true, true, true, true, true, true, true, true, true, true, true, true, true, true, true]

  // x^16 + x^12 + x^5 + 1 without its leading term.
  const POLYNOMIAL: Remainder :=
    [false, false, false, true, false, false, false, false, false, false, true, false, false, false, false, true]

  function Shift(r: Remainder): Remainder {
    r[1..] + [false]
  }

  /** Divides one more bit into the remainder. */
  function Feed(r: Remainder, b: Bit): Remainder {
    if r[0] != b then Xor(Shift(r), POLYNOMIAL) else Shift(r)
  }

  function FeedAll(r: Remainder, bits: seq<Bit>): Remainder {
    if bits == [] then r else Feed(FeedAll(r, bits[..|bits| - 1]), bits[|bits| - 1])
  }

  /** The CRC of a bit string: the remainder that the transmitter appends. */
  function Crc(bits: seq<Bit>): Remainder {
    FeedAll(INITIAL, bits)
  }

  // ---- division is linear ----

  lemma FeedLinear(r: Remainder, s: Remainder, b: Bit, c: Bit)
    ensures Feed(Xor(r, s), b != c) == Xor(Feed(r, b), Feed(s, c))
  {
    assert Shift(Xor(r, s)) == Xor(Shift(r), Shift(s));
  }

  lemma {:induction false} FeedAllLinear(r: Remainder, s: Remainder, u: seq<Bit>, v: seq<Bit>)
    requires |u| == |v|
    ensures FeedAll(Xor(r, s), Xor(u, v)) == Xor(FeedAll(r, u), FeedAll(s, v))
  {
    if u != [] {
      var n := |u| - 1;
      assert Xor(u, v)[..n] == Xor(u[..n], v[..n]);
      FeedAllLinear(r, s, u[..n], v[..n]);
      FeedLinear(FeedAll(r, u[..n]), FeedAll(s, v[..n]), u[n], v[n]);
    }
  }

  lemma {:induction false} FeedSplit(r: Remainder, u: seq<Bit>, v: seq<Bit>)
    ensures FeedAll(r, u + v) == FeedAll(FeedAll(r, u), v)
  {
    if v == [] {
      assert u + v == u;
    } else {
      var n := |v| - 1;
      assert (u + v)[..|u + v| - 1] == u + v[..n];
      FeedSplit(r, u, v[..n]);
    }
  }

  /** A zero bit never clears a non-zero remainder: the polynomial has a constant term. */
  lemma ZeroBitKeepsNonZero(r: Remainder)
    ensures Feed(r, false) == ZERO <==> r == ZERO
  {
    if r[0] {
      assert Feed(r, false)[15] && !ZERO[15];
    } else if Feed(r, false) == ZERO {
      assert forall i | 1 <= i < 16 :: r[i] == Shift(r)[i - 1];
    }
  }

  lemma {:induction false} ZerosKeepNonZero(r: Remainder, n: nat)
    ensures FeedAll(r, Zeros(n)) == ZERO <==> r == ZERO
  {
    if n > 0 {
      assert Zeros(n)[..n - 1] == Zeros(n - 1);
      ZerosKeepNonZero(r, n - 1);
      ZeroBitKeepsNonZero(FeedAll(r, Zeros(n - 1)));
    }
  }

  // ---- appending the remainder makes the whole divisible ----

  /** Sixteen more bits: what is left is the difference from the register, shifted and divided. */
  lemma {:induction false} FeedWord(r: Remainder, w: Remainder, n: nat)
    requires n <= 16
    ensures FeedAll(r, w[..n]) == Xor(FeedAll(Xor(r, w), Zeros(n)), w[n..] + Zeros(n))
  {
    if n == 0 {
      assert w[0..] + Zeros(0) == w;
      assert Xor(Xor(r, w), w) == r;
    } else {
      FeedWord(r, w, n - 1);
      assert w[..n][..n - 1] == w[..n - 1] && Zeros(n)[..n - 1] == Zeros(n - 1);
      var d := FeedAll(Xor(r, w), Zeros(n - 1));
      FeedPending(d, w[n - 1..] + Zeros(n - 1));
      assert (w[n - 1..] + Zeros(n - 1))[1..] + [false] == w[n..] + Zeros(n);
    }
  }

  lemma FeedPending(d: Remainder, p: Remainder)
    ensures Feed(Xor(d, p), p[0]) == Xor(Feed(d, false), Shift(p))
  {
    FeedLinear(d, p, false, p[0]);
  }

  /** A word with sixteen check bits divides evenly exactly when they are the CRC of what precedes them. */
  lemma CheckBitsDivide(bits: seq<Bit>, check: Remainder)
    ensures FeedAll(INITIAL, bits + check) == ZERO <==> Crc(bits) == check
  {
    var r := Crc(bits);
    var d := FeedAll(Xor(r, check), Zeros(16));
    FeedSplit(INITIAL, bits, check);
    FeedWord(r, check, 16);
    assert check[..16] == check && check[16..] + Zeros(16) == ZERO;
    assert Xor(d, ZERO) == d;
    ZerosKeepNonZero(Xor(r, check), 16);
    XorIsZero(r, check);
  }

  // ---- what the preset does ----

  /** The bits with the first sixteen inverted. */
  function Inverted(bits: seq<Bit>): (r: seq<Bit>)
    ensures |r| == |bits|
  {
    seq(|bits|, i requires 0 <= i < |bits| => if i < 16 then !bits[i] else bits[i])
  }

  /** The CRC is the plain remainder, from an empty register, of the same bits with the first sixteen inverted. */
  lemma PresetInverts(bits: seq<Bit>)
    requires |bits| >= 16
    ensures Crc(bits) == FeedAll(Zeros(16), Inverted(bits))
  {
    var head, tail := bits[..16], bits[16..];
    var flipped := Inverted(bits)[..16];
    assert bits == head + tail && Inverted(bits) == flipped + tail;
    FeedSplit(INITIAL, head, tail);
    FeedSplit(ZERO, flipped, tail);
    FeedWord(INITIAL, head, 16);
    FeedWord(ZERO, flipped, 16);
    assert head[..16] == head && flipped[..16] == flipped && head[16..] == flipped[16..] == [];
    assert Xor(INITIAL, head) == flipped == Xor(ZERO, flipped);
  }

  /** No string of zeros is divisible. */
  lemma ZerosDoNotDivide(n: nat)
    ensures FeedAll(INITIAL, Zeros(n)) != Zeros(16)
  {
    ZerosKeepNonZero(INITIAL, n);
    assert INITIAL[0] && !ZERO[0];
  }

  lemma XorIsZero(r: Remainder, s: Remainder)
    ensures Xor(r, s) == ZERO <==> r == s
  {
    if Xor(r, s) == ZERO {
      forall i | 0 <= i < 16
        ensures r[i] == s[i]
      {
        assert Xor(r, s)[i] == ZERO[i];
      }
    }
  }

  // ---- detected error patterns ----

  /** Division of a corrupted word by the polynomial sees only the error pattern. */
  lemma SyndromeOfError(word: seq<Bit>, e: seq<Bit>)
    requires |word| == |e| && FeedAll(INITIAL, word) == ZERO
    ensures FeedAll(INITIAL, Xor(word, e)) == FeedAll(ZERO, e)
  {
    FeedAllLinear(INITIAL, ZERO, word, e);
    assert Xor(INITIAL, ZERO) == INITIAL;
    assert Xor(ZERO, FeedAll(ZERO, e)) == FeedAll(ZERO, e);
  }

  /** Some coefficient of x^j or lower is set. */
  ghost predicate LowCoefficient(r: Remainder, j: nat) {
    exists i | 15 - j <= i < 16 :: i >= 0 && r[i]
  }

  lemma FeedKeepsLowCoefficient(r: Remainder, b: Bit, j: nat)
    requires j < 15 && LowCoefficient(r, j)
    ensures LowCoefficient(Feed(r, b), j + 1)
  {
    var i :| 15 - j <= i < 16 && i >= 0 && r[i];
    if r[0] != b {
      assert Feed(r, b)[15];
    } else {
      assert Feed(r, b)[i - 1];
    }
  }

  lemma {:induction false} BurstKeepsNonZero(r: Remainder, bits: seq<Bit>)
    requires |bits| <= 15 && LowCoefficient(r, 0)
    ensures LowCoefficient(FeedAll(r, bits), |bits|)
  {
    if bits != [] {
      var n := |bits| - 1;
      BurstKeepsNonZero(r, bits[..n]);
      FeedKeepsLowCoefficient(FeedAll(r, bits[..n]), bits[n], n);
    }
  }

  /** All the ones of `e` lie among the sixteen positions from `a` on. */
  ghost predicate WithinSixteen(e: seq<Bit>, a: nat) {
    forall i | 0 <= i < |e| && e[i] :: a <= i < a + 16
  }

  ghost function FirstOne(e: seq<Bit>): (p: nat)
    requires true in e
    ensures p < |e| && e[p] && forall i | 0 <= i < p :: !e[i]
  {
    if e[0] then 0 else 1 + FirstOne(e[1..])
  }

  lemma BurstIsDetected(e: seq<Bit>, a: nat)
    requires true in e && WithinSixteen(e, a)
    ensures FeedAll(ZERO, e) != ZERO
  {
    var p := FirstOne(e);
    var q := if a + 16 <= |e| then a + 16 else |e|;
    var middle := e[p + 1..q];
    assert e == Zeros(p) + ([true] + middle) + Zeros(|e| - q);
    FeedSplit(ZERO, Zeros(p) + ([true] + middle), Zeros(|e| - q));
    FeedSplit(ZERO, Zeros(p), [true] + middle);
    FeedSplit(ZERO, [true], middle);
    ZerosKeepNonZero(ZERO, p);
    var first := Feed(ZERO, true);
    assert [true][..0] == [] && FeedAll(ZERO, [true]) == first;
    assert first[15];
    BurstKeepsNonZero(first, middle);
    ZerosKeepNonZero(FeedAll(first, middle), |e| - q);
  }

  // ---- an odd number of errors: the polynomial is divisible by x + 1 ----

  lemma PolynomialParity()
    ensures Weight(POLYNOMIAL) % 2 == 1
  {
    var p := POLYNOMIAL;
    assert p == Zeros(3) + [true] + Zeros(6) + [true] + Zeros(4) + [true];
    WeightConcat(Zeros(3) + [true] + Zeros(6) + [true] + Zeros(4), [true]);
    WeightConcat(Zeros(3) + [true] + Zeros(6) + [true], Zeros(4));
    WeightConcat(Zeros(3) + [true] + Zeros(6), [true]);
    WeightConcat(Zeros(3) + [true], Zeros(6));
    WeightConcat(Zeros(3), [true]);
    WeightZeroMeansZeros(Zeros(3));
    WeightZeroMeansZeros(Zeros(6));
    WeightZeroMeansZeros(Zeros(4));
    assert [true][..0] == [];
  }

  lemma ParityOfFeed(r: Remainder, b: Bit)
    ensures Weight(Feed(r, b)) % 2 == (Weight(r) + Value(b)) % 2
  {
    assert r == [r[0]] + r[1..];
    WeightConcat([r[0]], r[1..]);
    WeightConcat(r[1..], [false]);
    assert [r[0]][..0] == [] && [false][..0] == [];
    XorParity(Shift(r), POLYNOMIAL);
    PolynomialParity();
  }

  lemma {:induction false} RemainderParity(e: seq<Bit>)
    ensures Weight(FeedAll(ZERO, e)) % 2 == Weight(e) % 2
  {
    if e == [] {
      WeightZeroMeansZeros(ZERO);
    } else {
      var n := |e| - 1;
      RemainderParity(e[..n]);
      ParityOfFeed(FeedAll(ZERO, e[..n]), e[n]);
    }
  }

  lemma OddErrorsAreDetected(e: seq<Bit>)
    requires Weight(e) % 2 == 1
    ensures FeedAll(ZERO, e) != ZERO
  {
    RemainderParity(e);
    WeightZeroMeansZeros(ZERO);
  }
}
