/** The rate-1/2, constraint-length-7 convolutional code with generators 171 and 133 (octal). */
module ConvolutionalCode {
  import opened Bits

  const K := 7
  const G1: bv8 := 0x79 // 0171
  const G2: bv8 := 0x5B // 0133

  const FLUSH: seq<Bit> := Zeros(K - 1)

  /** The delay line: `dk` is the bit clocked in `k` steps before the one now at the input. */
  datatype Register = Register(d1: Bit, d2: Bit, d3: Bit, d4: Bit, d5: Bit, d6: Bit)

  const EMPTY := Register(false, false, false, false, false, false)

  /** Generator 171 (octal): the input and its delays by 1, 2, 3 and 6. */
  function Out1(s: Register, b: Bit): Bit {
    ((b != s.d1) != (s.d2 != s.d3)) != s.d6
  }

  /** Generator 133 (octal): the input and its delays by 2, 3, 5 and 6. */
  function Out2(s: Register, b: Bit): Bit {
    ((b != s.d2) != (s.d3 != s.d5)) != s.d6
  }

  function Pair(s: Register, b: Bit): (r: seq<Bit>)
    ensures |r| == 2
  {
    [Out1(s, b), Out2(s, b)]
  }

  function Next(s: Register, b: Bit): Register {
    Register(b, s.d1, s.d2, s.d3, s.d4, s.d5)
  }

  /** The register after clocking in `m`. */
  function StateAfter(s: Register, m: seq<Bit>): Register {
    if m == [] then s else Next(StateAfter(s, m[..|m| - 1]), m[|m| - 1])
  }

  /** The coded bits produced while clocking in `m`, two per input bit. */
  function Outputs(s: Register, m: seq<Bit>): (r: seq<Bit>)
    ensures |r| == 2 * |m|
  {
    if m == [] then []
    else
      var front, last := m[..|m| - 1], m[|m| - 1];
      Outputs(s, front) + Pair(StateAfter(s, front), last)
  }

  lemma RunSnoc(s: Register, m: seq<Bit>, b: Bit)
    ensures StateAfter(s, m + [b]) == Next(StateAfter(s, m), b)
    ensures Outputs(s, m + [b]) == Outputs(s, m) + Pair(StateAfter(s, m), b)
  {
    assert (m + [b])[..|m|] == m;
  }

  /** The codeword of message `m`: an empty register, then six flush bits. */
  function Encode(m: seq<Bit>): (r: seq<Bit>)
    ensures |r| == 2 * (|m| + K - 1)
  {
    Outputs(EMPTY, m + FLUSH)
  }

  // ---- the byte-wide shift register that implements the delay line ----

  function Byte(b: Bit): bv8 {
    if b then 1 else 0
  }

  /** The exclusive or of the eight bits of a byte, by folding. */
  function Parity(x: bv8): Bit {
    var x4 := x ^ (x >> 4);
    var x2 := x4 ^ (x4 >> 2);
    var x1 := x2 ^ (x2 >> 1);
    x1 & 1 == 1
  }

  function ShiftIn(x: bv8, b: Bit): bv8 {
    ((x >> 1) | (Byte(b) << 5)) & 0x3F
  }

  function Masked(x: bv8, b: Bit, g: bv8): Bit {
    Parity((x | (Byte(b) << 6)) & g)
  }

  function FromByte(x: bv8): Register {
    Register(x & 32 != 0, x & 16 != 0, x & 8 != 0, x & 4 != 0, x & 2 != 0, x & 1 != 0)
  }

  lemma ByteRegisterShifts(x: bv8, b: Bit)
    requires x < 64
    ensures ShiftIn(x, b) < 64 && FromByte(ShiftIn(x, b)) == Next(FromByte(x), b)
  {
  }

  /** Masking the register with the input on top and folding the parity computes the generators. */
  lemma ParityOfMask(x: bv8, b: Bit)
    requires x < 64
    ensures Masked(x, b, G1) == Out1(FromByte(x), b)
    ensures Masked(x, b, G2) == Out2(FromByte(x), b)
  {
  }

  lemma EmptyByte(x: bv8)
    requires x < 64
    ensures FromByte(x) == EMPTY <==> x == 0
  {
  }

  // ---- the 64 states as numbers, the newest bit most significant ----

  function Index(s: Register): (n: nat)
    ensures n < 64
  {
    32 * Value(s.d1) + 16 * Value(s.d2) + 8 * Value(s.d3) + 4 * Value(s.d4) + 2 * Value(s.d5) + Value(s.d6)
  }

  function FromIndex(n: nat): Register
    requires n < 64
  {
    var n5 := if n >= 32 then n - 32 else n;
    var n4 := if n5 >= 16 then n5 - 16 else n5;
    var n3 := if n4 >= 8 then n4 - 8 else n4;
    var n2 := if n3 >= 4 then n3 - 4 else n3;
    var n1 := if n2 >= 2 then n2 - 2 else n2;
    Register(n >= 32, n5 >= 16, n4 >= 8, n3 >= 4, n2 >= 2, n1 >= 1)
  }

  lemma IndexOfFromIndex(n: nat)
    requires n < 64
    ensures Index(FromIndex(n)) == n
  {
  }

  lemma IndexInjective(s: Register, t: Register)
    ensures Index(s) == Index(t) <==> s == t
  {
  }

  lemma IndexOfNext(s: Register, b: Bit)
    ensures Index(Next(s, b)) == Index(s) / 2 + 32 * Value(b)
  {
  }

  lemma IndexOfByte(x: bv8)
    requires x < 64
    ensures Index(FromByte(x)) == x as int
  {
  }

  lemma ByteValue(n: nat)
    requires n < 64
    ensures (n as bv8) as int == n
  {
  }

  lemma ByteBelow64(x: bv8)
    requires x as int < 64
    ensures x < 64
  {
  }

  class ConvolutionalEncoder {
    var shiftReg: bv8
    ghost var line: Register // the delay line that `shiftReg` implements

    ghost predicate Valid()
      reads this
    {
      shiftReg < 64 && FromByte(shiftReg) == line
    }

    constructor ()
      ensures Valid() && line == EMPTY
    {
      shiftReg, line := 0, EMPTY;
    }

    method Reset()
      modifies this
      ensures Valid() && line == EMPTY
    {
      shiftReg, line := 0, EMPTY;
    }

    method ClockBit(b: Bit, out: seq<Bit>) returns (r: seq<Bit>)
      requires Valid()
      modifies this
      ensures Valid() && line == Next(old(line), b)
      ensures r == out + Pair(old(line), b)
    {
      ParityOfMask(shiftReg, b);
      ByteRegisterShifts(shiftReg, b);
      r := out + [Masked(shiftReg, b, G1)];
      r := r + [Masked(shiftReg, b, G2)];
      shiftReg := ShiftIn(shiftReg, b);
      line := Next(line, b);
    }

    /** Six flush bits always empty the register, so only the first call depends on its past. */
    method EncodeBits(bits: seq<Bit>) returns (out: seq<Bit>)
      requires Valid()
      modifies this
      ensures out == Outputs(old(line), bits + FLUSH)
      ensures old(line) == EMPTY ==> out == Encode(bits)
      ensures Valid() && line == EMPTY && shiftReg == 0
    {
      out := [];
      for i := 0 to |bits|
        invariant Valid()
        invariant out == Outputs(old(line), bits[..i]) && line == StateAfter(old(line), bits[..i])
      {
        assert bits[..i + 1] == bits[..i] + [bits[i]];
        RunSnoc(old(line), bits[..i], bits[i]);
        out := ClockBit(bits[i], out);
      }
      ghost var fed := bits[..|bits|];
      for i := 0 to K - 1
        invariant Valid()
        invariant fed == bits + Zeros(i)
        invariant out == Outputs(old(line), fed) && line == StateAfter(old(line), fed)
      {
        RunSnoc(old(line), fed, false);
        ZerosSnoc(i);
        fed := fed + [false];
        out := ClockBit(false, out);
      }
      FlushEmptiesRegister(old(line), bits);
      EmptyByte(shiftReg);
    }
  }

  // ---- the coded bits are the message convolved with the generators ----

  /** Bit `t` of the message, zero before it starts. */
  function At(m: seq<Bit>, t: int): Bit
    requires t < |m|
  {
    t >= 0 && m[t]
  }

  lemma {:induction false} DelayLineHoldsRecentBits(m: seq<Bit>)
    ensures var s := StateAfter(EMPTY, m); var t := |m|;
            s == Register(At(m, t - 1), At(m, t - 2), At(m, t - 3), At(m, t - 4), At(m, t - 5), At(m, t - 6))
  {
    if m != [] {
      var front := m[..|m| - 1];
      DelayLineHoldsRecentBits(front);
      assert forall i | i < |front| :: At(front, i) == At(m, i);
    }
  }

  lemma {:induction false} OutputsAreConvolution(m: seq<Bit>, t: nat)
    requires t < |m|
    ensures Outputs(EMPTY, m)[2 * t]
         == (((m[t] != At(m, t - 1)) != (At(m, t - 2) != At(m, t - 3))) != At(m, t - 6))
    ensures Outputs(EMPTY, m)[2 * t + 1]
         == (((m[t] != At(m, t - 2)) != (At(m, t - 3) != At(m, t - 5))) != At(m, t - 6))
  {
    var front := m[..|m| - 1];
    if t < |front| {
      OutputsAreConvolution(front, t);
      assert forall i | i < |front| :: At(front, i) == At(m, i);
    } else {
      DelayLineHoldsRecentBits(front);
      assert forall i | i < |front| :: At(front, i) == At(m, i);
    }
  }

  // ---- the code is linear over GF(2) ----

  function XorRegister(s: Register, t: Register): Register {
    Register(s.d1 != t.d1, s.d2 != t.d2, s.d3 != t.d3, s.d4 != t.d4, s.d5 != t.d5, s.d6 != t.d6)
  }

  lemma OutLinear(s: Register, t: Register, b: Bit, c: Bit)
    ensures Out1(XorRegister(s, t), b != c) == (Out1(s, b) != Out1(t, c))
    ensures Out2(XorRegister(s, t), b != c) == (Out2(s, b) != Out2(t, c))
  {
  }

  lemma XorOfPairs(a: Bit, b: Bit, c: Bit, d: Bit)
    ensures Xor([a, b], [c, d]) == [a != c, b != d]
  {
  }

  lemma PairLinear(s: Register, t: Register, b: Bit, c: Bit)
    ensures Pair(XorRegister(s, t), b != c) == Xor(Pair(s, b), Pair(t, c))
  {
    OutLinear(s, t, b, c);
    XorOfPairs(Out1(s, b), Out2(s, b), Out1(t, c), Out2(t, c));
  }

  lemma {:induction false} StateLinear(m: seq<Bit>, n: seq<Bit>)
    requires |m| == |n|
    ensures StateAfter(EMPTY, Xor(m, n)) == XorRegister(StateAfter(EMPTY, m), StateAfter(EMPTY, n))
  {
    if m != [] {
      var k := |m| - 1;
      StateLinear(m[..k], n[..k]);
      assert Xor(m, n)[..k] == Xor(m[..k], n[..k]);
    }
  }

  lemma {:induction false} OutputsLinear(m: seq<Bit>, n: seq<Bit>)
    requires |m| == |n|
    ensures Outputs(EMPTY, Xor(m, n)) == Xor(Outputs(EMPTY, m), Outputs(EMPTY, n))
  {
    if m != [] {
      var k := |m| - 1;
      var s, t := StateAfter(EMPTY, m[..k]), StateAfter(EMPTY, n[..k]);
      OutputsLinear(m[..k], n[..k]);
      StateLinear(m[..k], n[..k]);
      assert Xor(m, n)[..k] == Xor(m[..k], n[..k]);
      PairLinear(s, t, m[k], n[k]);
      XorConcat(Outputs(EMPTY, m[..k]), Outputs(EMPTY, n[..k]), Pair(s, m[k]), Pair(t, n[k]));
    }
  }

  lemma EncodeLinear(m: seq<Bit>, n: seq<Bit>)
    requires |m| == |n|
    ensures Encode(Xor(m, n)) == Xor(Encode(m), Encode(n))
  {
    OutputsLinear(m + FLUSH, n + FLUSH);
    assert Xor(m + FLUSH, n + FLUSH) == Xor(m, n) + FLUSH;
  }

  // ---- the register holds exactly the last six inputs ----

  lemma {:induction false} RunSplit(s: Register, m: seq<Bit>, n: seq<Bit>)
    ensures StateAfter(s, m + n) == StateAfter(StateAfter(s, m), n)
    ensures Outputs(s, m + n) == Outputs(s, m) + Outputs(StateAfter(s, m), n)
  {
    if n == [] {
      assert m + n == m;
    } else {
      var k := |n| - 1;
      assert (m + n)[..|m + n| - 1] == m + n[..k];
      RunSplit(s, m, n[..k]);
    }
  }

  lemma SixClocks(s: Register, a: Bit, b: Bit, c: Bit, d: Bit, e: Bit, f: Bit)
    ensures Next(Next(Next(Next(Next(Next(s, a), b), c), d), e), f) == EMPTY
        <==> !a && !b && !c && !d && !e && !f
  {
  }

  /** After six inputs the register is empty exactly when all six were zero, whatever it held before. */
  lemma LastSixInputs(s: Register, m: seq<Bit>, tail: seq<Bit>)
    requires |tail| == 6
    ensures StateAfter(s, m + tail) == EMPTY <==> tail == FLUSH
  {
    RunSplit(s, m, tail);
    var t := StateAfter(s, m);
    var t5, t4, t3, t2, t1, t0 := tail[..5], tail[..4], tail[..3], tail[..2], tail[..1], tail[..0];
    assert t5[..4] == t4 && t4[..3] == t3 && t3[..2] == t2 && t2[..1] == t1 && t1[..0] == t0;
    assert StateAfter(t, t1) == Next(t, tail[0]);
    assert StateAfter(t, t2) == Next(StateAfter(t, t1), tail[1]);
    assert StateAfter(t, t3) == Next(StateAfter(t, t2), tail[2]);
    assert StateAfter(t, t4) == Next(StateAfter(t, t3), tail[3]);
    assert StateAfter(t, t5) == Next(StateAfter(t, t4), tail[4]);
    assert StateAfter(t, tail) == Next(StateAfter(t, t5), tail[5]);
    SixClocks(t, tail[0], tail[1], tail[2], tail[3], tail[4], tail[5]);
  }

  lemma FlushEmptiesRegister(s: Register, m: seq<Bit>)
    ensures StateAfter(s, m + FLUSH) == EMPTY
  {
    LastSixInputs(s, m, FLUSH);
  }

  // ---- minimum distance 10 ----

  /**
   * A lower bound, capped at 10, on the weight collected since leaving the zero
   * state by any path that now stands in state `s`; state 0 means the path has returned.
   */
  function Potential(r: Register): (p: nat)
    ensures p <= 10
  {
    var s := Index(r);
    if s == 0 then 10
    else if s == 32 then 2
    else if s in {16, 40, 48} then 3
    else if s in {10, 12, 20, 21, 24, 38, 42, 51, 52, 56, 57} then 4
    else if s in {5, 8, 14, 26, 28, 34, 36, 37, 49, 58, 60, 61} then 5
    else if s in {6, 7, 13, 18, 19, 25, 30, 31, 39, 44, 45, 50, 53, 62, 63} then 6
    else if s in {1, 11, 33, 43} then 8
    else 7
  }

  /** No edge of the trellis outside the zero loop raises the potential by more than its weight. */
  lemma PotentialStep(s: Register, b: Bit)
    requires s != EMPTY
    ensures Potential(Next(s, b)) <= Potential(s) + Value(Out1(s, b)) + Value(Out2(s, b))
  {
  }

  lemma ZeroStateStep(b: Bit)
    ensures !b ==> Next(EMPTY, b) == EMPTY && !Out1(EMPTY, b) && !Out2(EMPTY, b)
    ensures b ==> Potential(Next(EMPTY, b)) == 2 && Out1(EMPTY, b) && Out2(EMPTY, b)
  {
  }

  lemma WeightOfPair(a: Bit, b: Bit)
    ensures Weight([a, b]) == Value(a) + Value(b)
  {
    assert [a, b][..1] == [a];
    assert Weight([a]) == Weight([]) + Value(a) by {
      assert [a][..0] == [];
    }
  }

  lemma {:induction false} WeightBound(m: seq<Bit>)
    ensures m == Zeros(|m|) ==> StateAfter(EMPTY, m) == EMPTY && Outputs(EMPTY, m) == Zeros(2 * |m|)
    ensures m != Zeros(|m|) ==> Weight(Outputs(EMPTY, m)) >= Potential(StateAfter(EMPTY, m))
  {
    if m != [] {
      var k := |m| - 1;
      var s, b := StateAfter(EMPTY, m[..k]), m[k];
      WeightBound(m[..k]);
      assert m == m[..k] + [b] && Zeros(|m|) == Zeros(k) + [false];
      WeightConcat(Outputs(EMPTY, m[..k]), Pair(s, b));
      WeightOfPair(Out1(s, b), Out2(s, b));
      if s == EMPTY {
        ZeroStateStep(b);
      } else {
        PotentialStep(s, b);
      }
    }
  }

  /** Two different messages of the same length have codewords at least ten bits apart. */
  lemma MinimumDistance(m: seq<Bit>, n: seq<Bit>)
    requires |m| == |n| && m != n
    ensures Distance(Encode(m), Encode(n)) >= 10
  {
    DistanceIsWeight(Encode(m), Encode(n));
    EncodeLinear(m, n);
    var d := Xor(m, n) + FLUSH;
    var i :| 0 <= i < |m| && m[i] != n[i];
    assert d[i] && !Zeros(|d|)[i];
    WeightBound(d);
    FlushEmptiesRegister(EMPTY, Xor(m, n));
  }
}
