/** Unsigned numbers of any width and their bits, most significant first. */
module BinaryNumbers {
  import opened Arithmetic
  import opened Bits

  function Pow2(n: nat): (p: nat)
    ensures p >= 1
  {
    if n == 0 then 1 else 2 * Pow2(n - 1)
  }

  function NumberOf(bits: seq<Bit>): nat {
    if bits == [] then 0 else 2 * NumberOf(bits[..|bits| - 1]) + Value(bits[|bits| - 1])
  }

  /** The lowest `n` bits of `c`. */
  function BitsOf(c: nat, n: nat): (bits: seq<Bit>)
    ensures |bits| == n
    decreases c, n
  {
    if n == 0 then [] else BitsOf(c / 2, n - 1) + [c % 2 == 1]
  }

  lemma {:induction false} NumberOfBitsOf(c: nat, n: nat)
    ensures c < Pow2(n) ==> NumberOf(BitsOf(c, n)) == c
    decreases n
  {
    if n > 0 {
      NumberOfBitsOf(c / 2, n - 1);
    }
  }

  lemma {:induction false} BitsOfNumberOf(bits: seq<Bit>)
    ensures NumberOf(bits) < Pow2(|bits|) && BitsOf(NumberOf(bits), |bits|) == bits
  {
    if bits != [] {
      var n := |bits| - 1;
      BitsOfNumberOf(bits[..n]);
      assert NumberOf(bits) / 2 == NumberOf(bits[..n]);
      assert bits == bits[..n] + [bits[n]];
    }
  }

  lemma NumberOfSnoc(bits: seq<Bit>, b: Bit)
    ensures NumberOf(bits + [b]) == 2 * NumberOf(bits) + Value(b)
  {
    assert (bits + [b])[..|bits|] == bits;
  }

  /** The right shift `c >> b`. */
  function Shr(c: nat, b: nat): nat
    decreases c, b
  {
    if b == 0 then c else Shr(c / 2, b - 1)
  }

  lemma {:induction false} ShrOneMore(c: nat, b: nat)
    ensures Shr(c, b + 1) == Shr(c, b) / 2
    decreases b
  {
    if b > 0 {
      ShrOneMore(c / 2, b - 1);
    }
  }

  lemma HalfOfQuotient(c: nat, p: nat)
    requires p > 0
    ensures c / 2 / p == c / (2 * p)
  {
    var q, r := c / 2 / p, c / 2 % p;
    assert c / 2 == q * p + r;
    assert q * (2 * p) == 2 * (q * p);
    QuotientAndRest(2 * p, q, 2 * r + c % 2, c);
  }

  lemma {:induction false} ShrIsQuotient(c: nat, b: nat)
    ensures Shr(c, b) == c / Pow2(b)
    decreases b
  {
    if b > 0 {
      ShrIsQuotient(c / 2, b - 1);
      HalfOfQuotient(c, Pow2(b - 1));
    }
  }

  lemma {:induction false} BitIsShifted(c: nat, n: nat, k: nat)
    requires k < n
    ensures BitsOf(c, n)[k] <==> Shr(c, n - 1 - k) % 2 == 1
    decreases n
  {
    if k < n - 1 {
      BitIsShifted(c / 2, n - 1, k);
    }
  }

  /** The bits of a number are its binary digits, the one of weight 2^(n-1) first. */
  lemma BitIsDigit(c: nat, n: nat, k: nat)
    requires k < n
    ensures BitsOf(c, n)[k] <==> c / Pow2(n - 1 - k) % 2 == 1
  {
    BitIsShifted(c, n, k);
    ShrIsQuotient(c, n - 1 - k);
  }

  /** One more bit of `c`, from the top: bit `b` follows the `n` bits above it. */
  lemma NextBit(c: nat, b: nat, n: nat)
    ensures BitsOf(Shr(c, b), n + 1) == BitsOf(Shr(c, b + 1), n) + [Shr(c, b) % 2 == 1]
  {
    ShrOneMore(c, b);
  }

  /** The loop that emits bit `width - 1` down to bit 0. */
  method EmitBits(c: nat, width: nat, out: seq<Bit>) returns (r: seq<Bit>)
    ensures r == out + BitsOf(c, width)
  {
    r := out;
    assert out + [] == out;
    for b := width downto 0
      invariant r == out + BitsOf(Shr(c, b), width - b)
    {
      NextBit(c, b, width - b - 1);
      r := r + [Shr(c, b) % 2 == 1];
    }
  }

  /** The loop that shifts the given bits into a number that starts at zero. */
  method CollectBits(bits: seq<Bit>) returns (c: nat)
    ensures c == NumberOf(bits) && c < Pow2(|bits|)
  {
    c := 0;
    for b := 0 to |bits|
      invariant c == NumberOf(bits[..b])
    {
      assert bits[..b + 1][..b] == bits[..b];
      c := 2 * c + Value(bits[b]);
    }
    assert bits[..|bits|] == bits;
    BitsOfNumberOf(bits);
  }
}
