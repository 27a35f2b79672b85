/** Bits to SF-bit symbols and back, most significant bit first. */
module SymbolPacking {
  import opened Arithmetic
  import opened Bits
  import opened BinaryNumbers
  import opened Chunks

  /** The first `SF` bits, with zeros after the last one. */
  function Group(bits: seq<Bit>, SF: nat): (group: seq<Bit>)
    ensures |group| == SF
  {
    if |bits| < SF then bits + Zeros(SF - |bits|) else bits[..SF]
  }

  function Symbols(bits: seq<Bit>, SF: nat): (syms: seq<nat>)
    requires SF > 0
    decreases |bits|
  {
    if bits == [] then [] else [NumberOf(Group(bits, SF))] + Symbols(From(bits, SF), SF)
  }

  function SymbolBits(syms: seq<nat>, SF: nat): seq<Bit> {
    if syms == [] then [] else SymbolBits(syms[..|syms| - 1], SF) + BitsOf(syms[|syms| - 1], SF)
  }

  method ReadSymbol(bits: seq<Bit>, i: nat, SF: nat) returns (s: nat)
    requires i < |bits|
    ensures s == NumberOf(Group(From(bits, i), SF))
  {
    s := 0;
    ghost var group := Group(From(bits, i), SF);
    for b := 0 to SF
      invariant s == NumberOf(group[..b])
    {
      NumberOfSnoc(group[..b], group[b]);
      assert group[..b] + [group[b]] == group[..b + 1];
      s := 2 * s;
      if i + b < |bits| {
        s := s + Value(bits[i + b]);
      }
    }
    assert group[..SF] == group;
  }

  lemma NextSymbol(rest: seq<Bit>, SF: nat, s: nat, syms: seq<nat>, tail: seq<nat>, more: seq<nat>)
    requires SF > 0 && rest != [] && tail == Symbols(rest, SF) && s == NumberOf(Group(rest, SF)) && more == tail[1..]
    ensures more == Symbols(From(rest, SF), SF) && syms + tail == syms + [s] + more
  {
  }

  method BitsToSymbols(bits: seq<Bit>, SF: nat) returns (syms: seq<nat>)
    requires SF > 0
    ensures syms == Symbols(bits, SF)
  {
    syms := [];
    var i := 0;
    ghost var all := Symbols(bits, SF);
    ghost var rest, tail := bits, all; // the bits not read, and their symbols
    while i < |bits|
      invariant rest == From(bits, i) && tail == Symbols(rest, SF) && syms + tail == all
      decreases |bits| - i
    {
      var s := ReadSymbol(bits, i, SF);
      FromFrom(bits, i, SF);
      NextSymbol(rest, SF, s, syms, tail, tail[1..]);
      rest, tail := From(rest, SF), tail[1..];
      syms := syms + [s];
      i := i + SF;
    }
  }

  method SymbolsToBits(syms: seq<nat>, SF: nat, nbits: nat) returns (bits: seq<Bit>)
    ensures var all := SymbolBits(syms, SF); bits == if nbits > 0 && |all| > nbits then all[..nbits] else all
  {
    bits := [];
    for k := 0 to |syms|
      invariant bits == SymbolBits(syms[..k], SF)
    {
      assert syms[..k + 1][..k] == syms[..k];
      bits := EmitBits(syms[k], SF, bits);
    }
    assert syms[..|syms|] == syms;
    if nbits > 0 && |bits| > nbits {
      bits := bits[..nbits];
    }
  }

  lemma {:induction false} SymbolBitsFront(s: nat, syms: seq<nat>, SF: nat)
    ensures SymbolBits([s] + syms, SF) == BitsOf(s, SF) + SymbolBits(syms, SF)
  {
    if syms == [] {
      assert ([s] + syms)[..0] == [];
    } else {
      var n := |syms| - 1;
      assert ([s] + syms)[..n + 1] == [s] + syms[..n];
      SymbolBitsFront(s, syms[..n], SF);
    }
  }

  /** Every symbol fits in SF bits. */
  lemma {:induction false} SymbolsFit(bits: seq<Bit>, SF: nat)
    requires SF > 0
    ensures forall k | 0 <= k < |Symbols(bits, SF)| :: Symbols(bits, SF)[k] < Pow2(SF)
    decreases |bits|
  {
    if bits != [] {
      BitsOfNumberOf(Group(bits, SF));
      SymbolsFit(From(bits, SF), SF);
    }
  }

  lemma GroupDigit(bits: seq<Bit>, SF: nat, b: nat)
    requires b < SF && b < |bits|
    ensures NumberOf(Group(bits, SF)) / Pow2(SF - 1 - b) % 2 == 1 <==> bits[b]
  {
    var group := Group(bits, SF);
    BitsOfNumberOf(group);
    BitIsDigit(NumberOf(group), SF, b);
  }

  /** The symbols from number `q` on are those of the bits after `q` groups. */
  lemma {:induction false} LaterSymbols(bits: seq<Bit>, SF: nat, q: nat, start: nat, syms: seq<nat>, later: seq<Bit>)
    requires SF > 0 && start == q * SF && start < |bits| && syms == Symbols(bits, SF) && later == From(bits, start)
    ensures q < |syms| && syms[q..] == Symbols(later, SF)
    decreases q
  {
    if q == 0 {
      assert later == bits && syms[0..] == syms;
    } else {
      var rest, tail := From(bits, SF), syms[1..];
      OneMultipleLess(q, SF, start);
      FromFrom(bits, SF, start - SF);
      LaterSymbols(rest, SF, q - 1, start - SF, tail, later);
      assert syms[q..] == tail[q - 1..];
    }
  }

  /** Bit `b` of group `q` is the digit of weight 2^(SF-1-b) of symbol `q`. */
  lemma SymbolDigit(bits: seq<Bit>, SF: nat, q: nat, b: nat, start: nat)
    requires b < SF && start == q * SF && start + b < |bits|
    ensures q < |Symbols(bits, SF)|
    ensures Symbols(bits, SF)[q] / Pow2(SF - 1 - b) % 2 == 1 <==> bits[start + b]
  {
    LaterSymbols(bits, SF, q, start, Symbols(bits, SF), From(bits, start));
    assert Symbols(bits, SF)[q] == Symbols(bits, SF)[q..][0];
    GroupDigit(From(bits, start), SF, b);
  }

  lemma GroupThenRest(bits: seq<Bit>, SF: nat, pad: nat) returns (all: nat)
    requires SF > 0 && bits != [] && pad < SF
    ensures all < SF && Group(bits, SF) + (From(bits, SF) + Zeros(if |bits| < SF then 0 else pad)) == bits + Zeros(all)
  {
    all := if |bits| < SF then SF - |bits| else pad;
    if |bits| < SF {
      assert Group(bits, SF) == bits + Zeros(all);
      assert From(bits, SF) + Zeros(0) == [];
    } else {
      assert Group(bits, SF) + From(bits, SF) == bits;
    }
  }

  /** The bits come back with fewer than SF zeros after them. */
  lemma {:induction false} SymbolsCarryBits(bits: seq<Bit>, SF: nat) returns (pad: nat)
    requires SF > 0
    ensures pad < SF && SymbolBits(Symbols(bits, SF), SF) == bits + Zeros(pad)
    ensures bits == [] ==> pad == 0
    decreases |bits|
  {
    if bits == [] {
      pad := 0;
    } else {
      var group, rest := Group(bits, SF), From(bits, SF);
      BitsOfNumberOf(group);
      pad := SymbolsCarryBits(rest, SF);
      SymbolBitsFront(NumberOf(group), Symbols(rest, SF), SF);
      pad := GroupThenRest(bits, SF, pad);
    }
  }

  /** Bits survive the trip through symbols for any length once the padding is cut off. */
  lemma BitsRoundTrip(bits: seq<Bit>, SF: nat, all: seq<Bit>)
    requires SF > 0 && all == SymbolBits(Symbols(bits, SF), SF)
    ensures bits == if |bits| > 0 && |all| > |bits| then all[..|bits|] else all
  {
    var pad := SymbolsCarryBits(bits, SF);
    if bits == [] {
      assert Symbols(bits, SF) == [] && all == [];
    }
  }
}
