/** The block helpers that dispatch to the selected code, and the round trip through them. */
module FecBlocks {
  import opened Arithmetic
  import opened Bits
  import opened Chunks
  import opened LdpcGraph
  import Conv = ConvolutionalCode
  import Viterbi
  import ML = MaximumLikelihood
  import MinSum = LdpcMinSum
  import Ldpc

  datatype Fec = Convolutional | LowDensity(G: Graph, maxIter: nat, scale: real)

  ghost predicate Usable(f: Fec) {
    f.LowDensity? ==> WellFormed(f.G) && f.maxIter > 0
  }

  function CeilDiv(x: nat, k: nat): nat
    requires k > 0
  {
    (x + k - 1) / k
  }

  /** The coded length that callers reserve for `nbits` bits. */
  function EncodedLen(f: Fec, nbits: nat): nat
    requires f.LowDensity? ==> f.G.k > 0
  {
    match f
    case LowDensity(G, _, _) => CeilDiv(nbits, G.k) * (2 * G.k)
    case Convolutional => 2 * (nbits + Conv.K - 1)
  }

  function NumBlocks(nbits: nat, k: nat): (n: nat)
    requires k > 0
  {
    if CeilDiv(nbits, k) == 0 then 1 else CeilDiv(nbits, k)
  }

  function WholeBlocks(len: nat, n: nat): nat
    requires n > 0
  {
    len / n
  }

  /** The codewords of the first `n` blocks. */
  function EncodeBlocks(G: Graph, bits: seq<Bit>, n: nat): (out: seq<Bit>)
    ensures |out| == n * (2 * G.k)
  {
    if n == 0 then [] else EncodeBlocks(G, bits, n - 1) + Encode(G, From(bits, (n - 1) * G.k))
  }

  function Window<T>(s: seq<T>, i: nat, len: nat): (w: seq<T>) {
    if i + len <= |s| then s[i..i + len] else []
  }

  function DecodeBlocks(G: Graph, maxIter: nat, scale: real, llrs: seq<real>, n: nat): seq<Bit> {
    if n == 0 then []
    else
      DecodeBlocks(G, maxIter, scale, llrs, n - 1)
      + MinSum.Decode(G, Window(llrs, (n - 1) * (2 * G.k), 2 * G.k), maxIter, scale).info
  }

  /** Trimming to `len` info bits when it is not negative. */
  function Trim(out: seq<Bit>, len: int): seq<Bit> {
    if 0 <= len < |out| then out[..len] else out
  }

  function FecEncode(f: Fec, bits: seq<Bit>): seq<Bit>
    requires f.LowDensity? ==> f.G.k > 0
  {
    match f
    case LowDensity(G, _, _) => EncodeBlocks(G, bits, NumBlocks(|bits|, G.k))
    case Convolutional => Conv.Encode(bits)
  }

  /** A hard bit as a channel value of magnitude 8. */
  function HardLlrs(coded: seq<Bit>): (llrs: seq<real>)
    ensures |llrs| == |coded|
  {
    seq(|coded|, i requires 0 <= i < |coded| => if coded[i] then -8.0 else 8.0)
  }

  function FecDecodeHard(f: Fec, coded: seq<Bit>, infoLen: int): seq<Bit>
    requires f.LowDensity? ==> f.G.k > 0
  {
    match f
    case LowDensity(G, _, _) => FecDecodeSoft(f, HardLlrs(coded), infoLen)
    case Convolutional => Trim(Viterbi.Decode(Viterbi.Hard(coded)), infoLen)
  }

  function FecDecodeSoft(f: Fec, llrs: seq<real>, infoLen: int): seq<Bit>
    requires f.LowDensity? ==> f.G.k > 0
  {
    match f
    case LowDensity(G, it, scale) => Trim(DecodeBlocks(G, it, scale, llrs, WholeBlocks(|llrs|, 2 * G.k)), infoLen)
    case Convolutional => Trim(Viterbi.Decode(Viterbi.Soft(llrs)), infoLen)
  }

  // ---- block arithmetic ----

  lemma CeilDivCovers(x: nat, k: nat)
    requires k > 0
    ensures CeilDiv(x, k) * k >= x && (x > 0 <==> CeilDiv(x, k) > 0)
  {
    var c := CeilDiv(x, k);
    assert x + k - 1 == k * c + (x + k - 1) % k;
  }

  lemma OneMoreBlock(n: nat, k: nat)
    requires n > 0
    ensures (n - 1) * k + k == n * k
  {
  }

  // ---- the round trip ----

  /** Every coded bit has the sign of its channel value: a negative value for a one. */
  ghost predicate RightSigns(llrs: seq<real>, coded: seq<Bit>) {
    |llrs| == |coded| && forall i | 0 <= i < |coded| :: llrs[i] < 0.0 <==> coded[i]
  }

  lemma BlockDecodes(G: Graph, maxIter: nat, scale: real, info: seq<Bit>, llrs: seq<real>)
    requires WellFormed(G) && maxIter > 0 && RightSigns(llrs, Encode(G, info))
    ensures MinSum.Decode(G, llrs, maxIter, scale).info == InfoWord(info, G.k)
  {
    var w := InfoWord(info, G.k);
    assert InfoWord(w, G.k) == w;
    assert MinSum.SignWord(llrs, 2 * G.k) == Encode(G, w);
    MinSum.CorrectSignsDecode(G, w, llrs, maxIter, scale);
  }

  /** The decoded blocks are the bits padded with zeros to a whole number of blocks. */
  lemma {:induction false} BlocksRoundTrip(G: Graph, maxIter: nat, scale: real, bits: seq<Bit>, llrs: seq<real>,
                                           coded: seq<Bit>, n: nat)
    requires WellFormed(G) && maxIter > 0 && RightSigns(llrs, coded)
    requires n * (2 * G.k) <= |coded| && coded[..n * (2 * G.k)] == EncodeBlocks(G, bits, n)
    ensures DecodeBlocks(G, maxIter, scale, llrs, n) == InfoWord(bits, n * G.k)
    decreases n
  {
    if n > 0 {
      var k := G.k;
      var lo, hi := (n - 1) * (2 * k), n * (2 * k);
      OneMoreBlock(n, 2 * k);
      OneMoreBlock(n, k);
      var front, last := EncodeBlocks(G, bits, n - 1), Encode(G, From(bits, (n - 1) * k));
      assert coded[..lo] == coded[..hi][..lo] == front;
      assert coded[lo..hi] == coded[..hi][lo..] == last;
      BlocksRoundTrip(G, maxIter, scale, bits, llrs, coded, n - 1);
      BlockDecodes(G, maxIter, scale, From(bits, (n - 1) * k), Window(llrs, lo, 2 * k));
      WordsJoin(bits, (n - 1) * k, k, n * k);
    }
  }

  lemma WordsJoin(bits: seq<Bit>, i: nat, k: nat, j: nat)
    requires j == i + k
    ensures InfoWord(bits, i) + InfoWord(From(bits, i), k) == InfoWord(bits, j)
  {
  }

  /** LDPC takes a zero for a 0; under the convolutional code any ten values are to speak for their bits on balance. */
  ghost predicate Readable(f: Fec, llrs: seq<real>, coded: seq<Bit>) {
    if f.LowDensity? then RightSigns(llrs, coded) else ML.TensSupport(coded, llrs)
  }

  /** What the decoder yields before it trims: LDPC fills the last block up with zeros. */
  function Padded(f: Fec, bits: seq<Bit>): seq<Bit>
    requires f.LowDensity? ==> f.G.k > 0
  {
    if f.LowDensity? then InfoWord(bits, NumBlocks(|bits|, f.G.k) * f.G.k) else bits
  }

  lemma LdpcYields(f: Fec, bits: seq<Bit>, llrs: seq<real>, infoLen: int)
    requires Usable(f) && f.LowDensity? && RightSigns(llrs, FecEncode(f, bits))
    ensures FecDecodeSoft(f, llrs, infoLen) == Trim(Padded(f, bits), infoLen)
  {
    var k, n, coded := f.G.k, NumBlocks(|bits|, f.G.k), FecEncode(f, bits);
    QuotientAndRest(2 * k, n, 0, |llrs|);
    assert coded[..|coded|] == coded;
    BlocksRoundTrip(f.G, f.maxIter, f.scale, bits, llrs, coded, n);
  }

  lemma LdpcRoundTrip(f: Fec, bits: seq<Bit>, llrs: seq<real>)
    requires Usable(f) && f.LowDensity? && RightSigns(llrs, FecEncode(f, bits))
    ensures FecDecodeSoft(f, llrs, |bits|) == bits
  {
    LdpcYields(f, bits, llrs, |bits|);
    CeilDivCovers(|bits|, f.G.k);
    assert Padded(f, bits)[..|bits|] == bits;
  }

  /** A requested length that is negative, or too long, keeps everything; any other keeps that many bits. */
  lemma HardDecodeYields(f: Fec, bits: seq<Bit>, infoLen: int, out: seq<Bit>)
    requires Usable(f) && out == FecDecodeHard(f, FecEncode(f, bits), infoLen)
    ensures infoLen < 0 || infoLen >= |Padded(f, bits)| ==> out == Padded(f, bits)
    ensures 0 <= infoLen < |Padded(f, bits)| ==> out == Padded(f, bits)[..infoLen]
    ensures bits <= Padded(f, bits) && forall i | |bits| <= i < |Padded(f, bits)| :: !Padded(f, bits)[i]
  {
    var coded := FecEncode(f, bits);
    if f.LowDensity? {
      CeilDivCovers(|bits|, f.G.k);
      LdpcYields(f, bits, HardLlrs(coded), infoLen);
    } else {
      DistanceZeroMeansEqual(coded, coded);
      ML.CorrectsFourErrors(bits, coded);
    }
  }

  /** Readable channel values decode to exactly the encoded bits, for either code and every length. */
  lemma SoftRoundTrip(f: Fec, bits: seq<Bit>, llrs: seq<real>)
    requires Usable(f) && Readable(f, llrs, FecEncode(f, bits))
    ensures FecDecodeSoft(f, llrs, |bits|) == bits
  {
    if f.LowDensity? {
      LdpcRoundTrip(f, bits, llrs);
    } else {
      ML.CorrectsWhenTensSupport(bits, llrs);
    }
  }

  /** Hard decoding undoes encoding for either code and every length, the empty block included. */
  lemma HardRoundTrip(f: Fec, bits: seq<Bit>)
    requires Usable(f)
    ensures FecDecodeHard(f, FecEncode(f, bits), |bits|) == bits
  {
    var coded := FecEncode(f, bits);
    match f
    case LowDensity(_, _, _) =>
      LdpcRoundTrip(f, bits, HardLlrs(coded));
    case Convolutional =>
      DistanceZeroMeansEqual(coded, coded);
      ML.CorrectsFourErrors(bits, coded);
  }

  /** The reserved length is the length produced, except for an empty LDPC payload, which yields one whole block. */
  lemma LengthIsReserved(f: Fec, bits: seq<Bit>)
    requires Usable(f)
    ensures |FecEncode(f, bits)| == EncodedLen(f, |bits|) <==> f.Convolutional? || bits != []
    ensures f.LowDensity? && bits == [] ==> EncodedLen(f, 0) == 0 && |FecEncode(f, bits)| == 2 * f.G.k
  {
    if f.LowDensity? {
      CeilDivCovers(|bits|, f.G.k);
    }
  }

  // ---- where the bits go ----

  /** Block `b` of the coded bits, which starts at `lo`, is the codeword that begins with the bits from `b * k` on. */
  lemma {:induction false} BlockAt(G: Graph, bits: seq<Bit>, n: nat, b: nat, lo: nat, out: seq<Bit>)
    requires WellFormed(G) && b < n && lo == b * (2 * G.k) && out == EncodeBlocks(G, bits, n)
    ensures lo + 2 * G.k <= |out| && out[lo..lo + 2 * G.k] == Encode(G, From(bits, b * G.k))
    decreases n
  {
    var front := EncodeBlocks(G, bits, n - 1);
    OneMoreBlock(n, 2 * G.k);
    if b < n - 1 {
      BlockAt(G, bits, n - 1, b, lo, front);
      assert out[lo..lo + 2 * G.k] == front[lo..lo + 2 * G.k];
    } else {
      assert lo == |front|;
    }
  }

  /**
   * A payload makes one block for every `k` bits begun, and at least one. The first half of each is its share of the
   * payload with zeros after the end, and the whole block is a codeword.
   */
  lemma BlocksCarryPayload(G: Graph, maxIter: nat, scale: real, bits: seq<Bit>, b: nat, lo: nat, i: nat, out: seq<Bit>)
    requires WellFormed(G) && out == FecEncode(LowDensity(G, maxIter, scale), bits)
    requires lo == b * (2 * G.k) && i < G.k
    ensures lo < |out| <==> b == 0 || b * G.k < |bits|
    ensures lo < |out| ==>
              && lo + 2 * G.k <= |out| && ClearSyndrome(G, out[lo..lo + 2 * G.k])
              && out[lo + i] == (b * G.k + i < |bits| && bits[b * G.k + i])
  {
    var n := NumBlocks(|bits|, G.k);
    BlockCount(|bits|, G.k, b);
    Ordered(b, n, 2 * G.k);
    if b < n {
      BlockAt(G, bits, n, b, lo, out);
      BlockIsCodeword(G, From(bits, b * G.k), i, out[lo..lo + 2 * G.k]);
      assert out[lo + i] == out[lo..lo + 2 * G.k][i];
    }
  }

  lemma BlockIsCodeword(G: Graph, rest: seq<Bit>, i: nat, cw: seq<Bit>)
    requires WellFormed(G) && i < G.k && cw == Encode(G, rest)
    ensures ClearSyndrome(G, cw) && cw[i] == (i < |rest| && rest[i])
  {
    assert cw[..G.k] == InfoWord(rest, G.k);
    assert InfoWord(cw[..G.k], G.k) == InfoWord(rest, G.k);
    CodewordCharacterisation(G, cw);
  }

  lemma Ordered(b: nat, n: nat, m: nat)
    requires m > 0
    ensures b < n <==> b * m < n * m
  {
    AtLeast(m, n - b);
    Spread(m, n, b);
    AtLeast(m, b - n);
    Spread(m, b, n);
  }

  lemma BlockCount(x: nat, k: nat, b: nat)
    requires k > 0
    ensures b < NumBlocks(x, k) <==> b == 0 || b * k < x
  {
    var c := CeilDiv(x, k);
    CeilDivCovers(x, k);
    assert k * c == x + k - 1 - (x + k - 1) % k;
    Ordered(b, c, k);
    Spread(k, c, b);
    AtLeast(k, c - b);
  }

  /** Channel values after the last whole block are ignored. */
  lemma RemainderIsIgnored(f: Fec, llrs: seq<real>, extra: seq<real>, blocks: nat, infoLen: int)
    requires Usable(f) && f.LowDensity? && |llrs| == blocks * (2 * f.G.k) && |extra| < 2 * f.G.k
    ensures FecDecodeSoft(f, llrs + extra, infoLen) == FecDecodeSoft(f, llrs, infoLen)
  {
    QuotientAndRest(2 * f.G.k, blocks, |extra|, |llrs + extra|);
    QuotientAndRest(2 * f.G.k, blocks, 0, |llrs|);
    SameBlocks(f.G, f.maxIter, f.scale, llrs + extra, llrs, blocks, 2 * f.G.k, |llrs|);
  }

  lemma {:induction false} SameBlocks(G: Graph, maxIter: nat, scale: real, llrs: seq<real>, front: seq<real>, n: nat,
                                      len: nat, end: nat)
    requires len == 2 * G.k && end == n * len && end <= |front| && front <= llrs
    ensures DecodeBlocks(G, maxIter, scale, llrs, n) == DecodeBlocks(G, maxIter, scale, front, n)
    decreases n
  {
    if n > 0 {
      OneMultipleLess(n, len, end);
      SameBlocks(G, maxIter, scale, llrs, front, n - 1, len, end - len);
      SameWindow(llrs, front, end - len, len);
    }
  }

  lemma SameWindow(llrs: seq<real>, front: seq<real>, lo: nat, len: nat)
    requires lo + len <= |front| && front <= llrs
    ensures Window(llrs, lo, len) == Window(front, lo, len)
  {
  }

  // ---- the helpers themselves ----

  method BlockEncode(code: Ldpc.LdpcCode, bits: seq<Bit>) returns (out: seq<Bit>)
    requires code.Valid()
    ensures out == EncodeBlocks(code.graph, bits, NumBlocks(|bits|, code.k))
  {
    var k := code.k;
    var nblocks := (|bits| + k - 1) / k;
    if nblocks == 0 {
      nblocks := 1;
    }
    out := [];
    for b := 0 to nblocks
      invariant code.Valid() && out == EncodeBlocks(code.graph, bits, b)
    {
      var lo := b * k;
      var blk := new Bit[k](i requires 0 <= i < k => lo + i < |bits| && bits[lo + i]);
      assert blk[..] == InfoWord(From(bits, lo), k);
      assert InfoWord(blk[..], k) == blk[..];
      var cw := code.EncodeBlock(blk[..]);
      out := out + cw[..];
    }
  }

  method BlockDecode(code: Ldpc.LdpcCode, llrs: seq<real>) returns (out: seq<Bit>)
    requires code.Valid()
    ensures out == DecodeBlocks(code.graph, code.maxIter, code.scale, llrs, WholeBlocks(|llrs|, code.n))
  {
    var n := code.n;
    out := [];
    for b := 0 to WholeBlocks(|llrs|, n)
      invariant code.Valid() && out == DecodeBlocks(code.graph, code.maxIter, code.scale, llrs, b)
    {
      var lo := b * n;
      BlockInside(b, n, lo, |llrs|);
      var info, iters := code.DecodeBlock(llrs[lo..lo + n]);
      NextDecoded(code.graph, code.maxIter, code.scale, llrs, b, n, lo, llrs[lo..lo + n]);
      out := out + info;
    }
  }

  lemma NextDecoded(G: Graph, maxIter: nat, scale: real, llrs: seq<real>, b: nat, n: nat, lo: nat, blk: seq<real>)
    requires n == 2 * G.k && lo == b * n && lo + n <= |llrs| && blk == llrs[lo..lo + n]
    ensures DecodeBlocks(G, maxIter, scale, llrs, b + 1)
         == DecodeBlocks(G, maxIter, scale, llrs, b) + MinSum.Decode(G, blk, maxIter, scale).info
  {
    assert Window(llrs, lo, n) == blk;
  }

  lemma BlockInside(b: nat, n: nat, lo: nat, len: nat)
    requires n > 0 && b < WholeBlocks(len, n) && lo == b * n
    ensures lo + n <= len
  {
    OneMoreBlock(b + 1, n);
    assert len == n * (len / n) + len % n;
    AtLeast(n, len / n - (b + 1) + 1);
    Spread(n, len / n, b);
  }

  ghost function Selected(code: Ldpc.LdpcCode?): (f: Fec)
    reads code
  {
    if code == null then Convolutional else LowDensity(code.graph, code.maxIter, code.scale)
  }

  /** Encoding with the selected code; without an LDPC code the convolutional one is used. */
  method EncodeBlock(code: Ldpc.LdpcCode?, enc: Conv.ConvolutionalEncoder, bits: seq<Bit>) returns (out: seq<Bit>)
    requires (code != null ==> code.Valid()) && enc.Valid()
    modifies enc
    ensures Usable(Selected(code)) && out == FecEncode(Selected(code), bits)
  {
    if code != null {
      out := BlockEncode(code, bits);
    } else {
      enc.Reset();
      out := enc.EncodeBits(bits);
    }
  }

  method DecodeBlock(code: Ldpc.LdpcCode?, dec: Viterbi.ViterbiDecoder, coded: seq<Bit>, infoLen: int)
    returns (out: seq<Bit>)
    requires (code != null ==> code.Valid()) && dec.Valid()
    ensures Usable(Selected(code)) && out == FecDecodeHard(Selected(code), coded, infoLen)
  {
    if code != null {
      out := BlockDecode(code, HardLlrs(coded));
    } else {
      out := dec.DecodeHard(coded);
    }
    if infoLen >= 0 && |out| > infoLen {
      out := out[..infoLen];
    }
  }

  method SoftDecodeBlock(code: Ldpc.LdpcCode?, dec: Viterbi.ViterbiDecoder, llrs: seq<real>, infoLen: int)
    returns (out: seq<Bit>)
    requires (code != null ==> code.Valid()) && dec.Valid()
    ensures Usable(Selected(code)) && out == FecDecodeSoft(Selected(code), llrs, infoLen)
  {
    if code != null {
      out := BlockDecode(code, llrs);
    } else {
      out := dec.DecodeSoft(llrs);
    }
    if infoLen >= 0 && |out| > infoLen {
      out := out[..infoLen];
    }
  }
}
