/** Packets under forward error correction: what a receiver makes of a burst of coded bits or channel values. */
module CodedPackets {
  import opened Octets
  import opened Options
  import opened Bits
  import opened Packet
  import opened FecBlocks
  import Conv = ConvolutionalCode
  import ML = MaximumLikelihood
  import Ldpc
  import Viterbi

  /** The number of bits in a packet: header, payload and check. */
  function InfoLen(payloadBytes: nat): nat {
    16 + payloadBytes * 8 + 16
  }

  function Trimmed<T>(s: seq<T>, n: nat): seq<T> {
    if |s| >= n then s[..n] else s
  }

  /** The burst trimmed to the coded length of `infoLen` bits, and decoded. */
  function SinkBits(f: Fec, raw: seq<Bit>, infoLen: nat): seq<Bit>
    requires f.LowDensity? ==> f.G.k > 0
  {
    FecDecodeHard(f, Trimmed(raw, EncodedLen(f, infoLen)), infoLen)
  }

  function SoftSinkBits(f: Fec, llrs: seq<real>, infoLen: nat): seq<Bit>
    requires f.LowDensity? ==> f.G.k > 0
  {
    FecDecodeSoft(f, Trimmed(llrs, EncodedLen(f, infoLen)), infoLen)
  }

  /** The coded length as the code in use reserves it. */
  method ReservedLen(code: Ldpc.LdpcCode?, infoLen: nat) returns (coded: nat)
    requires code != null ==> code.Valid()
    ensures Usable(Selected(code)) && coded == EncodedLen(Selected(code), infoLen)
  {
    if code != null {
      coded := (infoLen + code.k - 1) / code.k * code.n;
    } else {
      coded := 2 * (infoLen + Conv.K - 1);
    }
  }

  method DecodeBurst(code: Ldpc.LdpcCode?, dec: Viterbi.ViterbiDecoder, raw: seq<Bit>, infoLen: nat)
    returns (bits: seq<Bit>)
    requires (code != null ==> code.Valid()) && dec.Valid()
    ensures Usable(Selected(code)) && bits == SinkBits(Selected(code), raw, infoLen)
  {
    var coded := ReservedLen(code, infoLen);
    bits := DecodeBlock(code, dec, if |raw| >= coded then raw[..coded] else raw, infoLen);
  }

  method DecodeSoftBurst(code: Ldpc.LdpcCode?, dec: Viterbi.ViterbiDecoder, llrs: seq<real>, infoLen: nat)
    returns (bits: seq<Bit>)
    requires (code != null ==> code.Valid()) && dec.Valid()
    ensures Usable(Selected(code)) && bits == SoftSinkBits(Selected(code), llrs, infoLen)
  {
    var coded := ReservedLen(code, infoLen);
    bits := SoftDecodeBlock(code, dec, if |llrs| >= coded then llrs[..coded] else llrs, infoLen);
  }

  function SinkDecode(f: Fec, raw: seq<Bit>, payloadBytes: nat): Decoded
    requires f.LowDensity? ==> f.G.k > 0
  {
    DecodePacket(SinkBits(f, raw, InfoLen(payloadBytes)))
  }

  /** Bit errors that the code is sure to correct. */
  function Correctable(f: Fec): nat {
    if f.Convolutional? then 4 else 0
  }

  lemma DecodesNear(f: Fec, bits: seq<Bit>, received: seq<Bit>)
    requires Usable(f) && |received| == |FecEncode(f, bits)|
    requires Distance(FecEncode(f, bits), received) <= Correctable(f)
    ensures FecDecodeHard(f, received, |bits|) == bits
  {
    if f.Convolutional? {
      ML.CorrectsFourErrors(bits, received);
    } else {
      DistanceZeroMeansEqual(FecEncode(f, bits), received);
      HardRoundTrip(f, bits);
    }
  }

  lemma BitsSurvive(f: Fec, bits: seq<Bit>, raw: seq<Bit>, n: nat)
    requires Usable(f) && bits != [] && n == |FecEncode(f, bits)| <= |raw|
    requires Distance(FecEncode(f, bits), raw[..n]) <= Correctable(f)
    ensures SinkBits(f, raw, |bits|) == bits
  {
    LengthIsReserved(f, bits);
    DecodesNear(f, bits, raw[..n]);
  }

  lemma PacketIsRead(payload: seq<Byte>, index: Byte, total: Byte, bits: seq<Bit>)
    requires bits == PacketBits(payload, index, total)
    ensures bits != [] && |bits| == InfoLen(|payload|) && DecodePacket(bits) == Decoded(index, total, payload, true)
  {
    PacketRoundTrip(payload, index, total, []);
    assert bits + [] == bits;
  }

  /**
   * A coded packet is read back exactly, whatever follows it in the burst, with up to four wrong bits under the
   * convolutional code.
   */
  lemma CodedPacketSurvives(f: Fec, payload: seq<Byte>, index: Byte, total: Byte, bits: seq<Bit>, raw: seq<Bit>, n: nat)
    requires Usable(f) && bits == PacketBits(payload, index, total) && n == |FecEncode(f, bits)| <= |raw|
    requires Distance(FecEncode(f, bits), raw[..n]) <= Correctable(f)
    ensures SinkDecode(f, raw, |payload|) == Decoded(index, total, payload, true)
  {
    PacketIsRead(payload, index, total, bits);
    BitsSurvive(f, bits, raw, n);
  }

  // ---- with or without a code, from bits or from channel values ----

  // What the receiver pipeline delivers for one burst; `llrs` is empty when the modulation gives no channel values.
  datatype Burst = Burst(raw: seq<Bit>, llrs: seq<real>)

  /** How a receiver reads bursts: `f` is None without error correction. */
  datatype Mode = Mode(f: Option<Fec>, soft: bool, payloadBytes: nat)
  {
    ghost predicate Works() {
      f.Some? ==> Usable(f.value)
    }
  }

  function Framed(f: Option<Fec>, bits: seq<Bit>): seq<Bit>
    requires f.Some? && f.value.LowDensity? ==> f.value.G.k > 0
  {
    if f.Some? then FecEncode(f.value, bits) else bits
  }

  function BurstBits(mode: Mode, burst: Burst): seq<Bit>
    requires mode.f.Some? && mode.f.value.LowDensity? ==> mode.f.value.G.k > 0
  {
    match mode.f
    case None => burst.raw
    case Some(f) =>
      if mode.soft && burst.llrs != [] then SoftSinkBits(f, burst.llrs, InfoLen(mode.payloadBytes))
      else SinkBits(f, burst.raw, InfoLen(mode.payloadBytes))
  }

  /** The burst is frame `c`, damaged no more than the code is sure to put right, with anything after it. */
  ghost predicate Carries(mode: Mode, c: seq<Bit>, burst: Burst) {
    match mode.f
    case None => burst.raw == c
    case Some(f) =>
      if mode.soft && burst.llrs != [] then |burst.llrs| >= |c| && Readable(f, burst.llrs[..|c|], c)
      else |burst.raw| >= |c| && Distance(c, burst.raw[..|c|]) <= Correctable(f)
  }

  lemma SoftBitsSurvive(f: Fec, bits: seq<Bit>, llrs: seq<real>, n: nat)
    requires Usable(f) && bits != [] && n == |FecEncode(f, bits)| <= |llrs|
    requires Readable(f, llrs[..n], FecEncode(f, bits))
    ensures SoftSinkBits(f, llrs, |bits|) == bits
  {
    LengthIsReserved(f, bits);
    SoftRoundTrip(f, bits, llrs[..n]);
  }

  /** A packet is read back exactly from any burst that carries its frame. */
  lemma CarriedIsRead(mode: Mode, payload: seq<Byte>, index: Byte, total: Byte, bits: seq<Bit>, burst: Burst)
    requires mode.Works() && bits == PacketBits(payload, index, total)
    requires (mode.f.Some? ==> |payload| == mode.payloadBytes) && Carries(mode, Framed(mode.f, bits), burst)
    ensures BurstBits(mode, burst) == bits
    ensures DecodePacket(BurstBits(mode, burst)) == Decoded(index, total, payload, true)
  {
    PacketIsRead(payload, index, total, bits);
    if mode.f.Some? {
      var f, n := mode.f.value, |Framed(mode.f, bits)|;
      if mode.soft && burst.llrs != [] {
        SoftBitsSurvive(f, bits, burst.llrs, n);
      } else {
        BitsSurvive(f, bits, burst.raw, n);
      }
    }
  }
}
