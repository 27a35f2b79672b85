/** Packets: chunk index, chunk count, payload bytes and CRC-16 as bits, most significant first. */
module Packet {
  import opened Octets
  import opened Bits
  import opened BinaryNumbers
  import opened Crc16
  import opened CrcOrder

  // ---- byte strings as bits ----

  function BytesBits(s: seq<Byte>): (r: seq<Bit>)
    ensures |r| == 8 * |s|
  {
    if s == [] then [] else BitsOf(s[0], 8) + BytesBits(s[1..])
  }

  function ByteOf(bits: seq<Bit>): Byte
    requires |bits| == 8
  {
    BitsOfNumberOf(bits);
    assert Pow2(8) == 256;
    NumberOf(bits)
  }

  /** The whole bytes in a bit string; a remainder of fewer than eight bits is dropped. */
  function BytesOf(bits: seq<Bit>): (s: seq<Byte>)
    ensures |s| == |bits| / 8
  {
    if |bits| < 8 then [] else [ByteOf(bits[..8])] + BytesOf(bits[8..])
  }

  lemma {:induction false} BytesOfBytesBits(s: seq<Byte>, rest: seq<Bit>)
    requires |rest| < 8
    ensures BytesOf(BytesBits(s) + rest) == s
  {
    if s != [] {
      var bits := BytesBits(s) + rest;
      assert bits[..8] == BitsOf(s[0], 8) && bits[8..] == BytesBits(s[1..]) + rest;
      NumberOfBitsOf(s[0], 8);
      assert Pow2(8) == 256;
      BytesOfBytesBits(s[1..], rest);
    }
  }

  lemma {:induction false} BytesBitsOfBytesOf(bits: seq<Bit>)
    ensures BytesBits(BytesOf(bits)) == bits[..8 * |BytesOf(bits)|]
  {
    if |bits| >= 8 {
      BitsOfNumberOf(bits[..8]);
      var s := BytesOf(bits);
      BytesBitsOfBytesOf(bits[8..]);
      assert s[1..] == BytesOf(bits[8..]);
      assert bits[..8 * |s|] == bits[..8] + bits[8..][..8 * |s[1..]|];
    }
  }

  lemma {:induction false} BytesBitsConcat(s: seq<Byte>, t: seq<Byte>)
    ensures BytesBits(s + t) == BytesBits(s) + BytesBits(t)
  {
    if s == [] {
      assert s + t == t;
    } else {
      assert (s + t)[1..] == s[1..] + t;
      BytesBitsConcat(s[1..], t);
    }
  }

  lemma BytesBitsSingle(c: Byte)
    ensures BytesBits([c]) == BitsOf(c, 8)
  {
    assert [c][1..] == [];
  }

  method StringToBits(s: seq<Byte>) returns (bits: seq<Bit>)
    ensures bits == BytesBits(s)
  {
    bits := [];
    for i := 0 to |s|
      invariant BytesBits(s) == bits + BytesBits(s[i..])
    {
      bits := EmitBits(s[i], 8, bits);
      assert s[i..][1..] == s[i + 1..];
    }
  }

  method BitsToString(bits: seq<Bit>) returns (s: seq<Byte>)
    ensures s == BytesOf(bits)
  {
    s := [];
    assert Pow2(8) == 256;
    var i := 0;
    while i + 8 <= |bits|
      invariant 0 <= i <= |bits|
      invariant BytesOf(bits) == s + BytesOf(bits[i..])
    {
      assert bits[i..][..8] == bits[i..i + 8] && bits[i..][8..] == bits[i + 8..];
      var c := CollectBits(bits[i..i + 8]);
      s := s + [c];
      i := i + 8;
    }
  }

  /** Splitting and joining are inverse on whole bytes. */
  lemma StringRoundTrip(s: seq<Byte>)
    ensures BytesOf(BytesBits(s)) == s
  {
    assert BytesBits(s) + [] == BytesBits(s);
    BytesOfBytesBits(s, []);
  }

  // ---- the CRC, byte by byte ----

  /** Shifting the register that already holds the coming bits equals dividing those bits in one at a time. */
  lemma ShiftPending(f: Remainder, p: Remainder)
    ensures Feed(Xor(f, p), false) == Xor(Feed(f, p[0]), Shift(p))
  {
    FeedLinear(f, p, p[0], p[0]);
  }

  /** One turn of the inner loop, with `i` of the eight bits of a byte divided in. */
  lemma OneShift(before: Remainder, b: seq<Bit>, i: nat, crc: Remainder, next: Remainder)
    requires |b| == 8 && i < 8 && next == Feed(crc, false)
    requires crc == Xor(FeedAll(before, b[..i]), b[i..] + Zeros(8 + i))
    ensures next == Xor(FeedAll(before, b[..i + 1]), b[i + 1..] + Zeros(8 + i + 1))
  {
    ShiftPending(FeedAll(before, b[..i]), b[i..] + Zeros(8 + i));
    assert Shift(b[i..] + Zeros(8 + i)) == b[i + 1..] + Zeros(8 + i + 1);
    assert b[..i + 1][..i] == b[..i];
  }

  lemma OneByte(bytes: seq<Byte>, k: nat, b: seq<Bit>)
    requires k < |bytes| && b == BitsOf(bytes[k], 8)
    ensures Crc(BytesBits(bytes[..k + 1])) == FeedAll(Crc(BytesBits(bytes[..k])), b)
  {
    assert bytes[..k + 1] == bytes[..k] + [bytes[k]];
    BytesBitsConcat(bytes[..k], [bytes[k]]);
    BytesBitsSingle(bytes[k]);
    FeedSplit(INITIAL, BytesBits(bytes[..k]), b);
  }

  method Crc16Ccitt(bytes: seq<Byte>) returns (crc: Remainder)
    ensures crc == Crc(BytesBits(bytes))
  {
    crc := INITIAL;
    for k := 0 to |bytes|
      invariant crc == Crc(BytesBits(bytes[..k]))
    {
      ghost var before, b := crc, BitsOf(bytes[k], 8);
      crc := Xor(crc, BitsOf(bytes[k], 8) + Zeros(8));
      assert b[..0] == [] && b[0..] + Zeros(8) == b + Zeros(8);
      for i := 0 to 8
        invariant crc == Xor(FeedAll(before, b[..i]), b[i..] + Zeros(8 + i))
      {
        OneShift(before, b, i, crc, Feed(crc, false));
        crc := if crc[0] then Xor(Shift(crc), POLYNOMIAL) else Shift(crc);
      }
      assert b[..8] == b && crc == FeedAll(before, b);
      OneByte(bytes, k, b);
    }
    assert bytes[..|bytes|] == bytes;
  }

  // ---- packets ----

  method EncodeHeader(index: Byte, total: Byte) returns (header: seq<Bit>)
    ensures header == BytesBits([index, total])
  {
    assert Pow2(8) == 256;
    BytesBitsConcat([index], [total]);
    BytesBitsSingle(index);
    BytesBitsSingle(total);
    assert [index] + [total] == [index, total];
    header := EmitBits(index, 8, []);
    header := EmitBits(total, 8, header);
  }

  function PacketBits(payload: seq<Byte>, index: Byte, total: Byte): (r: seq<Bit>)
    ensures |r| == 32 + 8 * |payload|
  {
    var frame := BytesBits([index, total] + payload);
    frame + Crc(frame)
  }

  method BuildPacketBits(payload: seq<Byte>, index: Byte, total: Byte) returns (bits: seq<Bit>)
    ensures bits == PacketBits(payload, index, total)
  {
    var crc := Crc16Ccitt([index, total] + payload);
    bits := EncodeHeader(index, total);
    var body := StringToBits(payload);
    bits := bits + body;
    BytesBitsConcat([index, total], payload);
    ghost var frame := bits;
    for b := 16 downto 0
      invariant bits == frame + crc[..16 - b]
    {
      bits := bits + [crc[15 - b]];
    }
  }

  lemma {:induction false} BitOfByte(s: seq<Byte>, j: nat, k: nat)
    requires j < |s| && k < 8
    ensures BytesBits(s)[8 * j + k] <==> s[j] / Pow2(7 - k) % 2 == 1
  {
    if j == 0 {
      BitIsDigit(s[0], 8, k);
    } else {
      BitOfByte(s[1..], j - 1, k);
    }
  }

  /**
   * What goes on the air: index, count and payload byte by byte with the bit of weight 128 first, then the CRC of all
   * these bits.
   */
  lemma WireFormat(payload: seq<Byte>, index: Byte, total: Byte, j: nat, k: nat)
    requires j < 2 + |payload| && k < 8
    ensures var r := PacketBits(payload, index, total);
            var byte := if j == 0 then index else if j == 1 then total else payload[j - 2];
            && (r[8 * j + k] <==> byte / Pow2(7 - k) % 2 == 1)
            && r[|r| - 16..] == Crc(r[..|r| - 16])
  {
    var frame := [index, total] + payload;
    BitOfByte(frame, j, k);
    var r := PacketBits(payload, index, total);
    assert r[..|r| - 16] == BytesBits(frame) && r[|r| - 16..] == Crc(BytesBits(frame));
  }

  datatype Decoded = Decoded(index: Byte, total: Byte, payload: seq<Byte>, crcOk: bool)

  lemma WholeBytes(n: nat, p: nat)
    requires p < 8
    ensures (8 * n + 16 + p) / 8 - 2 == n && (8 * n + 16) % 8 == 0
  {
  }

  /** Where the check bits start: two bytes before the end of the whole bytes. */
  function CheckAt(bits: seq<Bit>): nat
    requires |bits| >= 32
  {
    8 * (|bits| / 8 - 2)
  }

  lemma FrameEnd(bits: seq<Bit>, n: nat, p: nat)
    requires n >= 2 && p < 8 && |bits| == 8 * n + 16 + p
    ensures CheckAt(bits) == 8 * n
  {
    WholeBytes(n, p);
  }

  lemma ThreeParts(a: seq<Bit>, b: seq<Bit>, c: seq<Bit>)
    ensures (a + b + c)[..|a|] == a && (a + b + c)[|a|..|a| + |b|] == b
  {
  }

  function DecodePacket(bits: seq<Bit>): Decoded {
    if |bits| < 32 then Decoded(0, 0, [], false)
    else
      var n := CheckAt(bits);
      var frame := BytesOf(bits[..n]);
      Decoded(frame[0], frame[1], frame[2..], Crc(bits[..n]) == bits[n..n + 16])
  }

  method DecodeHeader(bits: seq<Bit>) returns (index: Byte, total: Byte)
    ensures |bits| < 16 ==> index == total == 0
    ensures |bits| >= 16 ==> index == ByteOf(bits[..8]) && total == ByteOf(bits[8..16])
  {
    if |bits| < 16 {
      return 0, 0;
    }
    assert Pow2(8) == 256;
    index := CollectBits(bits[..8]);
    total := CollectBits(bits[8..16]);
  }

  lemma HeaderBytes(bits: seq<Bit>, body: seq<Bit>, n: nat)
    requires 16 <= n <= |bits| && body == bits[..n]
    ensures BytesOf(body) == [ByteOf(bits[..8])] + ([ByteOf(bits[8..16])] + BytesOf(bits[16..n]))
  {
    var rest := body[8..];
    assert body[..8] == bits[..8] && rest[..8] == bits[8..16] && rest[8..] == bits[16..n];
    assert BytesOf(body) == [ByteOf(body[..8])] + BytesOf(rest);
    assert BytesOf(rest) == [ByteOf(rest[..8])] + BytesOf(rest[8..]);
  }

  method DecodePacketBits(bits: seq<Bit>) returns (d: Decoded)
    ensures d == DecodePacket(bits)
  {
    if |bits| < 32 {
      return Decoded(0, 0, [], false);
    }
    var payloadBytes := (|bits| - 32) / 8;
    var checkAt := 16 + payloadBytes * 8;
    var index, total := DecodeHeader(bits);
    ghost var body := bits[..checkAt];
    var frame, payload := CollectPayload(bits, index, total, payloadBytes);
    HeaderBytes(bits, body, checkAt);
    FrameEnd(bits, payloadBytes + 2, |bits| - checkAt - 16);
    assert BytesBits(frame) == body by {
      BytesBitsOfBytesOf(body);
    }
    var received: seq<Bit> := [];
    for b := 0 to 16
      invariant received == bits[checkAt..checkAt + b]
    {
      received := received + [bits[checkAt + b]];
    }
    var crc := Crc16Ccitt(frame);
    d := Decoded(index, total, payload, crc == received);
  }

  lemma NextByte(body: seq<Bit>, i: nat, rest: seq<Bit>, c: Byte, done: seq<Byte>)
    requires 8 * i + 8 <= |body| && rest == body[8 * i..] && c == ByteOf(body[8 * i..8 * i + 8])
    ensures done + BytesOf(rest) == done + [c] + BytesOf(body[8 * (i + 1)..])
  {
    assert rest[..8] == body[8 * i..8 * i + 8] && rest[8..] == body[8 * (i + 1)..];
    assert BytesOf(rest) == [c] + BytesOf(rest[8..]);
  }

  /** The loop over the payload, which also rebuilds the bytes that the CRC covers. */
  method CollectPayload(bits: seq<Bit>, index: Byte, total: Byte, payloadBytes: nat)
    returns (frame: seq<Byte>, payload: seq<Byte>)
    requires 16 + payloadBytes * 8 <= |bits|
    ensures payload == BytesOf(bits[16..16 + payloadBytes * 8])
    ensures frame == [index] + ([total] + payload)
  {
    frame, payload := [index, total], [];
    var body := bits[16..16 + payloadBytes * 8];
    ghost var all := BytesOf(body);
    assert body[0..] == body && Pow2(8) == 256;
    for i := 0 to payloadBytes
      invariant payload + BytesOf(body[8 * i..]) == all
      invariant frame == [index] + ([total] + payload)
    {
      var c := CollectBits(body[8 * i..8 * i + 8]);
      NextByte(body, i, body[8 * i..], c, payload);
      frame := frame + [c];
      payload := payload + [c];
    }
  }

  // ---- printing and parsing invert each other ----

  lemma DecodeParts(frame: seq<Byte>, check: Remainder, pad: seq<Bit>)
    requires |frame| >= 2 && |pad| < 8
    ensures DecodePacket(BytesBits(frame) + check + pad)
         == Decoded(frame[0], frame[1], frame[2..], Crc(BytesBits(frame)) == check)
  {
    var bits := BytesBits(frame) + check + pad;
    FrameEnd(bits, |frame|, |pad|);
    ThreeParts(BytesBits(frame), check, pad);
    StringRoundTrip(frame);
  }

  lemma Parts(bits: seq<Bit>) returns (frame: seq<Byte>, check: Remainder, pad: seq<Bit>)
    requires |bits| >= 32
    ensures |frame| >= 2 && |pad| == |bits| % 8 && bits == BytesBits(frame) + check + pad
  {
    var n := CheckAt(bits);
    frame, check, pad := BytesOf(bits[..n]), bits[n..n + 16], bits[n + 16..];
    BytesBitsOfBytesOf(bits[..n]);
    assert bits == bits[..n] + check + pad;
  }

  /** A packet survives the trip, whatever symbol padding of fewer than eight bits follows it. */
  lemma PacketRoundTrip(payload: seq<Byte>, index: Byte, total: Byte, pad: seq<Bit>)
    requires |pad| < 8
    ensures DecodePacket(PacketBits(payload, index, total) + pad) == Decoded(index, total, payload, true)
  {
    var frame := [index, total] + payload;
    DecodeParts(frame, Crc(BytesBits(frame)), pad);
    assert frame[2..] == payload;
  }

  /** Nothing else is accepted: a word whose check succeeds is a packet followed by padding. */
  lemma AcceptedIsPacket(bits: seq<Bit>)
    requires DecodePacket(bits).crcOk
    ensures var d := DecodePacket(bits);
            var packet := PacketBits(d.payload, d.index, d.total);
            packet <= bits && |bits| - |packet| < 8
  {
    var frame, check, pad := Parts(bits);
    DecodeParts(frame, check, pad);
    assert [frame[0], frame[1]] + frame[2..] == frame;
  }

  // ---- what the check detects ----

  lemma CheckIsDivisibility(bits: seq<Bit>, k: nat)
    requires k >= 2 && |bits| == 8 * k + 16
    ensures DecodePacket(bits).crcOk <==> FeedAll(INITIAL, bits) == ZERO
  {
    WholeBytes(k, 0);
    var frame, check, pad := Parts(bits);
    assert bits == BytesBits(frame) + check;
    DecodeParts(frame, check, pad);
    CheckBitsDivide(BytesBits(frame), check);
  }

  /** A burst of nothing but zeros, of whatever length, is rejected. */
  lemma SilenceIsRejected(n: nat)
    ensures !DecodePacket(Zeros(n)).crcOk
  {
    if n >= 32 {
      var m := CheckAt(Zeros(n));
      assert Zeros(n)[..m] == Zeros(m) && Zeros(n)[m..m + 16] == Zeros(16);
      ZerosDoNotDivide(m);
    }
  }

  /** A corrupted packet passes the check exactly when the polynomial divides the error pattern. */
  lemma ErrorUndetectedIffDivisible(payload: seq<Byte>, index: Byte, total: Byte, e: seq<Bit>)
    requires |e| == |PacketBits(payload, index, total)|
    ensures DecodePacket(Xor(PacketBits(payload, index, total), e)).crcOk <==> FeedAll(ZERO, e) == ZERO
  {
    var word := PacketBits(payload, index, total);
    CheckBitsDivide(BytesBits([index, total] + payload), Crc(BytesBits([index, total] + payload)));
    CheckIsDivisibility(Xor(word, e), |payload| + 2);
    SyndromeOfError(word, e);
  }

  lemma BurstRejected(payload: seq<Byte>, index: Byte, total: Byte, e: seq<Bit>, a: nat)
    requires |e| == |PacketBits(payload, index, total)| && true in e && WithinSixteen(e, a)
    ensures !DecodePacket(Xor(PacketBits(payload, index, total), e)).crcOk
  {
    ErrorUndetectedIffDivisible(payload, index, total, e);
    BurstIsDetected(e, a);
  }

  lemma OddErrorsRejected(payload: seq<Byte>, index: Byte, total: Byte, e: seq<Bit>)
    requires |e| == |PacketBits(payload, index, total)| && Weight(e) % 2 == 1
    ensures !DecodePacket(Xor(PacketBits(payload, index, total), e)).crcOk
  {
    ErrorUndetectedIffDivisible(payload, index, total, e);
    OddErrorsAreDetected(e);
  }

  /** Two wrong bits pass the check exactly when 32767 divides their distance. */
  lemma TwoErrorsRejectedIff(payload: seq<Byte>, index: Byte, total: Byte, n: nat, i: nat, j: nat)
    requires n == |PacketBits(payload, index, total)| && i < j < n
    ensures DecodePacket(Xor(PacketBits(payload, index, total), TwoOnes(n, i, j))).crcOk <==> (j - i) % 32767 == 0
  {
    ErrorUndetectedIffDivisible(payload, index, total, TwoOnes(n, i, j));
    TwoErrorsMissedIff(n, i, j);
  }

  /** The check rejects one, two or three wrong bits wherever they are. */
  ghost predicate RejectsUpToThree(payload: seq<Byte>, index: Byte, total: Byte) {
    forall e | |e| == |PacketBits(payload, index, total)| && 1 <= Weight(e) <= 3 ::
      !DecodePacket(Xor(PacketBits(payload, index, total), e)).crcOk
  }

  /** That is so exactly for packets of at most 32767 bits, which is 4091 bytes of payload. */
  lemma UpToThreeErrorsRejectedIff(payload: seq<Byte>, index: Byte, total: Byte)
    ensures RejectsUpToThree(payload, index, total) <==> |payload| <= 4091
  {
    var n := |PacketBits(payload, index, total)|;
    assert n == 8 * |payload| + 32;
    if |payload| <= 4091 {
      forall e | |e| == n && 1 <= Weight(e) <= 3
        ensures !DecodePacket(Xor(PacketBits(payload, index, total), e)).crcOk
      {
        ErrorUndetectedIffDivisible(payload, index, total, e);
        UpToThreeErrorsAreDetected(e, Weight(e));
      }
    } else {
      TwoOnesWeight(n, 0, 32767);
      TwoErrorsRejectedIff(payload, index, total, n, 0, 32767);
    }
  }
}
