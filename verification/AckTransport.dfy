/** The two acknowledgement channels of the stop-and-wait link: a TCP byte stream and radio frames. */
module AckTransport {
  import opened Octets
  import opened Options
  import opened Bits
  import opened Packet
  import opened Chunks
  import opened FecBlocks
  import opened CodedPackets
  import Conv = ConvolutionalCode
  import Ldpc
  import Viterbi

  datatype AckMessage = AckMessage(index: Byte, total: Byte)

  /** The bytes that a sequence of `send_ack` calls puts on the stream. */
  function Wire(acks: seq<AckMessage>): seq<Byte> {
    if acks == [] then [] else [acks[0].index, acks[0].total] + Wire(acks[1..])
  }

  function Indices(acks: seq<AckMessage>): seq<Byte> {
    seq(|acks|, i requires 0 <= i < |acks| => acks[i].index)
  }

  class TcpAckLink {
    var buf: seq<Byte>

    constructor ()
      ensures buf == []
    {
      buf := [];
    }

    method SendAck(index: Byte, total: Byte) returns (msg: seq<Byte>)
      ensures msg == [index, total] == Wire([AckMessage(index, total)])
    {
      assert [AckMessage(index, total)][1..] == [];
      msg := [index, total];
    }

    /** `arrived` is whatever the non-blocking read delivers: any number of bytes, also none or half a message. */
    method PollAck(arrived: seq<Byte>) returns (index: Option<Byte>)
      modifies this
      ensures PollResult(old(buf), arrived) == (buf, index)
    {
      for i := 0 to |arrived|
        invariant buf == old(buf) + arrived[..i]
      {
        buf := buf + [arrived[i]];
      }
      assert arrived[..|arrived|] == arrived;
      if |buf| >= 2 {
        index := Some(buf[0]);
        buf := buf[2..];
      } else {
        index := None;
      }
    }
  }

  /** The buffer and the result after one poll. */
  function PollResult(buf: seq<Byte>, arrived: seq<Byte>): (seq<Byte>, Option<Byte>) {
    var all := buf + arrived;
    if |all| >= 2 then (all[2..], Some(all[0])) else (all, None)
  }

  /** The buffer, and the indices yielded, after a sequence of polls. */
  function Polls(arrivals: seq<seq<Byte>>): (seq<Byte>, seq<Byte>) {
    if arrivals == [] then ([], [])
    else
      var n := |arrivals| - 1;
      var (buf, yielded) := Polls(arrivals[..n]);
      var (rest, index) := PollResult(buf, arrivals[n]);
      (rest, yielded + if index.Some? then [index.value] else [])
  }

  lemma {:induction false} WireConcat(a: seq<AckMessage>, b: seq<AckMessage>)
    ensures Wire(a + b) == Wire(a) + Wire(b)
  {
    if a == [] {
      assert a + b == b;
    } else {
      assert (a + b)[1..] == a[1..] + b;
      WireConcat(a[1..], b);
    }
  }

  lemma CancelPrefix(a: seq<Byte>, b: seq<Byte>, c: seq<Byte>)
    requires a + b <= a + c
    ensures b <= c
  {
    assert (a + b)[|a|..] == b && (a + c)[|a|..] == c;
    assert (a + c)[..|a + b|] == a + b;
  }

  lemma FirstMessage(rest: seq<AckMessage>, all: seq<Byte>)
    requires all <= Wire(rest) && |all| >= 2
    ensures rest != [] && all == [rest[0].index, rest[0].total] + all[2..]
  {
  }

  lemma WireSnoc(done: seq<AckMessage>, m: AckMessage)
    ensures Wire(done + [m]) == Wire(done) + [m.index, m.total]
  {
    WireConcat(done, [m]);
    assert [m][1..] == [];
    assert Wire([m]) == [m.index, m.total];
  }

  /** One poll when `done` has been yielded and `rest` has not. */
  lemma OnePoll(done: seq<AckMessage>, rest: seq<AckMessage>, received: seq<Byte>, buf: seq<Byte>, arrived: seq<Byte>)
    requires received == Wire(done) + buf && received + arrived <= Wire(done + rest) && |buf + arrived| >= 2
    ensures var all := buf + arrived;
            rest != [] && all[0] == rest[0].index && received + arrived == Wire(done + [rest[0]]) + all[2..]
  {
    var all := buf + arrived;
    WireConcat(done, rest);
    Regroup(Wire(done), buf, arrived);
    CancelPrefix(Wire(done), all, Wire(rest));
    FirstMessage(rest, all);
    WireSnoc(done, rest[0]);
    Regroup(Wire(done), [rest[0].index, rest[0].total], all[2..]);
  }

  /** The indices yielded are those of the first acknowledgements, and the buffer holds the bytes after them. */
  ghost predicate InOrder(acks: seq<AckMessage>, received: seq<Byte>, buf: seq<Byte>, yielded: seq<Byte>) {
    && |yielded| <= |acks| && yielded == Indices(acks[..|yielded|])
    && received == Wire(acks[..|yielded|]) + buf
  }

  lemma PollKeepsOrder(acks: seq<AckMessage>, received: seq<Byte>, buf: seq<Byte>, yielded: seq<Byte>,
                       arrived: seq<Byte>)
    requires InOrder(acks, received, buf, yielded) && received + arrived <= Wire(acks)
    ensures var (rest, index) := PollResult(buf, arrived);
            InOrder(acks, received + arrived, rest, yielded + if index.Some? then [index.value] else [])
  {
    var k := |yielded|;
    assert acks[..k] + acks[k..] == acks;
    if |buf + arrived| >= 2 {
      OnePoll(acks[..k], acks[k..], received, buf, arrived);
      assert acks[..k + 1] == acks[..k] + [acks[k..][0]];
    }
  }

  /**
   However the stream is cut into reads, the polls yield the acknowledged indices in the order they
   were sent, and the bytes read but not yielded are exactly what the buffer holds.
   */
  lemma {:induction false} PollsYieldAcksInOrder(acks: seq<AckMessage>, arrivals: seq<seq<Byte>>)
    requires Join(arrivals) <= Wire(acks)
    ensures InOrder(acks, Join(arrivals), Polls(arrivals).0, Polls(arrivals).1)
  {
    if arrivals != [] {
      var n := |arrivals| - 1;
      PollsYieldAcksInOrder(acks, arrivals[..n]);
      PollKeepsOrder(acks, Join(arrivals[..n]), Polls(arrivals[..n]).0, Polls(arrivals[..n]).1, arrivals[n]);
    }
  }

  /** The given reads, and then `n` polls at which nothing more arrives. */
  function Idle(arrivals: seq<seq<Byte>>, n: nat): (more: seq<seq<Byte>>)
    ensures more == arrivals + seq(n, i => [])
  {
    if n == 0 then arrivals else Idle(arrivals, n - 1) + [[]]
  }

  lemma IdlePoll(arrivals: seq<seq<Byte>>, more: seq<seq<Byte>>)
    requires more == arrivals + [[]]
    ensures Join(more) == Join(arrivals)
    ensures var b := |Polls(arrivals).0|; |Polls(more).0| == if b >= 2 then b - 2 else b
  {
    assert more[..|more| - 1] == arrivals;
    assert Polls(arrivals).0 + [] == Polls(arrivals).0;
  }

  /** What `n` polls without arrivals leave of `b` buffered bytes. */
  function Drained(b: nat, n: nat): nat
    decreases n, b
  {
    if n == 0 then b else var d := Drained(b, n - 1); if d >= 2 then d - 2 else d
  }

  lemma {:induction false} DrainedDry(b: nat, n: nat, pairs: nat)
    requires b == 2 * pairs
    ensures Drained(b, n) == if n <= pairs then b - 2 * n else 0
    decreases n
  {
    if n > 0 {
      DrainedDry(b, n - 1, pairs);
    }
  }

  /** Every further poll takes one pair off the buffer. */
  lemma {:induction false} IdlePolls(arrivals: seq<seq<Byte>>, n: nat)
    ensures Join(Idle(arrivals, n)) == Join(arrivals)
    ensures |Polls(Idle(arrivals, n)).0| == Drained(|Polls(arrivals).0|, n)
  {
    if n > 0 {
      IdlePolls(arrivals, n - 1);
      IdlePoll(Idle(arrivals, n - 1), Idle(arrivals, n));
    }
  }

  lemma {:induction false} WireLength(a: seq<AckMessage>)
    ensures |Wire(a)| == 2 * |a|
  {
    if a != [] {
      WireLength(a[1..]);
    }
  }

  /** On the stream every acknowledgement is two bytes, its index before its count. */
  lemma {:induction false} WireBytes(a: seq<AckMessage>, k: nat)
    requires k < |a|
    ensures |Wire(a)| == 2 * |a| && Wire(a)[2 * k] == a[k].index && Wire(a)[2 * k + 1] == a[k].total
  {
    WireLength(a);
    if k > 0 {
      WireBytes(a[1..], k - 1);
    }
  }

  lemma PairsLeft(w: seq<Byte>, front: seq<Byte>, buf: seq<Byte>, all: nat, done: nat)
    requires w == front + buf && |w| == 2 * all && |front| == 2 * done
    ensures |buf| == 2 * (all - done)
  {
  }

  lemma BufferedPairs(acks: seq<AckMessage>, done: seq<AckMessage>, buf: seq<Byte>)
    requires Wire(acks) == Wire(done) + buf
    ensures |buf| == 2 * (|acks| - |done|)
  {
    WireLength(done);
    WireLength(acks);
    PairsLeft(Wire(acks), Wire(done), buf, |acks|, |done|);
  }

  /** With everything received, an empty buffer means that everything was yielded. */
  lemma AllReceived(acks: seq<AckMessage>, done: seq<AckMessage>, buf: seq<Byte>, yielded: seq<Byte>)
    requires done <= acks && yielded == Indices(done) && Wire(acks) == Wire(done) + buf
    ensures |buf| == 2 * (|acks| - |done|) && (buf == [] ==> yielded == Indices(acks))
  {
    BufferedPairs(acks, done, buf);
    if |done| == |acks| {
      assert done == acks;
    }
  }

  /**
   * Once all bytes are in, however they were cut into reads, polling on yields exactly the acknowledgements that were
   * sent: it takes one more poll for each pair still buffered, and no fewer will do.
   */
  lemma AllAcksAreYielded(acks: seq<AckMessage>, arrivals: seq<seq<Byte>>, n: nat)
    requires Join(arrivals) == Wire(acks)
    ensures Polls(arrivals + seq(n, i => [])) == ([], Indices(acks)) <==> 2 * n >= |Polls(arrivals).0|
  {
    var more := Idle(arrivals, n);
    IdlePolls(arrivals, n);
    PollsYieldAcksInOrder(acks, arrivals);
    PollsYieldAcksInOrder(acks, more);
    var done, all := acks[..|Polls(arrivals).1|], acks[..|Polls(more).1|];
    AllReceived(acks, done, Polls(arrivals).0, Polls(arrivals).1);
    AllReceived(acks, all, Polls(more).0, Polls(more).1);
    DrainedDry(|Polls(arrivals).0|, n, |acks| - |done|);
  }

  // ---- acknowledgements as radio frames ----

  class RfAckLink {
    const ackPayloadBytes: nat
    const fec: bool
    var rxFifo: seq<seq<Bit>>

    constructor (ackPayloadBytes: nat, fec: bool)
      ensures this.ackPayloadBytes == ackPayloadBytes && this.fec == fec && rxFifo == []
    {
      this.ackPayloadBytes, this.fec := ackPayloadBytes, fec;
      rxFifo := [];
    }

    ghost function ModeWith(code: Ldpc.LdpcCode?): Mode
      reads code
    {
      Mode(if fec then Some(Selected(code)) else None, false, ackPayloadBytes)
    }

    /** The frame of an acknowledgement is padded with spaces to the size of a data frame, and coded like one. */
    method SendAck(index: Byte, total: Byte, code: Ldpc.LdpcCode?, enc: Conv.ConvolutionalEncoder)
      returns (bits: seq<Bit>)
      requires (code != null ==> code.Valid()) && enc.Valid()
      modifies enc
      ensures old(ModeWith(code)).Works()
      ensures bits == Framed(old(ModeWith(code)).f, AckPacket(ackPayloadBytes, index, total))
    {
      bits := BuildPacketBits(seq(ackPayloadBytes, i => 32), index, total);
      if fec {
        bits := EncodeBlock(code, enc, bits);
      }
    }

    /** One frame is taken from the FIFO per poll; a corrupted one is no acknowledgement. */
    method PollAck(code: Ldpc.LdpcCode?, dec: Viterbi.ViterbiDecoder) returns (index: Option<Byte>)
      requires (code != null ==> code.Valid()) && dec.Valid()
      modifies this`rxFifo
      ensures old(rxFifo) == [] ==> index == None && rxFifo == []
      ensures old(rxFifo) != [] ==> rxFifo == old(rxFifo)[1..] && old(ModeWith(code)).Works()
      ensures old(rxFifo) != [] ==>
                var d := DecodePacket(BurstBits(old(ModeWith(code)), Burst(old(rxFifo)[0], [])));
                index == if d.crcOk then Some(d.index) else None
    {
      if rxFifo == [] {
        return None;
      }
      var bits := Corrected(rxFifo[0], code, dec);
      var d := DecodePacketBits(bits);
      rxFifo := rxFifo[1..];
      index := if d.crcOk then Some(d.index) else None;
    }

    method Corrected(raw: seq<Bit>, code: Ldpc.LdpcCode?, dec: Viterbi.ViterbiDecoder) returns (bits: seq<Bit>)
      requires (code != null ==> code.Valid()) && dec.Valid()
      ensures ModeWith(code).Works() && bits == BurstBits(ModeWith(code), Burst(raw, []))
    {
      bits := raw;
      if fec {
        bits := DecodeBurst(code, dec, raw, InfoLen(ackPayloadBytes));
      }
    }
  }

  function AckPacket(payloadBytes: nat, index: Byte, total: Byte): seq<Bit> {
    PacketBits(seq(payloadBytes, i => 32), index, total)
  }

  /** An acknowledgement frame that is damaged no more than the code puts right is read as the acknowledgement sent. */
  lemma RfAckIsRead(mode: Mode, index: Byte, total: Byte, frame: seq<Bit>, raw: seq<Bit>)
    requires mode.Works() && frame == Framed(mode.f, AckPacket(mode.payloadBytes, index, total))
    requires Carries(mode, frame, Burst(raw, []))
    ensures DecodePacket(BurstBits(mode, Burst(raw, [])))
         == Decoded(index, total, seq(mode.payloadBytes, i => ' ' as nat), true)
  {
    CarriedIsRead(mode, seq(mode.payloadBytes, i => 32), index, total, AckPacket(mode.payloadBytes, index, total),
                  Burst(raw, []));
  }
}
