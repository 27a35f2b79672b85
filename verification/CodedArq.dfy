/** Stop-and-wait ARQ with forward error correction: the same two ends, with coded frames in the air. */
module CodedArq {
  import opened Octets
  import opened Options
  import opened Bits
  import opened Packet
  import opened Chunks
  import opened FecBlocks
  import opened CodedPackets
  import opened StopAndWait
  import Ldpc
  import Viterbi

  /** The sink with its error correction in front. */
  class CodedSink {
    const sink: Sink
    const fec: bool
    const soft: bool
    const payloadBytes: nat

    constructor (fec: bool, soft: bool, payloadBytes: nat)
      ensures fresh(sink) && sink.State() == SinkState(map[], false)
      ensures this.fec == fec && this.soft == soft && this.payloadBytes == payloadBytes
    {
      sink := new Sink();
      this.fec, this.soft, this.payloadBytes := fec, soft, payloadBytes;
    }

    ghost function ModeWith(code: Ldpc.LdpcCode?): Mode
      reads code
    {
      Mode(if fec then Some(Selected(code)) else None, soft, payloadBytes)
    }

    /** Decodes channel values when there are any and they are wanted, and hard bits otherwise. */
    method Corrected(burst: CodedPackets.Burst, code: Ldpc.LdpcCode?, dec: Viterbi.ViterbiDecoder)
      returns (bits: seq<Bit>)
      requires (code != null ==> code.Valid()) && dec.Valid()
      ensures ModeWith(code).Works() && bits == BurstBits(ModeWith(code), burst)
    {
      var infoLen := InfoLen(payloadBytes);
      if !fec {
        bits := burst.raw;
      } else if soft && burst.llrs != [] {
        bits := DecodeSoftBurst(code, dec, burst.llrs, infoLen);
      } else {
        bits := DecodeBurst(code, dec, burst.raw, infoLen);
      }
    }

    /** One turn of the listening loop: decode, then store and acknowledge. */
    method Receive(burst: CodedPackets.Burst, code: Ldpc.LdpcCode?, dec: Viterbi.ViterbiDecoder)
      returns (ack: Option<Byte>)
      requires (code != null ==> code.Valid()) && dec.Valid()
      modifies sink
      ensures old(ModeWith(code)).Works()
      ensures var bits := BurstBits(old(ModeWith(code)), burst);
              && sink.State() == OnBurst(old(sink.State()), bits)
              && ack == if Accepts(bits) then Some(DecodePacket(bits).index) else None
    {
      var bits := Corrected(burst, code, dec);
      ack := sink.Receive(bits);
    }
  }

  // ---- the two ends and coded frames in the air between them ----

  datatype CodedMove = Tick(tick: StopAndWait.Tick) | Hear(burst: CodedPackets.Burst)

  /** Chunks of one size: the sink trims every burst to the coded length of such a chunk. */
  ghost predicate Sized(mode: Mode, chunks: seq<Message>) {
    mode.f.Some? ==> forall i | 0 <= i < Total(chunks) :: |chunks[i]| == mode.payloadBytes
  }

  function Coded(f: Option<Fec>, air: set<seq<Bit>>): set<seq<Bit>>
    requires f.Some? && f.value.LowDensity? ==> f.value.G.k > 0
  {
    set bits | bits in air :: Framed(f, bits)
  }

  ghost function CodedBegin(chunks: seq<Message>, mode: Mode): System
    requires mode.Works()
  {
    var s := Start(Total(chunks));
    System(s, Coded(mode.f, Aired(chunks, s)), SinkState(map[], false), {})
  }

  /** A burst carries a transmitted frame within what the code puts right, or what is made of it fails the CRC. */
  ghost predicate CodedPossible(mode: Mode, y: System, move: CodedMove)
    requires mode.Works()
  {
    match move
    case Tick(tick) => tick.event.Ack? ==> tick.event.index in y.acks
    case Hear(burst) =>
      || (exists c | c in y.air :: Carries(mode, c, burst))
      || !DecodePacket(BurstBits(mode, burst)).crcOk
  }

  ghost function CodedApply(chunks: seq<Message>, maxAttempts: nat, mode: Mode, y: System, move: CodedMove): System
    requires mode.Works()
  {
    match move
    case Tick(tick) =>
      var s := OnTick(y.source, tick, Total(chunks), maxAttempts);
      y.(source := s, air := y.air + Coded(mode.f, Aired(chunks, s)))
    case Hear(burst) =>
      var bits := BurstBits(mode, burst);
      y.(sink := OnBurst(y.sink, bits), acks := if Accepts(bits) then y.acks + {DecodePacket(bits).index} else y.acks)
  }

  ghost function CodedReached(chunks: seq<Message>, maxAttempts: nat, mode: Mode, moves: seq<CodedMove>): System
    requires mode.Works()
  {
    if moves == [] then CodedBegin(chunks, mode)
    else
      var n := |moves| - 1;
      CodedApply(chunks, maxAttempts, mode, CodedReached(chunks, maxAttempts, mode, moves[..n]), moves[n])
  }

  ghost predicate AllCodedPossible(chunks: seq<Message>, maxAttempts: nat, mode: Mode, moves: seq<CodedMove>)
    requires mode.Works()
  {
    if moves == [] then true
    else
      var n := |moves| - 1;
      && AllCodedPossible(chunks, maxAttempts, mode, moves[..n])
      && CodedPossible(mode, CodedReached(chunks, maxAttempts, mode, moves[..n]), moves[n])
  }

  // ---- error correction is transparent ----

  ghost function PlainMove(mode: Mode, move: CodedMove): Move
    requires mode.Works()
  {
    match move
    case Tick(tick) => Turn(tick)
    case Hear(burst) => StopAndWait.Burst(BurstBits(mode, burst))
  }

  ghost function Plain(mode: Mode, moves: seq<CodedMove>): (plain: seq<Move>)
    requires mode.Works()
    ensures |plain| == |moves|
  {
    seq(|moves|, i requires 0 <= i < |moves| => PlainMove(mode, moves[i]))
  }

  /** The same two ends; the air holds the frames under the code. */
  ghost predicate SameEnds(mode: Mode, y: System, x: System)
    requires mode.Works()
  {
    y == x.(air := Coded(mode.f, x.air))
  }

  lemma ChunkIsRead(mode: Mode, payload: Message, i: Byte, total: Byte, bits: seq<Bit>, c: seq<Bit>,
                    burst: CodedPackets.Burst)
    requires mode.Works() && (mode.f.Some? ==> |payload| == mode.payloadBytes)
    requires bits == PacketBits(payload, i, total) && c == Framed(mode.f, bits) && Carries(mode, c, burst)
    ensures BurstBits(mode, burst) == bits
  {
    CarriedIsRead(mode, payload, i, total, bits, burst);
  }

  lemma FrameOfPacket(chunks: seq<Message>, f: Option<Fec>, air: set<seq<Bit>>, c: seq<Bit>)
    returns (bits: seq<Bit>, i: nat)
    requires f.Some? && f.value.LowDensity? ==> f.value.G.k > 0
    requires AirInv(chunks, air) && c in Coded(f, air)
    ensures bits in air && c == Framed(f, bits) && i < Total(chunks) && bits == PacketOf(chunks, i)
  {
    bits :| bits in air && c == Framed(f, bits);
    i :| 0 <= i < Total(chunks) && bits == PacketOf(chunks, i);
  }

  /** What is made of a burst that carries a frame was transmitted, before coding. */
  lemma BurstIsPlain(chunks: seq<Message>, mode: Mode, air: set<seq<Bit>>, c: seq<Bit>, burst: CodedPackets.Burst)
    requires mode.Works() && Sized(mode, chunks) && AirInv(chunks, air)
    requires c in Coded(mode.f, air) && Carries(mode, c, burst)
    ensures BurstBits(mode, burst) in air
  {
    var bits, i := FrameOfPacket(chunks, mode.f, air, c);
    ChunkIsRead(mode, chunks[i], i, Total(chunks), bits, c, burst);
  }

  lemma MoveIsPlain(chunks: seq<Message>, mode: Mode, y: System, x: System, move: CodedMove)
    requires mode.Works() && Sized(mode, chunks) && AirInv(chunks, x.air) && SameEnds(mode, y, x)
    requires CodedPossible(mode, y, move)
    ensures Possible(x, PlainMove(mode, move))
  {
    if move.Hear? && exists c | c in y.air :: Carries(mode, c, move.burst) {
      var c :| c in y.air && Carries(mode, c, move.burst);
      BurstIsPlain(chunks, mode, x.air, c, move.burst);
    }
  }

  lemma CodedUnion(f: Option<Fec>, a: set<seq<Bit>>, b: set<seq<Bit>>)
    requires f.Some? && f.value.LowDensity? ==> f.value.G.k > 0
    ensures Coded(f, a + b) == Coded(f, a) + Coded(f, b)
  {
  }

  lemma SameEndsStep(chunks: seq<Message>, maxAttempts: nat, mode: Mode, y: System, x: System, move: CodedMove)
    requires mode.Works() && SameEnds(mode, y, x)
    ensures SameEnds(mode, CodedApply(chunks, maxAttempts, mode, y, move),
                     Apply(chunks, maxAttempts, x, PlainMove(mode, move)))
  {
    if move.Tick? {
      CodedUnion(mode.f, x.air, Aired(chunks, OnTick(x.source, move.tick, Total(chunks), maxAttempts)));
    }
  }

  lemma CodedStepIsPlain(chunks: seq<Message>, maxAttempts: nat, mode: Mode, before: seq<Move>, y: System, x: System,
                         move: CodedMove, m: Move)
    requires mode.Works() && Sized(mode, chunks) && AllPossible(chunks, maxAttempts, before)
    requires x == Reached(chunks, maxAttempts, before) && SameEnds(mode, y, x) && CodedPossible(mode, y, move)
    requires m == PlainMove(mode, move)
    ensures AllPossible(chunks, maxAttempts, before + [m])
    ensures SameEnds(mode, CodedApply(chunks, maxAttempts, mode, y, move), Reached(chunks, maxAttempts, before + [m]))
  {
    RunKeepsInv(chunks, maxAttempts, before);
    MoveIsPlain(chunks, mode, y, x, move);
    SameEndsStep(chunks, maxAttempts, mode, y, x, move);
    OneMove(chunks, maxAttempts, before, m, x, Apply(chunks, maxAttempts, x, m));
  }

  /** Every run with coded frames is a run without, as far as the two ends can tell. */
  lemma {:induction false} CodedRunIsPlain(chunks: seq<Message>, maxAttempts: nat, mode: Mode, moves: seq<CodedMove>)
    requires mode.Works() && Sized(mode, chunks) && AllCodedPossible(chunks, maxAttempts, mode, moves)
    ensures AllPossible(chunks, maxAttempts, Plain(mode, moves))
    ensures SameEnds(mode, CodedReached(chunks, maxAttempts, mode, moves),
                     Reached(chunks, maxAttempts, Plain(mode, moves)))
  {
    if moves != [] {
      var n := |moves| - 1;
      var before, m := Plain(mode, moves[..n]), PlainMove(mode, moves[n]);
      assert Plain(mode, moves) == before + [m];
      CodedRunIsPlain(chunks, maxAttempts, mode, moves[..n]);
      CodedStepIsPlain(chunks, maxAttempts, mode, before, CodedReached(chunks, maxAttempts, mode, moves[..n]),
                       Reached(chunks, maxAttempts, before), moves[n], m);
    }
  }

  // ---- so the guarantees carry over ----

  /** A chunk on record as acknowledged is held at the sink as it was sent, bit errors and all. */
  lemma CodedAcknowledgedIsStored(chunks: seq<Message>, maxAttempts: nat, mode: Mode, moves: seq<CodedMove>, i: nat)
    requires mode.Works() && Sized(mode, chunks) && AllCodedPossible(chunks, maxAttempts, mode, moves)
    requires var s := CodedReached(chunks, maxAttempts, mode, moves).source; i < |s.okPer| && s.okPer[i]
    ensures var held := CodedReached(chunks, maxAttempts, mode, moves).sink.chunks;
            i < 256 && i in held && i < |chunks| && held[i] == chunks[i]
  {
    CodedRunIsPlain(chunks, maxAttempts, mode, moves);
    AcknowledgedIsStored(chunks, maxAttempts, Plain(mode, moves), i);
  }

  /** After a clean run the sink saves the message exactly when it makes at most 255 chunks. */
  lemma CodedCleanRunSavesMessageIff(msg: Message, n: nat, maxAttempts: nat, mode: Mode, moves: seq<CodedMove>)
    requires n > 0 && mode.Works() && Sized(mode, Split(msg, n))
    requires AllCodedPossible(Split(msg, n), maxAttempts, mode, moves)
    requires Clean(CodedReached(Split(msg, n), maxAttempts, mode, moves).source)
    ensures var held := CodedReached(Split(msg, n), maxAttempts, mode, moves).sink.chunks;
            |held| <= 256 && (JoinBelow(held, |held|) == msg <==> |Split(msg, n)| <= 255)
  {
    CodedRunIsPlain(Split(msg, n), maxAttempts, mode, moves);
    CleanRunSavesMessageIff(msg, n, maxAttempts, Plain(mode, moves));
  }
}
