/**
 Stop-and-wait ARQ between SOURCE and SINK over a channel that may lose, repeat and reorder data
 frames and acknowledgements. Frames that fail the CRC count as lost.
 */
module StopAndWait {
  import opened Octets
  import opened Options
  import opened Bits
  import opened Packet
  import opened Chunks
  import opened Counting

  type Message = seq<Byte>

  // ---- SOURCE ----

  // One turn of the waiting loop: what the poll or the clock says.
  datatype Event = Ack(index: nat) | Nothing | Deadline

  // `stop`: running_ was cleared after this turn, before the loop conditions are read again.
  datatype Tick = Tick(event: Event, stop: bool)

  datatype Source = Source(
    index: nat,              // the chunk being sent
    tries: nat,              // its transmissions so far
    sent: nat,
    retx: nat,
    failed: nat,
    triesPer: seq<nat>,      // per finished chunk: transmissions, and whether it was acknowledged
    okPer: seq<bool>,
    stopped: bool,
    finished: bool)

  /** The number of chunks as the source announces it: eight bits. */
  function Total(chunks: seq<Message>): Byte {
    |chunks| % 256
  }

  /** Starts the next chunk with its first transmission, unless none is left. */
  function NextChunk(s: Source, total: nat): Source {
    if s.index < total then s.(tries := 1, sent := s.sent + 1) else s.(finished := true)
  }

  function Start(total: nat): Source {
    NextChunk(Source(0, 0, 0, 0, 0, [], [], false, false), total)
  }

  /** Leaves the current chunk with its outcome on record. */
  function CloseChunk(s: Source, acked: bool, stop: bool, total: nat): Source {
    var t := s.(index := s.index + 1, triesPer := s.triesPer + [s.tries], okPer := s.okPer + [acked]);
    if stop then t.(stopped := true, finished := true) else NextChunk(t, total)
  }

  /** An attempt that ended without an acknowledgement. */
  function Unanswered(s: Source, stop: bool, total: nat, maxAttempts: nat): Source {
    var t := s.(retx := s.retx + 1);
    if maxAttempts > 0 && s.tries >= maxAttempts then CloseChunk(t.(failed := s.failed + 1), false, stop, total)
    else if stop then CloseChunk(t, false, true, total)
    else t.(tries := s.tries + 1, sent := s.sent + 1)
  }

  function OnTick(s: Source, tick: Tick, total: nat, maxAttempts: nat): Source {
    if s.finished then s
    else match tick.event
      case Ack(i) =>
        if i == s.index then CloseChunk(s, true, tick.stop, total)
        else if tick.stop then Unanswered(s, true, total, maxAttempts)
        else s
      case Nothing => if tick.stop then Unanswered(s, true, total, maxAttempts) else s
      case Deadline => Unanswered(s, tick.stop, total, maxAttempts)
  }

  function After(script: seq<Tick>, total: nat, maxAttempts: nat): Source {
    if script == [] then Start(total)
    else OnTick(After(script[..|script| - 1], total, maxAttempts), script[|script| - 1], total, maxAttempts)
  }

  lemma AfterStep(script: seq<Tick>, n: nat, total: nat, maxAttempts: nat)
    requires n < |script|
    ensures After(script[..n + 1], total, maxAttempts)
         == OnTick(After(script[..n], total, maxAttempts), script[n], total, maxAttempts)
  {
    assert script[..n + 1][..n] == script[..n];
  }

  lemma {:induction false} StaysFinished(script: seq<Tick>, i: nat, total: nat, maxAttempts: nat)
    requires i <= |script| && After(script[..i], total, maxAttempts).finished
    ensures After(script, total, maxAttempts) == After(script[..i], total, maxAttempts)
    decreases |script|
  {
    if i == |script| {
      assert script[..i] == script;
    } else {
      var m := |script| - 1;
      assert script[..m][..i] == script[..i];
      StaysFinished(script[..m], i, total, maxAttempts);
    }
  }

  /** The loops of the source over its chunks, driven by the turns in `script` until they end. */
  method Run(chunks: seq<Message>, maxAttempts: nat, script: seq<Tick>)
    returns (sent: nat, retx: nat, failed: nat, triesPer: seq<nat>, okPer: seq<bool>)
    requires After(script, Total(chunks), maxAttempts).finished
    ensures |okPer| == |triesPer| == Total(chunks)
    ensures var s := After(script, Total(chunks), maxAttempts);
            && s.sent == sent && s.retx == retx && s.failed == failed && s.index <= Total(chunks)
            && s.okPer == okPer[..s.index] && s.triesPer == triesPer[..s.index]
            && forall i | s.index <= i < Total(chunks) :: !okPer[i] && triesPer[i] == 0
  {
    var total := |chunks| % 256;
    sent, retx, failed := 0, 0, 0;
    triesPer, okPer := seq(total, i => 0), seq(total, i => false);
    var running, next := true, 0;
    ghost var s := Start(total); // the machine after the turns taken so far
    assert script[..0] == [] && script[..|script|] == script;
    var index := 0;
    while index < total && running
      invariant 0 <= next <= |script| && index <= total && s == After(script[..next], total, maxAttempts)
      invariant |okPer| == |triesPer| == total
      invariant forall i | index <= i < total :: !okPer[i] && triesPer[i] == 0
      invariant s == if index < total && running
                     then Source(index, 1, sent + 1, retx, failed, triesPer[..index], okPer[..index], false, false)
                     else Source(index, s.tries, sent, retx, failed, triesPer[..index], okPer[..index], !running, true)
      decreases total - index
    {
      ghost var tp, op := triesPer[..index], okPer[..index];
      var acked, tries;
      acked, running, tries, next, sent, retx, failed, s :=
        SendChunk(script, next, index, total, maxAttempts, sent, retx, failed, tp, op);
      triesPer := triesPer[index := tries];
      okPer := okPer[index := acked];
      assert triesPer[..index + 1] == tp + [tries] && okPer[..index + 1] == op + [acked];
      index := index + 1;
    }
    StaysFinished(script, next, total, maxAttempts);
  }

  /** The loop over the attempts of one chunk. */
  method SendChunk(script: seq<Tick>, from: nat, index: nat, total: nat, maxAttempts: nat,
                   sent0: nat, retx0: nat, failed0: nat, ghost tp: seq<nat>, ghost op: seq<bool>)
    returns (acked: bool, running: bool, tries: nat, next: nat, sent: nat, retx: nat, failed: nat, ghost s: Source)
    requires from <= |script| && After(script, total, maxAttempts).finished
    requires After(script[..from], total, maxAttempts)
          == Source(index, 1, sent0 + 1, retx0, failed0, tp, op, false, false)
    ensures next <= |script| && s == After(script[..next], total, maxAttempts)
    ensures s == CloseChunk(Source(index, tries, sent, retx, failed, tp, op, false, false), acked, !running, total)
  {
    acked, running, tries, next, sent, retx, failed := false, true, 0, from, sent0, retx0, failed0;
    s := After(script[..from], total, maxAttempts);
    var gaveUp := false;
    assert script[..|script|] == script;
    while !acked && running && !gaveUp
      invariant next <= |script| && s == After(script[..next], total, maxAttempts)
      invariant s == if !acked && running && !gaveUp
                     then Source(index, tries + 1, sent + 1, retx, failed, tp, op, false, false)
                     else CloseChunk(Source(index, tries, sent, retx, failed, tp, op, false, false), acked, !running,
                                     total)
      decreases |script| - next, !gaveUp
    {
      tries := tries + 1;
      sent := sent + 1;
      acked, running, next, s := Wait(script, next, index, total, maxAttempts, s);
      if !acked {
        retx := retx + 1;
        if maxAttempts > 0 && tries >= maxAttempts {
          failed := failed + 1;
          gaveUp := true;
        }
      }
    }
  }

  /** The innermost loop: polls until the awaited acknowledgement, the deadline or a stop. */
  method Wait(script: seq<Tick>, from: nat, index: nat, total: nat, maxAttempts: nat, ghost waiting: Source)
    returns (acked: bool, running: bool, next: nat, ghost s: Source)
    requires from <= |script| && After(script, total, maxAttempts).finished
    requires waiting == After(script[..from], total, maxAttempts) && !waiting.finished && waiting.index == index
    ensures from < next <= |script| && s == After(script[..next], total, maxAttempts)
    ensures s == if acked then CloseChunk(waiting, true, !running, total)
                 else Unanswered(waiting, !running, total, maxAttempts)
  {
    acked, running, next, s := false, true, from, waiting;
    var expired := false;
    assert script[..|script|] == script;
    while !acked && !expired && running
      invariant from <= next <= |script| && s == After(script[..next], total, maxAttempts)
      invariant s == if acked then CloseChunk(waiting, true, !running, total)
                     else if expired || !running then Unanswered(waiting, !running, total, maxAttempts)
                     else waiting
      invariant acked || expired || !running ==> from < next
      decreases |script| - next
    {
      var tick := script[next];
      AfterStep(script, next, total, maxAttempts);
      s := OnTick(s, tick, total, maxAttempts);
      next := next + 1;
      match tick.event {
        case Ack(i) =>
          if i == index {
            acked := true;
          } // a stale acknowledgement is ignored
        case Nothing =>
        case Deadline => expired := true;
      }
      running := !tick.stop;
    }
  }

  // ---- SINK ----

  datatype SinkState = SinkState(chunks: map<Byte, Message>, done: bool)

  /** What a received burst makes the sink do: store and acknowledge a verified chunk, or nothing. */
  function Accepts(bits: seq<Bit>): bool {
    var d := DecodePacket(bits);
    d.crcOk && d.total != 0 && d.index < d.total
  }

  /** The sink accepts exactly the packets, with fewer than eight bits after them, whose index is below their count. */
  lemma AcceptsIff(bits: seq<Bit>)
    ensures Accepts(bits) <==> exists payload, index: Byte, total: Byte, pad: seq<Bit> ::
                                 index < total && |pad| < 8 && bits == PacketBits(payload, index, total) + pad
  {
    if Accepts(bits) {
      var d := DecodePacket(bits);
      AcceptedIsPacket(bits);
      var packet := PacketBits(d.payload, d.index, d.total);
      assert bits == packet + bits[|packet|..];
    }
    forall payload, index: Byte, total: Byte, pad: seq<Bit> |
      index < total && |pad| < 8 && bits == PacketBits(payload, index, total) + pad
      ensures Accepts(bits)
    {
      PacketRoundTrip(payload, index, total, pad);
    }
  }

  function OnBurst(k: SinkState, bits: seq<Bit>): SinkState {
    if !Accepts(bits) then k
    else
      var d := DecodePacket(bits);
      var chunks := k.chunks[d.index := d.payload];
      SinkState(chunks, k.done || |chunks| == d.total)
  }

  /** The chunks with indices below `n`, in order; a missing one is skipped. */
  function JoinBelow(chunks: map<Byte, Message>, n: nat): Message
    requires n <= 256
  {
    if n == 0 then []
    else JoinBelow(chunks, n - 1) + if n - 1 in chunks then chunks[n - 1] else []
  }

  /** A packet whose index is below its count replaces what is held under that index; any other changes nothing. */
  lemma PacketReplaces(k: SinkState, payload: Message, index: Byte, total: Byte, pad: seq<Bit>)
    requires |pad| < 8
    ensures OnBurst(k, PacketBits(payload, index, total) + pad)
         == if index < total
            then SinkState(k.chunks[index := payload], k.done || |k.chunks[index := payload]| == total) else k
  {
    PacketRoundTrip(payload, index, total, pad);
  }

  /** The indices below `n` that are held, in increasing order. */
  function HeldBelow(chunks: map<Byte, Message>, n: nat): (held: seq<Byte>)
    requires n <= 256
    ensures forall i: Byte :: i in held <==> i < n && i in chunks
    ensures forall a, b | 0 <= a < b < |held| :: held[a] < held[b]
  {
    if n == 0 then []
    else
      var rest := HeldBelow(chunks, n - 1);
      assert forall a | 0 <= a < |rest| :: rest[a] in rest;
      if n - 1 in chunks then rest + [n - 1] else rest
  }

  /** What is saved is the chunks held below `n`, each once and in the order of their indices. */
  lemma {:induction false} SavedInOrder(chunks: map<Byte, Message>, n: nat)
    requires n <= 256
    ensures var held := HeldBelow(chunks, n);
            JoinBelow(chunks, n) == Join(seq(|held|, a requires 0 <= a < |held| => chunks[held[a]]))
  {
    if n > 0 {
      SavedInOrder(chunks, n - 1);
      var before, held := HeldBelow(chunks, n - 1), HeldBelow(chunks, n);
      if n - 1 in chunks {
        var all := seq(|held|, a requires 0 <= a < |held| => chunks[held[a]]);
        assert all[..|before|] == seq(|before|, a requires 0 <= a < |before| => chunks[before[a]]);
      }
    }
  }

  class Sink {
    var chunks: map<Byte, Message>
    var done: bool

    constructor ()
      ensures State() == SinkState(map[], false)
    {
      chunks, done := map[], false;
    }

    ghost function State(): SinkState
      reads this
    {
      SinkState(chunks, done)
    }

    /** One turn of the listening loop with the bits that arrived; returns the acknowledgement to send. */
    method Receive(bits: seq<Bit>) returns (ack: Option<Byte>)
      modifies this
      ensures State() == OnBurst(old(State()), bits)
      ensures ack == if Accepts(bits) then Some(DecodePacket(bits).index) else None
    {
      var d := DecodePacketBits(bits);
      if !d.crcOk || d.total == 0 || d.index >= d.total {
        return None;
      }
      chunks := chunks[d.index := d.payload];
      ack := Some(d.index);
      if d.total > 0 && |chunks| == d.total {
        done := true;
      }
    }

    method SaveMessage() returns (full: Message)
      requires |chunks| <= 256
      ensures full == JoinBelow(chunks, |chunks|)
    {
      full := [];
      for i := 0 to |chunks|
        invariant full == JoinBelow(chunks, i)
      {
        if i in chunks {
          full := full + chunks[i];
        }
      }
    }
  }

  // ---- the two ends and the air between them ----

  datatype System = System(source: Source, air: set<seq<Bit>>, sink: SinkState, acks: set<nat>)

  // `air` and `acks` hold all that was ever transmitted, so that a frame may arrive any number of
  // times, in any order, or never.
  datatype Move = Turn(tick: Tick) | Burst(bits: seq<Bit>)

  function PacketOf(chunks: seq<Message>, i: nat): seq<Bit>
    requires i < Total(chunks)
  {
    PacketBits(chunks[i], i, Total(chunks))
  }

  /** The frame the source transmits on entering state `s`, if it does: it then waits for chunk `s.index`. */
  function Aired(chunks: seq<Message>, s: Source): set<seq<Bit>> {
    if !s.finished && s.index < Total(chunks) then {PacketOf(chunks, s.index)} else {}
  }

  function Begin(chunks: seq<Message>): System {
    var s := Start(Total(chunks));
    System(s, Aired(chunks, s), SinkState(map[], false), {})
  }

  /** An acknowledgement can be polled only if it was sent; a burst that passes the CRC was transmitted. */
  predicate Possible(y: System, move: Move) {
    match move
    case Turn(tick) => tick.event.Ack? ==> tick.event.index in y.acks
    case Burst(bits) => bits in y.air || !DecodePacket(bits).crcOk
  }

  function Apply(chunks: seq<Message>, maxAttempts: nat, y: System, move: Move): System {
    match move
    case Turn(tick) =>
      var s := OnTick(y.source, tick, Total(chunks), maxAttempts);
      y.(source := s, air := y.air + Aired(chunks, s))
    case Burst(bits) =>
      y.(sink := OnBurst(y.sink, bits), acks := if Accepts(bits) then y.acks + {DecodePacket(bits).index} else y.acks)
  }

  function Reached(chunks: seq<Message>, maxAttempts: nat, moves: seq<Move>): System {
    if moves == [] then Begin(chunks)
    else Apply(chunks, maxAttempts, Reached(chunks, maxAttempts, moves[..|moves| - 1]), moves[|moves| - 1])
  }

  predicate AllPossible(chunks: seq<Message>, maxAttempts: nat, moves: seq<Move>) {
    if moves == [] then true
    else
      && AllPossible(chunks, maxAttempts, moves[..|moves| - 1])
      && Possible(Reached(chunks, maxAttempts, moves[..|moves| - 1]), moves[|moves| - 1])
  }

  // ---- the invariant ----

  function CountTrue(oks: seq<bool>): nat {
    if oks == [] then 0 else CountTrue(oks[..|oks| - 1]) + if oks[|oks| - 1] then 1 else 0
  }

  /** The counters add up, and a chunk is left unacknowledged only by giving up or by a stop. */
  ghost predicate SourceInv(s: Source, total: nat, maxAttempts: nat) {
    && |s.okPer| == |s.triesPer| == s.index <= total
    && s.sent == s.retx + CountTrue(s.okPer) + (if s.finished then 0 else 1)
    && CountTrue(s.okPer) + s.failed <= s.index
    && (!s.stopped ==> CountTrue(s.okPer) + s.failed == s.index)
    && (s.stopped ==> s.finished)
    && (s.finished && !s.stopped ==> s.index == total)
    && (!s.finished ==> s.index < total && s.tries >= 1 && (maxAttempts > 0 ==> s.tries <= maxAttempts))
    && (maxAttempts > 0 ==> forall i | 0 <= i < s.index :: s.triesPer[i] <= maxAttempts)
  }

  ghost predicate SinkInv(chunks: seq<Message>, k: SinkState) {
    && (forall i | i in k.chunks :: i < Total(chunks) && k.chunks[i] == chunks[i])
    && (k.done <==> |k.chunks| == Total(chunks) && k.chunks != map[])
  }

  ghost predicate AirInv(chunks: seq<Message>, air: set<seq<Bit>>) {
    forall bits | bits in air :: exists i :: 0 <= i < Total(chunks) && bits == PacketOf(chunks, i)
  }

  /** What is acknowledged, on the way or on the source's record, is stored at the sink. */
  ghost predicate Stored(held: map<Byte, Message>, acks: set<nat>, okPer: seq<bool>) {
    && (forall i | i in acks :: i < 256 && i in held)
    && (forall i | 0 <= i < |okPer| && okPer[i] :: i < 256 && i in held)
  }

  ghost predicate Inv(chunks: seq<Message>, maxAttempts: nat, y: System) {
    && SourceInv(y.source, Total(chunks), maxAttempts)
    && AirInv(chunks, y.air)
    && SinkInv(chunks, y.sink)
    && Stored(y.sink.chunks, y.acks, y.source.okPer)
  }

  lemma CountTrueSnoc(oks: seq<bool>, ok: bool)
    ensures CountTrue(oks + [ok]) == CountTrue(oks) + if ok then 1 else 0
  {
    assert (oks + [ok])[..|oks|] == oks;
  }

  lemma CloseKeepsInv(s: Source, acked: bool, gaveUp: bool, stop: bool, total: nat, maxAttempts: nat)
    requires SourceInv(s, total, maxAttempts) && !s.finished
    requires if acked then !gaveUp else gaveUp || stop
    ensures var t := if acked then s else s.(retx := s.retx + 1, failed := s.failed + if gaveUp then 1 else 0);
            SourceInv(CloseChunk(t, acked, stop, total), total, maxAttempts)
  {
    CountTrueSnoc(s.okPer, acked);
  }

  lemma UnansweredKeepsInv(s: Source, stop: bool, total: nat, maxAttempts: nat)
    requires SourceInv(s, total, maxAttempts) && !s.finished
    ensures SourceInv(Unanswered(s, stop, total, maxAttempts), total, maxAttempts)
  {
    var gaveUp := maxAttempts > 0 && s.tries >= maxAttempts;
    if gaveUp || stop {
      CloseKeepsInv(s, false, gaveUp, stop, total, maxAttempts);
    }
  }

  lemma TickKeepsInv(s: Source, tick: Tick, total: nat, maxAttempts: nat)
    requires SourceInv(s, total, maxAttempts)
    ensures SourceInv(OnTick(s, tick, total, maxAttempts), total, maxAttempts)
  {
    if !s.finished {
      UnansweredKeepsInv(s, tick.stop, total, maxAttempts);
      CloseKeepsInv(s, true, false, tick.stop, total, maxAttempts);
    }
  }

  /** Only the awaited acknowledgement marks a chunk as acknowledged. */
  lemma TickMarks(s: Source, tick: Tick, total: nat, maxAttempts: nat)
    requires SourceInv(s, total, maxAttempts)
    ensures var t := OnTick(s, tick, total, maxAttempts);
            || t.okPer == s.okPer
            || t.okPer == s.okPer + [false]
            || (t.okPer == s.okPer + [true] && tick.event == Ack(|s.okPer|))
  {
  }

  lemma TickKeepsStored(s: Source, tick: Tick, total: nat, maxAttempts: nat, held: map<Byte, Message>, acks: set<nat>)
    requires SourceInv(s, total, maxAttempts) && Stored(held, acks, s.okPer)
    requires tick.event.Ack? ==> tick.event.index in acks
    ensures Stored(held, acks, OnTick(s, tick, total, maxAttempts).okPer)
  {
    TickMarks(s, tick, total, maxAttempts);
  }

  lemma TurnKeepsInv(chunks: seq<Message>, maxAttempts: nat, y: System, tick: Tick)
    requires Inv(chunks, maxAttempts, y) && Possible(y, Turn(tick))
    ensures Inv(chunks, maxAttempts, Apply(chunks, maxAttempts, y, Turn(tick)))
  {
    TickKeepsInv(y.source, tick, Total(chunks), maxAttempts);
    TickKeepsStored(y.source, tick, Total(chunks), maxAttempts, y.sink.chunks, y.acks);
  }

  lemma DecodedPacket(chunks: seq<Message>, i: nat)
    requires i < Total(chunks)
    ensures DecodePacket(PacketOf(chunks, i)) == Decoded(i, Total(chunks), chunks[i], true)
  {
    PacketRoundTrip(chunks[i], i, Total(chunks), []);
    assert PacketOf(chunks, i) + [] == PacketOf(chunks, i);
  }

  /** An accepted burst is a transmitted packet, so what the sink stores is the chunk it carries. */
  lemma AcceptedBurst(chunks: seq<Message>, air: set<seq<Bit>>, bits: seq<Bit>) returns (i: nat)
    requires AirInv(chunks, air) && Accepts(bits) && (bits in air || !DecodePacket(bits).crcOk)
    ensures i < Total(chunks) && DecodePacket(bits) == Decoded(i, Total(chunks), chunks[i], true)
  {
    i :| 0 <= i < Total(chunks) && bits == PacketOf(chunks, i);
    DecodedPacket(chunks, i);
  }

  lemma StoreKeepsSink(chunks: seq<Message>, k: SinkState, i: nat)
    requires SinkInv(chunks, k) && i < Total(chunks)
    ensures var held := k.chunks[i := chunks[i]];
            SinkInv(chunks, SinkState(held, k.done || |held| == Total(chunks)))
  {
    var held := k.chunks[i := chunks[i]];
    KeysBelow(held, Total(chunks));
    SmallerSubset(k.chunks.Keys, held.Keys);
  }

  lemma BurstKeepsInv(chunks: seq<Message>, maxAttempts: nat, y: System, bits: seq<Bit>)
    requires Inv(chunks, maxAttempts, y) && Possible(y, Burst(bits))
    ensures Inv(chunks, maxAttempts, Apply(chunks, maxAttempts, y, Burst(bits)))
  {
    if Accepts(bits) {
      var i := AcceptedBurst(chunks, y.air, bits);
      StoreKeepsSink(chunks, y.sink, i);
    }
  }

  lemma KeysBelow(m: map<Byte, Message>, n: nat)
    requires n <= 256 && forall i | i in m :: i < n
    ensures |m| <= n
    ensures |m| == n ==> m.Keys == Below(n)
  {
    SmallerSubset(m.Keys, Below(n));
    if exists i: Byte :: i < n && i !in m {
      var i: Byte :| i < n && i !in m;
      SmallerSubset(m.Keys, Below(n) - {i});
    }
  }

  lemma {:induction false} RunKeepsInv(chunks: seq<Message>, maxAttempts: nat, moves: seq<Move>)
    requires AllPossible(chunks, maxAttempts, moves)
    ensures Inv(chunks, maxAttempts, Reached(chunks, maxAttempts, moves))
  {
    if moves != [] {
      var n := |moves| - 1;
      RunKeepsInv(chunks, maxAttempts, moves[..n]);
      match moves[n] {
        case Turn(tick) => TurnKeepsInv(chunks, maxAttempts, Reached(chunks, maxAttempts, moves[..n]), tick);
        case Burst(bits) => BurstKeepsInv(chunks, maxAttempts, Reached(chunks, maxAttempts, moves[..n]), bits);
      }
    }
  }

  // ---- safety ----

  lemma InvStored(chunks: seq<Message>, maxAttempts: nat, y: System, i: nat)
    requires Inv(chunks, maxAttempts, y) && i < |y.source.okPer| && y.source.okPer[i]
    ensures i < 256 && i in y.sink.chunks && i < |chunks| && y.sink.chunks[i] == chunks[i]
  {
  }

  /** Whenever the source has chunk `i` on record as acknowledged, the sink holds it as it was sent. */
  lemma AcknowledgedIsStored(chunks: seq<Message>, maxAttempts: nat, moves: seq<Move>, i: nat)
    requires AllPossible(chunks, maxAttempts, moves)
    requires var s := Reached(chunks, maxAttempts, moves).source; i < |s.okPer| && s.okPer[i]
    ensures var held := Reached(chunks, maxAttempts, moves).sink.chunks;
            i < 256 && i in held && i < |chunks| && held[i] == chunks[i]
  {
    RunKeepsInv(chunks, maxAttempts, moves);
    InvStored(chunks, maxAttempts, Reached(chunks, maxAttempts, moves), i);
  }

  lemma FullSinkJoins(chunks: seq<Message>, k: SinkState)
    requires SinkInv(chunks, k) && |k.chunks| == Total(chunks)
    ensures JoinBelow(k.chunks, |k.chunks|) == Join(chunks[..Total(chunks)])
  {
    KeysBelow(k.chunks, Total(chunks));
    JoinHeld(chunks, k.chunks, Total(chunks));
  }

  /** The sink reports completion exactly when it holds every announced chunk, and there is one. */
  lemma DoneIffComplete(chunks: seq<Message>, maxAttempts: nat, moves: seq<Move>)
    requires AllPossible(chunks, maxAttempts, moves)
    ensures var sink := Reached(chunks, maxAttempts, moves).sink;
            && |sink.chunks| <= 256
            && (sink.done <==> Total(chunks) > 0 && forall i: Byte | i < Total(chunks) :: i in sink.chunks)
            && (sink.done ==> JoinBelow(sink.chunks, |sink.chunks|) == Join(chunks[..Total(chunks)]))
  {
    RunKeepsInv(chunks, maxAttempts, moves);
    var k := Reached(chunks, maxAttempts, moves).sink;
    KeysBelow(k.chunks, Total(chunks));
    if k.done {
      FullSinkJoins(chunks, k);
    } else if Total(chunks) > 0 && forall i: Byte | i < Total(chunks) :: i in k.chunks {
      SmallerSubset(Below(Total(chunks)), k.chunks.Keys);
    }
  }

  lemma {:induction false} JoinHeld(chunks: seq<Message>, held: map<Byte, Message>, n: nat)
    requires n <= 256 && n <= |chunks|
    requires forall i: Byte | i < n :: i in held && held[i] == chunks[i]
    ensures JoinBelow(held, n) == Join(chunks[..n])
  {
    if n > 0 {
      JoinHeld(chunks, held, n - 1);
      assert chunks[..n][..n - 1] == chunks[..n - 1];
    }
  }

  lemma {:induction false} CountAll(oks: seq<bool>)
    ensures CountTrue(oks) <= |oks|
    ensures CountTrue(oks) == |oks| ==> forall i | 0 <= i < |oks| :: oks[i]
  {
    if oks != [] {
      CountAll(oks[..|oks| - 1]);
    }
  }

  /** The source went through all chunks, was not stopped and gave up on none. */
  ghost predicate Clean(s: Source) {
    s.finished && !s.stopped && s.failed == 0
  }

  lemma InvCleanFillsSink(chunks: seq<Message>, maxAttempts: nat, y: System)
    requires Inv(chunks, maxAttempts, y) && Clean(y.source)
    ensures |y.sink.chunks| == Total(chunks)
  {
    var held, total := y.sink.chunks, Total(chunks);
    CountAll(y.source.okPer);
    assert forall i: Byte | i < total :: y.source.okPer[i] && i in held;
    KeysBelow(held, total);
    SmallerSubset(Below(total), held.Keys);
  }

  /**
   A run that was not stopped and gave up on nothing leaves the sink holding exactly the announced
   chunks, and what it saves is their concatenation.
   */
  lemma CleanRunDelivers(chunks: seq<Message>, maxAttempts: nat, moves: seq<Move>)
    requires AllPossible(chunks, maxAttempts, moves)
    requires Clean(Reached(chunks, maxAttempts, moves).source)
    ensures var held := Reached(chunks, maxAttempts, moves).sink.chunks;
            |held| == Total(chunks) && JoinBelow(held, |held|) == Join(chunks[..Total(chunks)])
  {
    RunKeepsInv(chunks, maxAttempts, moves);
    InvCleanFillsSink(chunks, maxAttempts, Reached(chunks, maxAttempts, moves));
    FullSinkJoins(chunks, Reached(chunks, maxAttempts, moves).sink);
  }

  // ---- the whole message ----

  /**
   What the sink saves after a clean run is the original message exactly when the message makes at
   most 255 chunks: the count travels in eight bits.
   */
  lemma CleanRunSavesMessageIff(msg: Message, n: nat, maxAttempts: nat, moves: seq<Move>)
    requires n > 0
    requires AllPossible(Split(msg, n), maxAttempts, moves)
    requires Clean(Reached(Split(msg, n), maxAttempts, moves).source)
    ensures var held := Reached(Split(msg, n), maxAttempts, moves).sink.chunks;
            |held| <= 256 && (JoinBelow(held, |held|) == msg <==> |Split(msg, n)| <= 255)
  {
    CleanRunDelivers(Split(msg, n), maxAttempts, moves);
    AnnouncedIsAllIff(msg, n);
  }

  lemma AnnouncedIsAllIff(msg: Message, n: nat)
    requires n > 0
    ensures var chunks := Split(msg, n); Join(chunks[..Total(chunks)]) == msg <==> |chunks| <= 255
  {
    var chunks := Split(msg, n);
    SplitJoin(msg, n);
    if |chunks| <= 255 {
      assert chunks[..Total(chunks)] == chunks;
    } else {
      JoinLonger(chunks, Total(chunks));
    }
  }

  // ---- clean runs exist ----

  lemma OneMove(chunks: seq<Message>, maxAttempts: nat, moves: seq<Move>, move: Move, y: System, y': System)
    requires AllPossible(chunks, maxAttempts, moves) && y == Reached(chunks, maxAttempts, moves)
    requires Possible(y, move) && y' == Apply(chunks, maxAttempts, y, move)
    ensures AllPossible(chunks, maxAttempts, moves + [move]) && Reached(chunks, maxAttempts, moves + [move]) == y'
  {
    assert (moves + [move])[..|moves|] == moves;
  }

  /** The source has had the first `j` chunks acknowledged, without giving up on one. */
  ghost predicate AckedUpTo(chunks: seq<Message>, y: System, j: nat) {
    && y.source.index == j <= Total(chunks) && !y.source.stopped && y.source.failed == 0
    && (if j == Total(chunks) then y.source.finished else !y.source.finished && PacketOf(chunks, j) in y.air)
  }

  lemma PacketIsStored(chunks: seq<Message>, maxAttempts: nat, y: System, i: nat, y': System)
    requires i < Total(chunks) && y' == Apply(chunks, maxAttempts, y, Burst(PacketOf(chunks, i)))
    ensures i in y'.acks && y'.source == y.source
  {
    DecodedPacket(chunks, i);
  }

  lemma AckIsRead(chunks: seq<Message>, maxAttempts: nat, y: System, i: nat, y': System)
    requires i < Total(chunks) && AckedUpTo(chunks, y, i)
    requires y' == Apply(chunks, maxAttempts, y, Turn(Tick(Ack(i), false)))
    ensures AckedUpTo(chunks, y', i + 1)
  {
  }

  lemma {:induction false} AcksAllRead(chunks: seq<Message>, maxAttempts: nat, j: nat) returns (moves: seq<Move>)
    requires j <= Total(chunks)
    ensures AllPossible(chunks, maxAttempts, moves) && AckedUpTo(chunks, Reached(chunks, maxAttempts, moves), j)
    decreases j
  {
    if j == 0 {
      moves := [];
    } else {
      var i := j - 1;
      var before := AcksAllRead(chunks, maxAttempts, i);
      var burst, turn := Burst(PacketOf(chunks, i)), Turn(Tick(Ack(i), false));
      var y := Reached(chunks, maxAttempts, before);
      var y1 := Apply(chunks, maxAttempts, y, burst);
      var y2 := Apply(chunks, maxAttempts, y1, turn);
      PacketIsStored(chunks, maxAttempts, y, i, y1);
      AckIsRead(chunks, maxAttempts, y1, i, y2);
      OneMove(chunks, maxAttempts, before, burst, y, y1);
      OneMove(chunks, maxAttempts, before + [burst], turn, y1, y2);
      moves := before + [burst] + [turn];
    }
  }

  /**
   Every message has a clean run, the ones of more than 255 chunks included: those end clean and save something else.
   */
  lemma CleanRunExists(msg: Message, n: nat, maxAttempts: nat) returns (moves: seq<Move>)
    requires n > 0
    ensures AllPossible(Split(msg, n), maxAttempts, moves)
    ensures var y := Reached(Split(msg, n), maxAttempts, moves); var held := y.sink.chunks;
            && Clean(y.source) && |held| == |Split(msg, n)| % 256
            && (|Split(msg, n)| > 255 ==> JoinBelow(held, |held|) != msg)
  {
    moves := AcksAllRead(Split(msg, n), maxAttempts, Total(Split(msg, n)));
    CleanRunDelivers(Split(msg, n), maxAttempts, moves);
    CleanRunSavesMessageIff(msg, n, maxAttempts, moves);
  }

  // ---- accounting ----

  /** Every transmission is answered, retransmitted or given up on, or still waiting. */
  lemma Accounting(chunks: seq<Message>, maxAttempts: nat, moves: seq<Move>)
    requires AllPossible(chunks, maxAttempts, moves)
    ensures var s := Reached(chunks, maxAttempts, moves).source;
            && s.sent == s.retx + CountTrue(s.okPer) + (if s.finished then 0 else 1)
            && (s.finished && !s.stopped ==> CountTrue(s.okPer) + s.failed == Total(chunks))
  {
    RunKeepsInv(chunks, maxAttempts, moves);
  }

  /** Turns of the source that can still end an attempt. */
  function AttemptsLeft(s: Source, total: nat, maxAttempts: nat): int {
    if s.finished then 0 else (total - s.index) * maxAttempts - s.tries + 1
  }

  /** With a limit on attempts every deadline and every awaited acknowledgement brings the end closer. */
  lemma AttemptsRunOut(s: Source, tick: Tick, total: nat, maxAttempts: nat)
    requires SourceInv(s, total, maxAttempts) && maxAttempts > 0 && !s.finished
    requires tick.event == Deadline || tick.event == Ack(s.index) || tick.stop
    ensures AttemptsLeft(s, total, maxAttempts) > 0
    ensures 0 <= AttemptsLeft(OnTick(s, tick, total, maxAttempts), total, maxAttempts)
              < AttemptsLeft(s, total, maxAttempts)
  {
    var left := total - s.index;
    assert left * maxAttempts == (left - 1) * maxAttempts + maxAttempts;
    assert (left - 1) * maxAttempts >= 0;
    if left > 1 {
      assert (left - 1) * maxAttempts >= maxAttempts;
    }
  }

  function Deadlines(script: seq<Tick>): nat {
    if script == [] then 0
    else Deadlines(script[..|script| - 1]) + if script[|script| - 1].event == Deadline then 1 else 0
  }

  lemma {:induction false} DeadlinesUseUpAttempts(script: seq<Tick>, total: nat, maxAttempts: nat)
    requires maxAttempts > 0
    ensures SourceInv(After(script, total, maxAttempts), total, maxAttempts)
    ensures var s := After(script, total, maxAttempts);
            !s.finished ==> 0 < AttemptsLeft(s, total, maxAttempts) <= total * maxAttempts - Deadlines(script)
  {
    if script == [] {
      var s := Start(total);
      assert !s.finished ==> total * maxAttempts >= maxAttempts by {
        if total > 0 {
          assert total * maxAttempts == (total - 1) * maxAttempts + maxAttempts;
          assert (total - 1) * maxAttempts >= 0;
        }
      }
    } else {
      var n := |script| - 1;
      var s, tick := After(script[..n], total, maxAttempts), script[n];
      DeadlinesUseUpAttempts(script[..n], total, maxAttempts);
      TickKeepsInv(s, tick, total, maxAttempts);
      if !s.finished && (tick.event == Deadline || tick.event == Ack(s.index) || tick.stop) {
        AttemptsRunOut(s, tick, total, maxAttempts);
      }
      var t := OnTick(s, tick, total, maxAttempts);
      if !t.finished {
        AttemptsRunOut(t, Tick(Deadline, false), total, maxAttempts);
      }
    }
  }

  /** A source with a limit on attempts has ended by the time its clock has run out for every attempt of every chunk. */
  lemma SourceEnds(script: seq<Tick>, total: nat, maxAttempts: nat)
    requires maxAttempts > 0 && Deadlines(script) >= total * maxAttempts
    ensures var s := After(script, total, maxAttempts);
            s.finished && (!s.stopped ==> CountTrue(s.okPer) + s.failed == total)
  {
    DeadlinesUseUpAttempts(script, total, maxAttempts);
  }
}
