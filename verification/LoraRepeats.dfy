/** How often a LoRa message can be returned when the medium may repeat frames. */
module LoraRepeats {
  import opened Octets
  import opened Options
  import opened Chunks
  import opened Counting
  import opened LoraFraming
  import opened LoraArq

  /** The number of times that message `mid` was returned. */
  function Times(returned: seq<(nat, Bytes)>, mid: nat): nat {
    if returned == [] then 0
    else Times(returned[..|returned| - 1], mid) + if returned[|returned| - 1].0 == mid then 1 else 0
  }

  lemma TimesSnoc(returned: seq<(nat, Bytes)>, mid: nat, m: (nat, Bytes))
    ensures Times(returned + [m], mid) == Times(returned, mid) + if m.0 == mid then 1 else 0
  {
    assert (returned + [m])[..|returned|] == returned;
  }

  function Returns(L: Link, y: System): nat {
    Times(y.returned, Low8(L.msgId))
  }

  /** The receiver takes the frames of this message as meant for it. */
  predicate Addressed(L: Link)
    requires L.Usable()
  {
    L.me.None? || Low8(L.dst) == Low8(L.me.value) || Low8(L.dst) == BROADCAST
  }

  function FrameAt(L: Link, i: nat): Frame
    requires L.Usable() && i < |L.Chunks()|
  {
    FragmentFrame(L.Chunks(), L.msgId, L.src, L.dst, i)
  }

  lemma OwnFragment(L: Link, i: nat)
    requires L.Usable() && i < |L.Chunks()|
    ensures Parse(L.FrameOf(i)) == Some(FrameAt(L, i)) && (Addressed(L) <==> OwnData(L, L.FrameOf(i)))
  {
    FragmentParses(L, i);
  }

  lemma WireAckMatches(from: Byte, src: int, msgId: int, i: nat, b: Bytes)
    requires i <= MAX_FRAGS && b == Wire(Ack(from, Low8(src), Low8(msgId), i))
    ensures Parse(b) == Some(Ack(from, Low8(src), Low8(msgId), i)) && AckMatches(b, msgId, i, Some(src))
  {
    ParseOfWire(Ack(from, Low8(src), Low8(msgId), i));
  }

  /** The acknowledgement of fragment `i` is one that the sender accepts for it. */
  lemma AckIsAccepted(L: Link, i: nat, a: Bytes)
    requires L.Usable() && i < |L.Chunks()| && a == AckFor(FrameAt(L, i), L.me)
    ensures AckMatches(a, L.msgId, i, Some(L.src))
  {
    WireAckMatches(Low8(if L.me.Some? then L.me.value else 0), L.src, L.msgId, i, a);
  }

  lemma OneMove(L: Link, moves: seq<Move>, move: Move, y: System, y': System)
    requires L.Usable() && AllPossible(L, moves) && y == Reached(L, moves)
    requires Possible(L, y, move) && y' == Apply(L, y, move)
    ensures AllPossible(L, moves + [move]) && Reached(L, moves + [move]) == y'
  {
    assert (moves + [move])[..|moves|] == moves;
  }

  // ---- every fragment can get into the air ----

  /** A fragment arrives at a listening receiver: its acknowledgement is on its way, and the sender does not change. */
  lemma FragmentArrives(L: Link, y: System, i: nat, b: Bytes, late: bool, y': System)
    requires L.Usable() && i < |L.Chunks()| && b == L.FrameOf(i) && Addressed(L)
    requires y.receiver.state == Listening && b in y.air && y' == Apply(L, y, Arrival(Turn(Some(b), late)))
    ensures Possible(L, y, Arrival(Turn(Some(b), late)))
    ensures y'.acks == y.acks + {AckFor(FrameAt(L, i), L.me)} && y'.air == y.air && y'.sender == y.sender
    ensures var asm := AddPart(y.receiver.asm, Low8(L.msgId), i, |L.Chunks()|, L.Chunks()[i]);
            && y'.receiver.asm == asm
            && (match Status(asm)
                case Incomplete =>
                  y'.receiver.state == (if late then TimedOut else Listening) && y'.returned == y.returned
                case Complete(data) =>
                  && y'.receiver.state == Returned(data)
                  && y'.returned == y.returned + [(Low8(L.msgId) as nat, data)]
                case MissingKey => y'.receiver.state == Raised && y'.returned == y.returned)
  {
    OwnFragment(L, i);
    ArrivalAcks(L, y, Turn(Some(b), late));
  }

  /** The sender hears the acknowledgement it waits for. */
  lemma AckHeard(L: Link, y: System, i: nat, a: Bytes, y': System)
    requires L.Usable() && i < |L.Chunks()| && OwnAck(L, a) && AckMatches(a, L.msgId, i, Some(L.src)) && a in y.acks
    requires y.sender.outcome == Waiting && y.sender.index == i
    requires y' == Apply(L, y, SenderTurn(Turn(Some(a), false)))
    ensures Possible(L, y, SenderTurn(Turn(Some(a), false)))
    ensures y'.sender == NextFragment(y.sender, |L.Chunks()|) && y'.air == y.air + Aired(L, y'.sender)
    ensures y'.receiver == y.receiver && y'.returned == y.returned && y'.acks == y.acks
  {
  }

  /** A new call takes fragment `i`, and the sender hears of it. */
  lemma OneExchange(L: Link, before: seq<Move>, i: nat) returns (moves: seq<Move>)
    requires L.Usable() && Addressed(L) && i < |L.Chunks()| && AllPossible(L, before)
    requires var y := Reached(L, before);
             y.sender.outcome == Waiting && y.sender.index == i && L.FrameOf(i) in y.air
    ensures AllPossible(L, moves)
    ensures var y, y' := Reached(L, before), Reached(L, moves);
            y'.sender == NextFragment(y.sender, |L.Chunks()|) && y'.air == y.air + Aired(L, y'.sender)
  {
    var b, a := L.FrameOf(i), AckFor(FrameAt(L, i), L.me);
    var arrival, heard := Arrival(Turn(Some(b), false)), SenderTurn(Turn(Some(a), false));
    var y0 := Reached(L, before);
    var y1 := Apply(L, y0, Call);
    var y2 := Apply(L, y1, arrival);
    var y3 := Apply(L, y2, heard);
    FragmentArrives(L, y1, i, b, false, y2);
    AckIsAccepted(L, i, a);
    AckHeard(L, y2, i, a, y3);
    OneMove(L, before, Call, y0, y1);
    OneMove(L, before + [Call], arrival, y1, y2);
    OneMove(L, before + [Call] + [arrival], heard, y2, y3);
    moves := before + [Call] + [arrival] + [heard];
  }

  /** The sender waits for the acknowledgement of fragment `k`, and no fragment up to it is missing from the air. */
  ghost predicate AiredUpTo(L: Link, y: System, k: nat)
    requires L.Usable() && k < |L.Chunks()|
  {
    && y.sender.outcome == Waiting && y.sender.index == k
    && forall i | 0 <= i <= k :: L.FrameOf(i) in y.air
  }

  lemma AiredNext(L: Link, y: System, k: nat, y': System)
    requires L.Usable() && k + 1 < |L.Chunks()| && AiredUpTo(L, y, k)
    requires y'.sender == NextFragment(y.sender, |L.Chunks()|) && y'.air == y.air + Aired(L, y'.sender)
    ensures AiredUpTo(L, y', k + 1)
  {
    assert Aired(L, y'.sender) == {L.FrameOf(k + 1)};
  }

  lemma {:induction false} FragmentsAired(L: Link, k: nat) returns (moves: seq<Move>)
    requires L.Usable() && L.maxAttempts > 0 && Addressed(L) && k < |L.Chunks()|
    ensures AllPossible(L, moves) && AiredUpTo(L, Reached(L, moves), k)
    decreases k
  {
    if k == 0 {
      moves := [];
      assert Aired(L, StartSender(L.maxAttempts)) == {L.FrameOf(0)};
    } else {
      var before := FragmentsAired(L, k - 1);
      moves := OneExchange(L, before, k - 1);
      AiredNext(L, Reached(L, before), k - 1, Reached(L, moves));
    }
  }

  // ---- once in the air, a message can be returned again and again ----

  ghost predicate AllAired(L: Link, y: System)
    requires L.Usable()
  {
    forall i | 0 <= i < |L.Chunks()| :: L.FrameOf(i) in y.air
  }

  /** The parts that an assembly holds of message `mid`. */
  function HeldParts(asm: Assembly, mid: nat): map<nat, Bytes> {
    if asm.msgId == Some(mid) then asm.parts else map[]
  }

  /** An assembly of exactly the first `j` fragments. */
  ghost predicate FirstParts(chunks: seq<Bytes>, mid: nat, asm: Assembly, j: nat) {
    TrueParts(HeldParts(asm, mid), chunks) && HeldParts(asm, mid).Keys == Below(j)
  }

  /** The next fragment completes the message, or the call goes on. */
  lemma NextCollected(chunks: seq<Bytes>, data: Bytes, mid: nat, asm: Assembly, j: nat, t: Assembly)
    requires j < |chunks| && Join(chunks) == data && FirstParts(chunks, mid, asm, j)
    requires t == AddPart(asm, mid, j, |chunks|, chunks[j])
    ensures FirstParts(chunks, mid, t, j + 1)
    ensures Status(t) == if j + 1 == |chunks| then Complete(data) else Incomplete
  {
    var held := HeldParts(asm, mid);
    NextParts(chunks, held, j, held[j := chunks[j]]);
    PartsStatus(chunks, data, mid, held[j := chunks[j]], j + 1);
  }

  lemma NextParts(chunks: seq<Bytes>, held: map<nat, Bytes>, j: nat, parts: map<nat, Bytes>)
    requires j < |chunks| && TrueParts(held, chunks) && held.Keys == Below(j) && parts == held[j := chunks[j]]
    ensures TrueParts(parts, chunks) && parts.Keys == Below(j + 1)
  {
    assert parts.Keys == held.Keys + {j};
  }

  lemma PartsStatus(chunks: seq<Bytes>, data: Bytes, mid: nat, parts: map<nat, Bytes>, j: nat)
    requires j <= |chunks| && Join(chunks) == data && TrueParts(parts, chunks) && parts.Keys == Below(j)
    ensures Status(Assembly(Some(mid), parts, Some(|chunks|))) == if j == |chunks| then Complete(data) else Incomplete
  {
    TruePartsStatus(parts, chunks, mid);
    assert forall i | 0 <= i < j :: i in Below(j);
    assert j !in Below(j);
  }

  /** A call that has collected exactly the first `j` fragments. */
  ghost predicate Holds(L: Link, r: Receiver, j: nat)
    requires L.Usable()
  {
    r.state == Listening && FirstParts(L.Chunks(), Low8(L.msgId), r.asm, j)
  }

  lemma {:induction false} CollectInOrder(L: Link, moves0: seq<Move>, j: nat) returns (moves: seq<Move>)
    requires L.Usable() && Addressed(L) && AllPossible(L, moves0) && AllAired(L, Reached(L, moves0))
    requires j <= |L.Chunks()|
    ensures AllPossible(L, moves)
    ensures var y0, y := Reached(L, moves0), Reached(L, moves);
            && AllAired(L, y)
            && (if j < |L.Chunks()| then Holds(L, y.receiver, j) && y.returned == y0.returned
                else y.returned == y0.returned + [(Low8(L.msgId) as nat, L.data)])
    decreases j
  {
    if j == 0 {
      OneMove(L, moves0, Call, Reached(L, moves0), Apply(L, Reached(L, moves0), Call));
      moves := moves0 + [Call];
    } else {
      var i := j - 1;
      moves := CollectInOrder(L, moves0, i);
      var y, arrival := Reached(L, moves), Arrival(Turn(Some(L.FrameOf(i)), false));
      var y' := Apply(L, y, arrival);
      FragmentArrives(L, y, i, L.FrameOf(i), false, y');
      ChunksJoin(L);
      NextCollected(L.Chunks(), L.data, Low8(L.msgId), y.receiver.asm, i, y'.receiver.asm);
      OneMove(L, moves, arrival, y, y');
      moves := moves + [arrival];
    }
  }

  lemma {:induction false} ReturnedOften(L: Link, c: nat) returns (moves: seq<Move>)
    requires L.Usable() && L.maxAttempts > 0 && Addressed(L)
    ensures AllPossible(L, moves) && AllAired(L, Reached(L, moves)) && Returns(L, Reached(L, moves)) >= c
    decreases c
  {
    if c == 0 {
      moves := FragmentsAired(L, |L.Chunks()| - 1);
    } else {
      var before := ReturnedOften(L, c - 1);
      moves := CollectInOrder(L, before, |L.Chunks()|);
      TimesSnoc(Reached(L, before).returned, Low8(L.msgId), (Low8(L.msgId) as nat, L.data));
    }
  }

  // ---- and only then ----

  /** A message with no transmissions allowed, or not addressed to the receiver, leaves no trace there. */
  ghost predicate Unheard(L: Link, y: System)
    requires L.Usable()
  {
    && Returns(L, y) == 0
    && (L.maxAttempts == 0 ==> y.air == {} && y.sender.outcome == Lost)
  }

  lemma ArrivalUnheard(L: Link, y: System, turn: Turn)
    requires L.Usable() && Inv(L, y) && Unheard(L, y) && Possible(L, y, Arrival(turn))
    requires L.maxAttempts == 0 || !Addressed(L)
    ensures Unheard(L, Apply(L, y, Arrival(turn)))
  {
    var y' := Apply(L, y, Arrival(turn));
    NoneInTheAir(L, y, turn);
    if y'.returned != y.returned {
      TimesSnoc(y.returned, Low8(L.msgId), y'.returned[|y.returned|]);
    }
  }

  lemma NoneInTheAir(L: Link, y: System, turn: Turn)
    requires L.Usable() && AirInv(L, y.air) && Unheard(L, y) && Possible(L, y, Arrival(turn))
    requires L.maxAttempts == 0 || !Addressed(L)
    ensures turn.frame.Some? ==> !OwnData(L, turn.frame.value)
  {
    forall i: nat | i < |L.Chunks()|
      ensures Addressed(L) <==> OwnData(L, L.FrameOf(i))
    {
      OwnFragment(L, i);
    }
  }

  lemma {:induction false} NeverHeard(L: Link, moves: seq<Move>)
    requires L.Usable() && AllPossible(L, moves) && (L.maxAttempts == 0 || !Addressed(L))
    ensures Unheard(L, Reached(L, moves))
  {
    if moves != [] {
      var n := |moves| - 1;
      RunKeepsInv(L, moves[..n]);
      NeverHeard(L, moves[..n]);
      var y := Reached(L, moves[..n]);
      match moves[n]
      case SenderTurn(_) =>
      case Arrival(turn) => ArrivalUnheard(L, y, turn);
      case Call =>
    }
  }

  ghost predicate MayReturn(L: Link, c: nat)
    requires L.Usable()
  {
    exists moves :: AllPossible(L, moves) && Returns(L, Reached(L, moves)) >= c
  }

  /**
   * On a medium that may repeat frames, any message can be returned any number of times, however many fragments it
   * makes, exactly when a transmission is allowed and the receiver is addressed.
   */
  lemma ReturnsAnyNumberOfTimesIff(L: Link, c: nat)
    requires L.Usable() && c > 0
    ensures MayReturn(L, c) <==> L.maxAttempts > 0 && Addressed(L)
  {
    if L.maxAttempts > 0 && Addressed(L) {
      var moves := ReturnedOften(L, c);
    } else {
      forall moves | AllPossible(L, moves)
        ensures Returns(L, Reached(L, moves)) < c
      {
        NeverHeard(L, moves);
      }
    }
  }

  /**
   * With a transmission allowed, a node with an address can receive the message exactly when the low eight bits of the
   * address agree or the message goes to 255, the broadcast address; one without an address always can.
   */
  lemma ReceiversIff(L: Link, x: int)
    requires L.Usable()
    ensures MayReturn(L.(me := Some(x)), 1)
       <==> L.maxAttempts > 0 && (L.dst % 256 == x % 256 || L.dst % 256 == 255)
    ensures MayReturn(L.(me := None), 1) <==> L.maxAttempts > 0
  {
    ReturnsAnyNumberOfTimesIff(L.(me := Some(x)), 1);
    ReturnsAnyNumberOfTimesIff(L.(me := None), 1);
  }
}
