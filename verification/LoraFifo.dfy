/** How often a LoRa message can be returned when the medium only loses frames and keeps their order. */
module LoraFifo {
  import opened Options
  import opened Counting
  import opened LoraFraming
  import opened LoraArq
  import opened LoraRepeats

  /**
   * The same two ends, with what each radio has decoded and not yet read: fragments at the receiver, acknowledgements
   * at the sender, both as fragment numbers with the oldest first. `takes` counts the fragments read, `last` is the
   * number of the latest one.
   */
  datatype Net = Net(y: System, inbox: seq<nat>, ackbox: seq<nat>, takes: nat, last: Option<nat>)

  // A move of the two ends; `decodes` says whether the frame it transmits, if any, reaches the other radio.
  datatype FifoMove = FifoMove(move: Move, decodes: bool)

  function FifoBegin(L: Link, decodes: bool): Net
    requires L.Usable()
  {
    Net(Begin(L), if L.maxAttempts > 0 && decodes then [0] else [], [], 0, None)
  }

  /** The arriving frame is a fragment of this message. */
  predicate ReadsFragment(L: Link, s: Net, move: Move) {
    && move.Arrival? && move.turn.frame.Some? && s.y.receiver.state == Listening
    && OwnData(L, move.turn.frame.value)
  }

  predicate ReadsAck(L: Link, move: Move) {
    move.SenderTurn? && move.turn.frame.Some? && OwnAck(L, move.turn.frame.value)
  }

  /** Frames of this message are read in the order in which they were decoded, each once. */
  predicate FifoPossible(L: Link, s: Net, m: FifoMove)
    requires L.Usable()
  {
    && (ReadsFragment(L, s, m.move) ==>
          s.inbox != [] && s.inbox[0] < |L.Chunks()| && m.move.turn.frame.value == L.FrameOf(s.inbox[0]))
    && (ReadsAck(L, m.move) ==>
          s.ackbox != [] && s.ackbox[0] < |L.Chunks()| && s.y.sender.outcome == Waiting
          && m.move.turn.frame.value == AckFor(FrameAt(L, s.ackbox[0]), L.me))
    && (m.move.Arrival? ==> s.y.receiver.state == Listening)
  }

  function FifoApply(L: Link, s: Net, m: FifoMove): Net
    requires L.Usable()
  {
    var y := Apply(L, s.y, m.move);
    match m.move
    case SenderTurn(_) =>
      Net(y, s.inbox + (if y.sender.sends > s.y.sender.sends && m.decodes then [y.sender.index] else []),
          if ReadsAck(L, m.move) && s.ackbox != [] then s.ackbox[1..] else s.ackbox, s.takes, s.last)
    case Arrival(_) =>
      if ReadsFragment(L, s, m.move) && s.inbox != [] then
        Net(y, s.inbox[1..], s.ackbox + (if m.decodes then [s.inbox[0]] else []), s.takes + 1, Some(s.inbox[0]))
      else s.(y := y)
    case Call => s.(y := y)
  }

  function FifoReached(L: Link, first: bool, moves: seq<FifoMove>): Net
    requires L.Usable()
  {
    if moves == [] then FifoBegin(L, first)
    else FifoApply(L, FifoReached(L, first, moves[..|moves| - 1]), moves[|moves| - 1])
  }

  predicate FifoRun(L: Link, first: bool, moves: seq<FifoMove>)
    requires L.Usable()
  {
    if moves == [] then true
    else
      && FifoRun(L, first, moves[..|moves| - 1])
      && FifoPossible(L, FifoReached(L, first, moves[..|moves| - 1]), moves[|moves| - 1])
  }

  // ---- such a run is a run of the repeating medium ----

  function Plain(moves: seq<FifoMove>): (plain: seq<Move>)
    ensures |plain| == |moves|
  {
    seq(|moves|, i requires 0 <= i < |moves| => moves[i].move)
  }

  /** Whatever waits to be read was transmitted. */
  ghost predicate Boxes(L: Link, s: Net)
    requires L.Usable()
  {
    && (forall a | 0 <= a < |s.inbox| :: s.inbox[a] < |L.Chunks()| && L.FrameOf(s.inbox[a]) in s.y.air)
    && (forall a | 0 <= a < |s.ackbox| ::
          s.ackbox[a] < |L.Chunks()| && AckFor(FrameAt(L, s.ackbox[a]), L.me) in s.y.acks)
  }

  lemma SenderTurnKeepsBoxes(L: Link, s: Net, m: FifoMove)
    requires L.Usable() && Inv(L, s.y) && Boxes(L, s) && FifoPossible(L, s, m) && m.move.SenderTurn?
    ensures Possible(L, s.y, m.move) && Boxes(L, FifoApply(L, s, m))
  {
    SenderTurnKeepsInv(L, s.y, m.move.turn);
  }

  lemma FragmentKeepsBoxes(L: Link, s: Net, i: nat, b: Bytes, late: bool, decodes: bool, s': Net)
    requires L.Usable() && Boxes(L, s) && s.inbox != [] && s.inbox[0] == i && i < |L.Chunks()| && b == L.FrameOf(i)
    requires Addressed(L) && s.y.receiver.state == Listening
    requires s'.y == Apply(L, s.y, Arrival(Turn(Some(b), late))) && s'.inbox == s.inbox[1..]
    requires s'.ackbox == s.ackbox + (if decodes then [i] else [])
    ensures Possible(L, s.y, Arrival(Turn(Some(b), late))) && Boxes(L, s')
  {
    FragmentArrives(L, s.y, i, b, late, s'.y);
  }

  lemma ArrivalKeepsBoxes(L: Link, s: Net, m: FifoMove)
    requires L.Usable() && Inv(L, s.y) && Boxes(L, s) && FifoPossible(L, s, m) && m.move.Arrival?
    ensures Possible(L, s.y, m.move) && Boxes(L, FifoApply(L, s, m))
  {
    var s' := FifoApply(L, s, m);
    if ReadsFragment(L, s, m.move) {
      var i, late := s.inbox[0], m.move.turn.late;
      var b := L.FrameOf(i);
      assert m.move == Arrival(Turn(Some(b), late));
      OwnFragment(L, i);
      FragmentKeepsBoxes(L, s, i, b, late, m.decodes, s');
    } else {
      assert s' == s.(y := s'.y) && s'.y.air == s.y.air && s.y.acks <= s'.y.acks;
    }
  }

  /** The two ends stand as after the plain moves. */
  ghost predicate Simulates(L: Link, moves: seq<FifoMove>, s: Net)
    requires L.Usable()
  {
    AllPossible(L, Plain(moves)) && Reached(L, Plain(moves)) == s.y && Boxes(L, s) && Inv(L, s.y)
  }

  lemma MoveKeepsBoxes(L: Link, s: Net, m: FifoMove)
    requires L.Usable() && Inv(L, s.y) && Boxes(L, s) && FifoPossible(L, s, m)
    ensures Possible(L, s.y, m.move) && Boxes(L, FifoApply(L, s, m)) && FifoApply(L, s, m).y == Apply(L, s.y, m.move)
  {
    match m.move {
      case SenderTurn(_) => SenderTurnKeepsBoxes(L, s, m);
      case Arrival(_) => ArrivalKeepsBoxes(L, s, m);
      case Call =>
    }
  }

  lemma StepSimulates(L: Link, before: seq<FifoMove>, s: Net, m: FifoMove, moves: seq<FifoMove>)
    requires L.Usable() && Simulates(L, before, s) && FifoPossible(L, s, m) && moves == before + [m]
    ensures Simulates(L, moves, FifoApply(L, s, m))
  {
    MoveKeepsBoxes(L, s, m);
    OneMove(L, Plain(before), m.move, s.y, Apply(L, s.y, m.move));
    assert Plain(moves) == Plain(before) + [m.move];
    RunKeepsInv(L, Plain(moves));
  }

  lemma BeginSimulates(L: Link, first: bool, s: Net)
    requires L.Usable() && s == FifoBegin(L, first)
    ensures Simulates(L, [], s)
  {
    RunKeepsInv(L, []);
    assert Plain([]) == [];
    if s.inbox != [] {
      assert Aired(L, s.y.sender) == {L.FrameOf(0)};
    }
  }

  /** Every run without repeats is a run of the medium that may repeat, so all that holds there holds here. */
  lemma {:induction false} FifoIsRun(L: Link, first: bool, moves: seq<FifoMove>)
    requires L.Usable() && FifoRun(L, first, moves)
    ensures Simulates(L, moves, FifoReached(L, first, moves))
  {
    if moves == [] {
      BeginSimulates(L, first, FifoBegin(L, first));
    } else {
      var n := |moves| - 1;
      assert moves == moves[..n] + [moves[n]];
      FifoIsRun(L, first, moves[..n]);
      StepSimulates(L, moves[..n], FifoReached(L, first, moves[..n]), moves[n], moves);
    }
  }

  // ---- what order is worth ----

  /** Numbers wait in the order they were sent, none before the latest one read. */
  ghost predicate Ordered(inbox: seq<nat>, last: Option<nat>, top: nat, n: nat) {
    && (forall a, b | 0 <= a < b < |inbox| :: inbox[a] <= inbox[b])
    && (forall a | 0 <= a < |inbox| :: inbox[a] <= top && inbox[a] < n)
    && (last.Some? ==> last.value <= top && last.value < n && forall a | 0 <= a < |inbox| :: last.value <= inbox[a])
  }

  /**
   * After a first return only the last fragment can still be read, so a second return takes a message of one fragment.
   * `held` are the parts of this message in the current call.
   */
  ghost predicate Spent(held: map<nat, Bytes>, last: Option<nat>, listening: bool, times: nat, n: nat) {
    && (forall k | k in held :: last.Some? && k <= last.value)
    && (times >= 1 ==> last == Some(n - 1))
    && (times >= 1 && listening ==> forall k | k in held :: k == n - 1)
    && (times >= 2 ==> n == 1)
  }

  lemma TakeKeepsSpent(held: map<nat, Bytes>, last: Option<nat>, times: nat, n: nat, i: nat,
                       held': map<nat, Bytes>, complete: bool)
    requires Spent(held, last, true, times, n) && i < n && (last.Some? ==> last.value <= i)
    requires held'.Keys == held.Keys + {i} && (complete ==> forall k | 0 <= k < n :: k in held')
    ensures Spent(held', Some(i), !complete, times + if complete then 1 else 0, n)
  {
    assert complete ==> 0 in held' && n - 1 in held';
  }

  ghost predicate FifoInv(L: Link, s: Net)
    requires L.Usable()
  {
    && Ordered(s.inbox, s.last, s.y.sender.index, |L.Chunks()|)
    && Spent(HeldParts(s.y.receiver.asm, Low8(L.msgId)), s.last, s.y.receiver.state == Listening, Returns(L, s.y),
             |L.Chunks()|)
    && Returns(L, s.y) <= s.takes && s.takes + |s.inbox| <= s.y.sender.sends
  }

  lemma OrderedMore(inbox: seq<nat>, last: Option<nat>, top: nat, n: nat, more: seq<nat>, top': nat)
    requires Ordered(inbox, last, top, n) && top <= top' && (more == [] || (more == [top'] && top' < n))
    ensures Ordered(inbox + more, last, top', n)
  {
  }

  lemma SenderTurnKeepsFifoInv(L: Link, s: Net, m: FifoMove, s': Net)
    requires L.Usable() && Inv(L, s.y) && FifoInv(L, s) && m.move.SenderTurn? && s' == FifoApply(L, s, m)
    ensures FifoInv(L, s')
  {
    var n, a, b := |L.Chunks()|, s.y.sender, s'.y.sender;
    SenderKeepsInv(a, m.move.turn, L.msgId, L.src, n, L.maxAttempts);
    OrderedMore(s.inbox, s.last, a.index, n, if b.sends > a.sends && m.decodes then [b.index] else [], b.index);
  }

  /** A frame of another message, or none: this message's parts are kept or superseded. */
  lemma OtherArrivalKeepsFifoInv(L: Link, s: Net, m: FifoMove, s': Net)
    requires L.Usable() && FifoInv(L, s) && m.move.Arrival? && !ReadsFragment(L, s, m.move) && s' == FifoApply(L, s, m)
    ensures FifoInv(L, s')
  {
    var y, y' := s.y, s'.y;
    assert s' == s.(y := y') && y'.sender == y.sender;
    if y'.returned != y.returned {
      TimesSnoc(y.returned, Low8(L.msgId), y'.returned[|y.returned|]);
    }
  }

  lemma OrderedRest(inbox: seq<nat>, last: Option<nat>, top: nat, n: nat)
    requires Ordered(inbox, last, top, n) && inbox != []
    ensures Ordered(inbox[1..], Some(inbox[0]), top, n) && inbox[0] < n && (last.Some? ==> last.value <= inbox[0])
  {
  }

  lemma HeldAfterPart(asm: Assembly, mid: nat, i: nat, n: nat, payload: Bytes, t: Assembly)
    requires t == AddPart(asm, mid, i, n, payload)
    ensures HeldParts(t, mid).Keys == HeldParts(asm, mid).Keys + {i}
    ensures Status(t).Complete? ==> forall k | 0 <= k < n :: k in HeldParts(t, mid)
  {
  }

  /** How the state changes when a waiting fragment is read. */
  lemma FragmentRead(L: Link, s: Net, m: FifoMove, i: nat, s': Net)
    requires L.Usable() && Inv(L, s.y) && Boxes(L, s) && FifoPossible(L, s, m)
    requires ReadsFragment(L, s, m.move) && s' == FifoApply(L, s, m) && i == s.inbox[0]
    ensures s'.inbox == s.inbox[1..] && s'.takes == s.takes + 1 && s'.last == Some(i) && s'.y.sender == s.y.sender
    ensures i < |L.Chunks()|
    ensures var t := AddPart(s.y.receiver.asm, Low8(L.msgId), i, |L.Chunks()|, L.Chunks()[i]);
            && s'.y.receiver.asm == t
            && (if Status(t).Complete? then
                  s'.y.receiver.state.Returned? && s'.y.returned == s.y.returned + [(Low8(L.msgId) as nat, L.data)]
                else s'.y.returned == s.y.returned)
  {
    var b, y' := L.FrameOf(i), Apply(L, s.y, m.move);
    assert m.move == Arrival(Turn(Some(b), m.move.turn.late));
    OwnFragment(L, i);
    FragmentArrives(L, s.y, i, b, m.move.turn.late, y');
    OwnArrivalKeepsAsm(L, s.y.receiver.asm, s.y.air, b);
  }

  lemma FragmentKeepsFifoInv(L: Link, s: Net, m: FifoMove, s': Net)
    requires L.Usable() && Inv(L, s.y) && Boxes(L, s) && FifoInv(L, s) && FifoPossible(L, s, m)
    requires ReadsFragment(L, s, m.move) && s' == FifoApply(L, s, m)
    ensures FifoInv(L, s')
  {
    var i, mid, n := s.inbox[0], Low8(L.msgId), |L.Chunks()|;
    FragmentRead(L, s, m, i, s');
    OrderedRest(s.inbox, s.last, s.y.sender.index, n);
    var t := s'.y.receiver.asm;
    HeldAfterPart(s.y.receiver.asm, mid, i, n, L.Chunks()[i], t);
    TimesSnoc(s.y.returned, mid, (mid as nat, L.data));
    TakeKeepsSpent(HeldParts(s.y.receiver.asm, mid), s.last, Returns(L, s.y), n, i, HeldParts(t, mid),
                   Status(t).Complete?);
  }

  lemma {:induction false} RunKeepsFifoInv(L: Link, first: bool, moves: seq<FifoMove>)
    requires L.Usable() && FifoRun(L, first, moves)
    ensures FifoInv(L, FifoReached(L, first, moves))
  {
    if moves != [] {
      var n := |moves| - 1;
      RunKeepsFifoInv(L, first, moves[..n]);
      FifoIsRun(L, first, moves[..n]);
      StepKeepsFifoInv(L, FifoReached(L, first, moves[..n]), moves[n], FifoReached(L, first, moves));
    }
  }

  lemma StepKeepsFifoInv(L: Link, s: Net, m: FifoMove, s': Net)
    requires L.Usable() && Inv(L, s.y) && Boxes(L, s) && FifoInv(L, s) && FifoPossible(L, s, m)
    requires s' == FifoApply(L, s, m)
    ensures FifoInv(L, s')
  {
    match m.move {
      case SenderTurn(_) => SenderTurnKeepsFifoInv(L, s, m, s');
      case Arrival(_) =>
        if ReadsFragment(L, s, m.move) {
          FragmentKeepsFifoInv(L, s, m, s');
        } else {
          OtherArrivalKeepsFifoInv(L, s, m, s');
        }
      case Call =>
    }
  }

  lemma TakesBound(n: nat, maxAttempts: nat, times: nat, takes: nat, sends: nat)
    requires n == 1 && times <= takes <= sends <= n * maxAttempts
    ensures times <= maxAttempts
  {
  }

  /** A second return takes a message of one fragment, and every return a transmission of its own. */
  lemma ReturnsAreFew(L: Link, first: bool, moves: seq<FifoMove>)
    requires L.Usable() && FifoRun(L, first, moves)
    ensures var times := Returns(L, FifoReached(L, first, moves).y);
            && (times > 0 ==> Addressed(L) && L.maxAttempts > 0)
            && (times > 1 ==> |L.Chunks()| == 1 && times <= L.maxAttempts)
  {
    var s := FifoReached(L, first, moves);
    FifoIsRun(L, first, moves);
    RunKeepsFifoInv(L, first, moves);
    SendsBound(s.y.sender, |L.Chunks()|, L.maxAttempts);
    if Returns(L, s.y) > 1 {
      TakesBound(|L.Chunks()|, L.maxAttempts, Returns(L, s.y), s.takes, s.y.sender.sends);
    }
    if L.maxAttempts == 0 || !Addressed(L) {
      NeverHeard(L, Plain(moves));
    }
  }

  // ---- and so often it can be ----

  lemma FifoOneMove(L: Link, first: bool, moves: seq<FifoMove>, m: FifoMove, s: Net, s': Net)
    requires L.Usable() && FifoRun(L, first, moves) && s == FifoReached(L, first, moves)
    requires FifoPossible(L, s, m) && s' == FifoApply(L, s, m)
    ensures FifoRun(L, first, moves + [m]) && FifoReached(L, first, moves + [m]) == s'
  {
    assert (moves + [m])[..|moves|] == moves;
  }

  /** Fragment `k` waits for a call that has collected the earlier ones. */
  ghost predicate Ready(L: Link, s: Net, k: nat)
    requires L.Usable()
  {
    && k < |L.Chunks()| && s.inbox == [k] && s.ackbox == []
    && s.y.sender.outcome == Waiting && s.y.sender.index == k && Holds(L, s.y.receiver, k)
  }

  lemma FragmentCollected(L: Link, s: Net, k: nat, m: FifoMove, s': Net)
    requires L.Usable() && Addressed(L) && Boxes(L, s) && Ready(L, s, k)
    requires m == FifoMove(Arrival(Turn(Some(L.FrameOf(k)), false)), m.decodes) && s' == FifoApply(L, s, m)
    ensures FifoPossible(L, s, m)
    ensures s'.inbox == [] && s'.ackbox == (if m.decodes then [k] else []) && s'.y.sender == s.y.sender
    ensures if k + 1 < |L.Chunks()| then Holds(L, s'.y.receiver, k + 1)
            else s'.y.returned == s.y.returned + [(Low8(L.msgId) as nat, L.data)]
  {
    var b, y' := L.FrameOf(k), Apply(L, s.y, m.move);
    assert b == L.FrameOf(s.inbox[0]);
    OwnFragment(L, k);
    FragmentArrives(L, s.y, k, b, false, y');
    ChunksJoin(L);
    NextCollected(L.Chunks(), L.data, Low8(L.msgId), s.y.receiver.asm, k, y'.receiver.asm);
  }

  lemma AckCollected(L: Link, s: Net, k: nat, a: Bytes, m: FifoMove, s': Net)
    requires L.Usable() && Boxes(L, s) && k + 1 < |L.Chunks()| && s.inbox == [] && s.ackbox == [k]
    requires s.y.sender.outcome == Waiting && s.y.sender.index == k && Holds(L, s.y.receiver, k + 1)
    requires a == AckFor(FrameAt(L, k), L.me) && m == FifoMove(SenderTurn(Turn(Some(a), false)), true)
    requires s' == FifoApply(L, s, m)
    ensures FifoPossible(L, s, m) && Ready(L, s', k + 1)
  {
    assert a == AckFor(FrameAt(L, s.ackbox[0]), L.me);
    AckIsAccepted(L, k, a);
    AckHeard(L, s.y, k, a, Apply(L, s.y, m.move));
  }

  lemma NextReady(L: Link, before: seq<FifoMove>, s: Net, i: nat) returns (moves: seq<FifoMove>, s2: Net)
    requires L.Usable() && Addressed(L) && i + 1 < |L.Chunks()|
    requires FifoRun(L, true, before) && s == FifoReached(L, true, before) && Ready(L, s, i)
    ensures FifoRun(L, true, moves) && s2 == FifoReached(L, true, moves) && Ready(L, s2, i + 1)
  {
    var b, a := L.FrameOf(i), AckFor(FrameAt(L, i), L.me);
    var arrival := FifoMove(Arrival(Turn(Some(b), false)), true);
    var heard := FifoMove(SenderTurn(Turn(Some(a), false)), true);
    var s1 := FifoApply(L, s, arrival);
    s2 := FifoApply(L, s1, heard);
    FifoIsRun(L, true, before);
    FragmentCollected(L, s, i, arrival, s1);
    FifoOneMove(L, true, before, arrival, s, s1);
    FifoIsRun(L, true, before + [arrival]);
    AckCollected(L, s1, i, a, heard, s2);
    FifoOneMove(L, true, before + [arrival], heard, s1, s2);
    moves := before + [arrival] + [heard];
  }

  lemma BeginReady(L: Link)
    requires L.Usable() && L.maxAttempts > 0
    ensures Ready(L, FifoBegin(L, true), 0)
  {
    assert HeldParts(EMPTY, Low8(L.msgId)).Keys == Below(0);
  }

  /** With nothing lost, a single call collects the fragments one after the other. */
  lemma ReadyReached(L: Link, k: nat) returns (moves: seq<FifoMove>, s: Net)
    requires L.Usable() && L.maxAttempts > 0 && Addressed(L) && k < |L.Chunks()|
    ensures FifoRun(L, true, moves) && s == FifoReached(L, true, moves) && Ready(L, s, k)
  {
    moves, s := [], FifoBegin(L, true);
    BeginReady(L);
    for i := 0 to k
      invariant FifoRun(L, true, moves) && s == FifoReached(L, true, moves) && Ready(L, s, i)
    {
      moves, s := NextReady(L, moves, s, i);
    }
  }

  lemma ReturnedOnce(L: Link) returns (moves: seq<FifoMove>)
    requires L.Usable() && L.maxAttempts > 0 && Addressed(L)
    ensures FifoRun(L, true, moves) && Returns(L, FifoReached(L, true, moves).y) >= 1
  {
    var k := |L.Chunks()| - 1;
    var before, s := ReadyReached(L, k);
    var m := FifoMove(Arrival(Turn(Some(L.FrameOf(k)), false)), true);
    FifoIsRun(L, true, before);
    FragmentCollected(L, s, k, m, FifoApply(L, s, m));
    FifoOneMove(L, true, before, m, s, FifoApply(L, s, m));
    TimesSnoc(s.y.returned, Low8(L.msgId), (Low8(L.msgId) as nat, L.data));
    moves := before + [m];
  }

  /** `t` transmissions of the only fragment were returned, each by its own call, and no acknowledgement arrived. */
  ghost predicate Again(L: Link, s: Net, t: nat)
    requires L.Usable()
  {
    && Returns(L, s.y) >= t
    && (t < L.maxAttempts ==> Ready(L, s, 0) && s.y.sender.attempt == t)
  }

  /** The call that follows a return, and the sender's deadline. */
  lemma Repeated(L: Link, s: Net, t: nat, call: FifoMove, s': Net, late: FifoMove, s'': Net)
    requires L.Usable() && |L.Chunks()| == 1 && t < L.maxAttempts && Returns(L, s.y) >= t + 1
    requires s.inbox == [] && s.ackbox == [] && s.y.sender.outcome == Waiting && s.y.sender.index == 0
    requires s.y.sender.attempt == t
    requires call == FifoMove(Call, true) && s' == FifoApply(L, s, call)
    requires late == FifoMove(SenderTurn(Turn(None, true)), true) && s'' == FifoApply(L, s', late)
    ensures FifoPossible(L, s, call) && FifoPossible(L, s', late) && Again(L, s'', t + 1)
  {
  }

  lemma {:induction false} ReturnedAgain(L: Link, t: nat) returns (moves: seq<FifoMove>)
    requires L.Usable() && Addressed(L) && |L.Chunks()| == 1 && 0 < L.maxAttempts && t <= L.maxAttempts
    ensures FifoRun(L, true, moves) && Again(L, FifoReached(L, true, moves), t)
    decreases t
  {
    if t == 0 {
      moves := [];
      BeginReady(L);
    } else {
      var before := ReturnedAgain(L, t - 1);
      var arrival := FifoMove(Arrival(Turn(Some(L.FrameOf(0)), false)), false);
      var call, late := FifoMove(Call, true), FifoMove(SenderTurn(Turn(None, true)), true);
      var s := FifoReached(L, true, before);
      var s1 := FifoApply(L, s, arrival);
      var s2 := FifoApply(L, s1, call);
      var s3 := FifoApply(L, s2, late);
      FifoIsRun(L, true, before);
      FragmentCollected(L, s, 0, arrival, s1);
      TimesSnoc(s.y.returned, Low8(L.msgId), (Low8(L.msgId) as nat, L.data));
      Repeated(L, s1, t - 1, call, s2, late, s3);
      FifoOneMove(L, true, before, arrival, s, s1);
      FifoOneMove(L, true, before + [arrival], call, s1, s2);
      FifoOneMove(L, true, before + [arrival] + [call], late, s2, s3);
      moves := before + [arrival] + [call] + [late];
    }
  }

  ghost predicate MayReturnInOrder(L: Link, c: nat)
    requires L.Usable()
  {
    exists first, moves :: FifoRun(L, first, moves) && Returns(L, FifoReached(L, first, moves).y) >= c
  }

  /**
   * On a medium that only loses frames, a message can be returned more than once exactly when it makes a single
   * fragment, and then as often as it may be transmitted.
   */
  lemma ReturnsInOrderIff(L: Link, c: nat)
    requires L.Usable() && c > 0
    ensures MayReturnInOrder(L, c)
       <==> L.maxAttempts > 0 && Addressed(L) && (c == 1 || (|L.Chunks()| == 1 && c <= L.maxAttempts))
  {
    if MayReturnInOrder(L, c) {
      var first, moves :| FifoRun(L, first, moves) && Returns(L, FifoReached(L, first, moves).y) >= c;
      ReturnsAreFew(L, first, moves);
    }
    if L.maxAttempts > 0 && Addressed(L) {
      if c == 1 {
        var moves := ReturnedOnce(L);
      } else if |L.Chunks()| == 1 && c <= L.maxAttempts {
        var moves := ReturnedAgain(L, c);
      }
    }
  }
}
