/**
 * Stop-and-wait over LoRa: one sender, a receiver that collects messages, and a broadcast medium that loses, repeats
 * and reorders frames and carries the frames of other nodes and other messages as well.
 */
module LoraArq {
  import opened Arithmetic
  import opened Octets
  import opened Options
  import opened Chunks
  import opened LoraFraming

  /** What one call of the radio's receive function brings, and whether the deadline has passed after it. */
  datatype Turn = Turn(frame: Option<Bytes>, late: bool)

  /** One message on its way from a sender to a receiver. */
  datatype Link = Link(data: Bytes, msgId: int, mtu: int, src: int, dst: int, me: Option<int>, maxAttempts: nat)
  {
    predicate Usable() {
      mtu > HDR_LEN && Fragment(data, msgId, mtu, src, dst).Frames?
    }

    function Chunks(): (cs: seq<Bytes>)
      requires Usable()
      ensures 0 < |cs| <= MAX_FRAGS
    {
      Payloads(data, mtu - HDR_LEN)
    }

    function FrameOf(i: nat): Bytes
      requires Usable() && i < |Chunks()|
    {
      Fragment(data, msgId, mtu, src, dst).frames[i]
    }
  }

  // ---- the sender ----

  datatype Outcome = Waiting | Delivered | Lost

  /** Waiting for the acknowledgement of fragment `index` after its `attempt + 1`-th transmission. */
  datatype Sender = Sender(index: nat, attempt: nat, sends: nat, retx: nat, outcome: Outcome)

  predicate AckMatches(b: Bytes, msgId: int, idx: nat, me: Option<int>) {
    var p := Parse(b);
    p.Some? && p.value.Ack? && ForMe(p, me) && p.value.msgId == Low8(msgId) && p.value.idx == idx
  }

  lemma Sixteen(lo: Byte, hi: Byte)
    ensures Unpack16(lo, hi) == lo as int + 256 * hi as int
  {
    HighPartIsProduct(hi);
  }

  /** An acknowledgement counts by its bytes: the mark, the message and fragment number, and the node it goes to. */
  lemma AckMatchesIff(b: Bytes, msgId: int, idx: nat, me: Option<int>)
    ensures AckMatches(b, msgId, idx, me)
       <==> && |b| >= 6 && b[0] == 'A' as int && b[3] == msgId % 256 && b[4] as int + 256 * b[5] as int == idx
            && (me.None? || b[2] == me.value % 256 || b[2] == 255)
  {
    if |b| >= 6 {
      Sixteen(b[4], b[5]);
    }
  }

  function StartSender(maxAttempts: nat): Sender {
    if maxAttempts == 0 then Sender(0, 0, 0, 0, Lost) else Sender(0, 0, 1, 0, Waiting)
  }

  function NextFragment(s: Sender, n: nat): Sender {
    if s.index + 1 < n then Sender(s.index + 1, 0, s.sends + 1, s.retx, Waiting)
    else Sender(s.index + 1, 0, s.sends, s.retx, Delivered)
  }

  function NextAttempt(s: Sender, maxAttempts: nat): Sender {
    if s.attempt + 1 < maxAttempts then Sender(s.index, s.attempt + 1, s.sends + 1, s.retx + 1, Waiting)
    else Sender(s.index, s.attempt + 1, s.sends, s.retx + 1, Lost)
  }

  function OnTurn(s: Sender, turn: Turn, msgId: int, src: int, n: nat, maxAttempts: nat): Sender {
    if s.outcome != Waiting then s
    else if turn.frame.Some? && AckMatches(turn.frame.value, msgId, s.index, Some(src)) then NextFragment(s, n)
    else if turn.late then NextAttempt(s, maxAttempts)
    else s
  }

  function AfterTurns(script: seq<Turn>, msgId: int, src: int, n: nat, maxAttempts: nat): Sender {
    if script == [] then StartSender(maxAttempts)
    else
      var before := AfterTurns(script[..|script| - 1], msgId, src, n, maxAttempts);
      OnTurn(before, script[|script| - 1], msgId, src, n, maxAttempts)
  }

  lemma AfterTurnsStep(script: seq<Turn>, i: nat, msgId: int, src: int, n: nat, maxAttempts: nat)
    requires i < |script|
    ensures AfterTurns(script[..i + 1], msgId, src, n, maxAttempts)
         == OnTurn(AfterTurns(script[..i], msgId, src, n, maxAttempts), script[i], msgId, src, n, maxAttempts)
  {
    assert script[..i + 1][..i] == script[..i];
  }

  lemma {:induction false} SenderStaysDone(script: seq<Turn>, i: nat, msgId: int, src: int, n: nat, maxAttempts: nat)
    requires i <= |script| && AfterTurns(script[..i], msgId, src, n, maxAttempts).outcome != Waiting
    ensures AfterTurns(script, msgId, src, n, maxAttempts) == AfterTurns(script[..i], msgId, src, n, maxAttempts)
    decreases |script|
  {
    if i == |script| {
      assert script[..i] == script;
    } else {
      var m := |script| - 1;
      assert script[..m][..i] == script[..i];
      SenderStaysDone(script[..m], i, msgId, src, n, maxAttempts);
    }
  }

  /** The wait for one acknowledgement: true as soon as it comes, false at the deadline. */
  method AwaitAck(script: seq<Turn>, from: nat, msgId: int, idx: nat, src: int, n: nat, maxAttempts: nat,
                  ghost waiting: Sender)
    returns (ok: bool, next: nat)
    requires from <= |script| && AfterTurns(script, msgId, src, n, maxAttempts).outcome != Waiting
    requires waiting == AfterTurns(script[..from], msgId, src, n, maxAttempts)
    requires waiting.outcome == Waiting && waiting.index == idx
    ensures from < next <= |script|
    ensures AfterTurns(script[..next], msgId, src, n, maxAttempts)
         == if ok then NextFragment(waiting, n) else NextAttempt(waiting, maxAttempts)
  {
    next := from;
    assert script[..|script|] == script;
    while true
      invariant from <= next <= |script| && AfterTurns(script[..next], msgId, src, n, maxAttempts) == waiting
      decreases |script| - next
    {
      var turn := script[next];
      AfterTurnsStep(script, next, msgId, src, n, maxAttempts);
      next := next + 1;
      if turn.frame.Some? && AckMatches(turn.frame.value, msgId, idx, Some(src)) {
        return true, next;
      }
      if turn.late {
        return false, next;
      }
    }
  }

  /** The two sending loops, driven by the turns in `script` until they end. */
  method SendMessage(n: nat, msgId: int, src: int, maxAttempts: nat, waitAck: bool, script: seq<Turn>)
    returns (delivered: bool, sends: nat, retx: nat, lostFrag: nat)
    requires n > 0 && (waitAck ==> AfterTurns(script, msgId, src, n, maxAttempts).outcome != Waiting)
    ensures var s := AfterTurns(script, msgId, src, n, maxAttempts);
            waitAck ==>
              && s.outcome == (if delivered then Delivered else Lost)
              && s.sends == sends && s.retx == retx && (!delivered ==> s.index == lostFrag)
    ensures !waitAck ==> (delivered <==> maxAttempts > 0) && sends == (if delivered then n else 0) && retx == 0
    ensures !waitAck && !delivered ==> lostFrag == 0
  {
    if waitAck {
      delivered, sends, retx, lostFrag := SendAndWait(n, msgId, src, maxAttempts, script);
    } else {
      delivered, sends, retx, lostFrag := SendOut(n, maxAttempts);
    }
  }

  /** Without acknowledgements every fragment goes out once, if it may be sent at all. */
  method SendOut(n: nat, maxAttempts: nat) returns (delivered: bool, sends: nat, retx: nat, lostFrag: nat)
    requires n > 0
    ensures (delivered <==> maxAttempts > 0) && sends == (if delivered then n else 0) && retx == lostFrag == 0
  {
    sends, retx, lostFrag := 0, 0, 0;
    for idx := 0 to n
      invariant sends == idx && (maxAttempts == 0 ==> idx == 0)
    {
      var out := false;
      for attempt := 0 to maxAttempts
        invariant !out && attempt == 0 && sends == idx
      {
        sends := sends + 1;
        out := true;
        break;
      }
      if !out {
        return false, sends, retx, idx;
      }
    }
    return true, sends, retx, lostFrag;
  }

  method SendAndWait(n: nat, msgId: int, src: int, maxAttempts: nat, script: seq<Turn>)
    returns (delivered: bool, sends: nat, retx: nat, lostFrag: nat)
    requires n > 0 && AfterTurns(script, msgId, src, n, maxAttempts).outcome != Waiting
    ensures var s := AfterTurns(script, msgId, src, n, maxAttempts);
            && s.outcome == (if delivered then Delivered else Lost)
            && s.sends == sends && s.retx == retx && (!delivered ==> s.index == lostFrag)
  {
    var next, idx := 0, 0;
    sends, retx, lostFrag := 0, 0, 0;
    assert script[..0] == [];
    while idx < n
      invariant idx <= n && next <= |script|
      invariant AfterTurns(script[..next], msgId, src, n, maxAttempts)
             == if maxAttempts == 0 then StartSender(0)
                else if idx < n then Sender(idx, 0, sends + 1, retx, Waiting)
                else Sender(n, 0, sends, retx, Delivered)
      invariant maxAttempts == 0 ==> idx == 0 && sends == 0 && retx == 0
      decreases n - idx
    {
      var attempt, ok := 0, false;
      while attempt < maxAttempts && !ok
        invariant attempt <= maxAttempts && next <= |script|
        invariant AfterTurns(script[..next], msgId, src, n, maxAttempts)
               == if maxAttempts == 0 then StartSender(0)
                  else if ok then NextFragment(Sender(idx, attempt, sends, retx, Waiting), n)
                  else if attempt < maxAttempts then Sender(idx, attempt, sends + 1, retx, Waiting)
                  else Sender(idx, attempt, sends, retx, Lost)
        invariant maxAttempts == 0 ==> !ok && idx == 0 && sends == 0 && retx == 0
        decreases maxAttempts - attempt, !ok
      {
        sends := sends + 1;
        ok, next := AwaitAck(script, next, msgId, idx, src, n, maxAttempts, Sender(idx, attempt, sends, retx, Waiting));
        if !ok {
          retx := retx + 1;
          attempt := attempt + 1;
        }
      }
      if !ok {
        SenderStaysDone(script, next, msgId, src, n, maxAttempts);
        return false, sends, retx, idx;
      }
      idx := idx + 1;
    }
    SenderStaysDone(script, next, msgId, src, n, maxAttempts);
    return true, sends, retx, lostFrag;
  }

  // ---- the receiver ----

  datatype Listener = Listening | Returned(data: Bytes) | TimedOut | Raised

  /** One call of the receiving function: its reassembler, the acknowledgements it sent, and how it stands. */
  datatype Receiver = Receiver(asm: Assembly, acks: seq<Bytes>, frags: nat, state: Listener)

  function StartReceiver(): Receiver {
    Receiver(EMPTY, [], 0, Listening)
  }

  /** A data frame for this node; everything else is ignored. */
  predicate Wanted(b: Bytes, me: Option<int>) {
    var p := Parse(b);
    p.Some? && p.value.Data? && ForMe(p, me)
  }

  /** So does a data frame: the mark, a whole header, and the node it goes to. */
  lemma WantedIff(b: Bytes, me: Option<int>)
    ensures Wanted(b, me) <==> |b| >= 8 && b[0] == 'L' as int && (me.None? || b[2] == me.value % 256 || b[2] == 255)
  {
  }

  function AckFor(p: Frame, me: Option<int>): Bytes
    requires Fits16(p)
  {
    AckFrame(p.msgId, p.idx, if me.Some? then me.value else 0, p.src)
  }

  /** A frame that is not wanted goes back to listening whatever the clock says. */
  function OnArrival(r: Receiver, turn: Turn, me: Option<int>): Receiver {
    if r.state != Listening then r
    else if turn.frame.None? then if turn.late then r.(state := TimedOut) else r
    else if !Wanted(turn.frame.value, me) then r
    else
      var p := Parse(turn.frame.value).value;
      var asm := AddPart(r.asm, p.msgId, p.idx, p.nFrags, p.payload);
      Receiver(asm, r.acks + [AckFor(p, me)], r.frags + 1,
               match Status(asm)
               case Complete(data) => Returned(data)
               case MissingKey => Raised
               case Incomplete => if turn.late then TimedOut else Listening)
  }

  function AfterArrivals(script: seq<Turn>, me: Option<int>): Receiver {
    if script == [] then StartReceiver()
    else OnArrival(AfterArrivals(script[..|script| - 1], me), script[|script| - 1], me)
  }

  lemma AfterArrivalsStep(script: seq<Turn>, i: nat, me: Option<int>)
    requires i < |script|
    ensures AfterArrivals(script[..i + 1], me) == OnArrival(AfterArrivals(script[..i], me), script[i], me)
  {
    assert script[..i + 1][..i] == script[..i];
  }

  lemma {:induction false} ReceiverStaysDone(script: seq<Turn>, i: nat, me: Option<int>)
    requires i <= |script| && AfterArrivals(script[..i], me).state != Listening
    ensures AfterArrivals(script, me) == AfterArrivals(script[..i], me)
    decreases |script|
  {
    if i == |script| {
      assert script[..i] == script;
    } else {
      var m := |script| - 1;
      assert script[..m][..i] == script[..i];
      ReceiverStaysDone(script[..m], i, me);
    }
  }

  /** The wanted frames that a call heard while it listened. */
  function WantedFrames(script: seq<Turn>, me: Option<int>): (ps: seq<Frame>)
    ensures forall k | 0 <= k < |ps| :: ps[k].Data? && Fits16(ps[k])
  {
    if script == [] then []
    else
      var front, turn := script[..|script| - 1], script[|script| - 1];
      var ps := WantedFrames(front, me);
      if AfterArrivals(front, me).state == Listening && turn.frame.Some? && Wanted(turn.frame.value, me)
      then ps + [Parse(turn.frame.value).value] else ps
  }

  /** `b` is an acknowledgement from this node to the source of data frame `p`, of its number and message. */
  ghost predicate Acknowledges(b: Bytes, p: Frame, me: Option<int>)
    requires p.Data?
  {
    Parse(b) == Some(Ack(Low8(if me.Some? then me.value else 0), p.src, p.msgId, p.idx))
  }

  lemma AckForAcknowledges(p: Frame, me: Option<int>)
    requires Fits16(p) && p.Data?
    ensures Acknowledges(AckFor(p, me), p, me)
  {
    ParseOfWire(Ack(Low8(if me.Some? then me.value else 0), p.src, p.msgId, p.idx));
  }

  /** The acknowledgements of a call answer the wanted frames it heard, one by one and in their order. */
  lemma {:induction false} AcksAnswerFrames(script: seq<Turn>, me: Option<int>)
    ensures var r, ps := AfterArrivals(script, me), WantedFrames(script, me);
            && |r.acks| == r.frags == |ps|
            && forall k | 0 <= k < |ps| :: Acknowledges(r.acks[k], ps[k], me)
  {
    if script != [] {
      var front, turn := script[..|script| - 1], script[|script| - 1];
      AcksAnswerFrames(front, me);
      if AfterArrivals(front, me).state == Listening && turn.frame.Some? && Wanted(turn.frame.value, me) {
        AckForAcknowledges(Parse(turn.frame.value).value, me);
      }
    }
  }

  /** The receiving loop, driven by the turns in `script` until it ends. */
  method RecvMessage(script: seq<Turn>, me: Option<int>, sendAcks: bool)
    returns (state: Listener, acks: seq<Bytes>, frags: nat, missing: seq<nat>)
    requires AfterArrivals(script, me).state != Listening
    ensures var r := AfterArrivals(script, me);
            && state != Listening && r.state == state && r.frags == frags
            && acks == (if sendAcks then r.acks else [])
            && (state == TimedOut && r.asm.nFrags.Some? ==>
                  forall i :: i in missing <==> 0 <= i < r.asm.nFrags.value && i !in r.asm.parts)
  {
    var asm := new Reassembler();
    var next := 0;
    state, acks, frags := Listening, [], 0;
    ghost var r := StartReceiver(); // the machine after the turns taken so far
    assert script[..0] == [] && script[..|script|] == script;
    while state == Listening
      invariant next <= |script| && r == AfterArrivals(script[..next], me)
      invariant r == Receiver(asm.State(), r.acks, frags, state)
      invariant acks == if sendAcks then r.acks else []
      decreases |script| - next
    {
      var turn := script[next];
      AfterArrivalsStep(script, next, me);
      r := OnArrival(r, turn, me);
      next := next + 1;
      if turn.frame.None? {
        if turn.late {
          state := TimedOut;
        }
      } else if Wanted(turn.frame.value, me) {
        var p := Parse(turn.frame.value).value;
        frags := frags + 1;
        if sendAcks {
          acks := acks + [AckFor(p, me)];
        }
        var done := asm.Add(p.msgId, p.idx, p.nFrags, p.payload);
        match done {
          case Complete(data) => state := Returned(data);
          case MissingKey => state := Raised;
          case Incomplete =>
            if turn.late {
              state := TimedOut;
            }
        }
      }
    }
    ReceiverStaysDone(script, next, me);
    missing := asm.Missing();
  }

  // ---- the two ends and the medium between them ----

  /**
   * `air` holds every data frame of this message and `acks` every acknowledgement ever sent, so that one may arrive
   * any number of times, in any order, or never. `taken` are the fragments of this message the receiver ever accepted,
   * `returned` the messages its calls returned, with their numbers.
   */
  datatype System = System(sender: Sender, air: set<Bytes>, receiver: Receiver, acks: set<Bytes>,
                           taken: set<nat>, returned: seq<(nat, Bytes)>)

  // `Call` abandons whatever the current call of the receiving function has collected and starts the next one.
  datatype Move = SenderTurn(turn: Turn) | Arrival(turn: Turn) | Call

  /** The frame the sender transmits on entering state `s`. */
  function Aired(L: Link, s: Sender): set<Bytes>
    requires L.Usable()
  {
    if s.outcome == Waiting && s.index < |L.Chunks()| then {L.FrameOf(s.index)} else {}
  }

  function Begin(L: Link): System
    requires L.Usable()
  {
    var s := StartSender(L.maxAttempts);
    System(s, Aired(L, s), StartReceiver(), {}, {}, [])
  }

  /** An acknowledgement of this very message, addressed to the sender. */
  predicate OwnAck(L: Link, b: Bytes) {
    var p := Parse(b);
    p.Some? && p.value.Ack? && ForMe(p, Some(L.src)) && p.value.msgId == Low8(L.msgId)
  }

  /** A data frame that the receiver would take for a part of this very message. */
  predicate OwnData(L: Link, b: Bytes) {
    Wanted(b, L.me) && Parse(b).value.msgId == Low8(L.msgId)
  }

  /**
   * Frames of this message come only from its sender and its receiver. Anything else may arrive at any time: frames
   * addressed to other nodes, frames of other messages, acknowledgements at the receiver, and bytes that mean nothing.
   */
  predicate Possible(L: Link, y: System, move: Move) {
    match move
    case SenderTurn(turn) => turn.frame.Some? && OwnAck(L, turn.frame.value) ==> turn.frame.value in y.acks
    case Arrival(turn) => turn.frame.Some? && OwnData(L, turn.frame.value) ==> turn.frame.value in y.air
    case Call => true
  }

  /** What a list has gained. */
  function Gained(before: seq<Bytes>, after: seq<Bytes>): set<Bytes> {
    set k | |before| <= k < |after| :: after[k]
  }

  function Apply(L: Link, y: System, move: Move): System
    requires L.Usable()
  {
    match move
    case SenderTurn(turn) =>
      var s := OnTurn(y.sender, turn, L.msgId, L.src, |L.Chunks()|, L.maxAttempts);
      y.(sender := s, air := y.air + Aired(L, s))
    case Arrival(turn) =>
      var r := OnArrival(y.receiver, turn, L.me);
      var own := y.receiver.state == Listening && turn.frame.Some? && OwnData(L, turn.frame.value);
      y.(receiver := r,
         acks := y.acks + Gained(y.receiver.acks, r.acks),
         taken := if own then y.taken + {Parse(turn.frame.value).value.idx} else y.taken,
         returned := if y.receiver.state == Listening && r.state.Returned? && r.asm.msgId.Some?
                     then y.returned + [(r.asm.msgId.value, r.state.data)] else y.returned)
    case Call => y.(receiver := StartReceiver())
  }

  function Reached(L: Link, moves: seq<Move>): System
    requires L.Usable()
  {
    if moves == [] then Begin(L) else Apply(L, Reached(L, moves[..|moves| - 1]), moves[|moves| - 1])
  }

  predicate AllPossible(L: Link, moves: seq<Move>)
    requires L.Usable()
  {
    if moves == [] then true
    else
      && AllPossible(L, moves[..|moves| - 1])
      && Possible(L, Reached(L, moves[..|moves| - 1]), moves[|moves| - 1])
  }

  // ---- the invariant ----

  ghost predicate SenderInv(s: Sender, n: nat, maxAttempts: nat) {
    && s.index <= n
    && s.sends == s.retx + s.index + (if s.outcome == Waiting then 1 else 0)
    && s.sends <= s.index * maxAttempts + s.attempt + (if s.outcome == Waiting then 1 else 0)
    && (s.outcome == Waiting ==> s.index < n && s.attempt < maxAttempts)
    && (s.outcome == Delivered ==> s.index == n && s.attempt == 0)
    && (s.outcome == Lost ==> s.index < n && s.attempt == maxAttempts)
  }

  /** Every frame in the air is one of the fragments. */
  ghost predicate AirInv(L: Link, air: set<Bytes>)
    requires L.Usable()
  {
    forall b | b in air :: exists i: nat :: i < |L.Chunks()| && b == L.FrameOf(i)
  }

  /** What the receiver holds of this message is true. */
  ghost predicate AsmInv(L: Link, asm: Assembly)
    requires L.Usable()
  {
    asm.msgId == Some(Low8(L.msgId) as nat) ==> TrueParts(asm.parts, L.Chunks()) && asm.nFrags == Some(|L.Chunks()|)
  }

  ghost predicate AcksInv(L: Link, acks: set<Bytes>, taken: set<nat>, n: nat) {
    && (forall i | i in taken :: i < n)
    && (forall b, i: nat | b in acks && AckMatches(b, L.msgId, i, Some(L.src)) :: i in taken)
  }

  ghost predicate ReturnedInv(L: Link, returned: seq<(nat, Bytes)>) {
    forall t | 0 <= t < |returned| && returned[t].0 == Low8(L.msgId) :: returned[t].1 == L.data
  }

  ghost predicate Inv(L: Link, y: System)
    requires L.Usable()
  {
    && SenderInv(y.sender, |L.Chunks()|, L.maxAttempts)
    && AirInv(L, y.air)
    && AsmInv(L, y.receiver.asm)
    && AcksInv(L, y.acks, y.taken, |L.Chunks()|)
    && ReturnedInv(L, y.returned)
    && (forall i: nat | i < y.sender.index :: i in y.taken)
  }

  lemma FragmentParses(L: Link, i: nat)
    requires L.Usable() && i < |L.Chunks()|
    ensures Parse(L.FrameOf(i)) == Some(FragmentFrame(L.Chunks(), L.msgId, L.src, L.dst, i))
  {
    var frames, chunks := Fragment(L.data, L.msgId, L.mtu, L.src, L.dst).frames, L.Chunks();
    assert L.FrameOf(i) == frames[i] && chunks == Payloads(L.data, L.mtu - HDR_LEN);
    ParseOfFragment(L.data, L.msgId, L.mtu, L.src, L.dst, i);
  }

  lemma ChunksJoin(L: Link)
    requires L.Usable()
    ensures Join(L.Chunks()) == L.data
  {
    var cap := L.mtu - HDR_LEN;
    assert L.Chunks() == Payloads(L.data, cap);
    PayloadsJoin(L.data, cap);
  }

  lemma OwnDataIsFragment(L: Link, air: set<Bytes>, b: Bytes) returns (i: nat)
    requires L.Usable() && AirInv(L, air) && b in air
    ensures i < |L.Chunks()| && Parse(b) == Some(FragmentFrame(L.Chunks(), L.msgId, L.src, L.dst, i))
  {
    i :| i < |L.Chunks()| && b == L.FrameOf(i);
    FragmentParses(L, i);
  }

  lemma SenderKeepsInv(s: Sender, turn: Turn, msgId: int, src: int, n: nat, maxAttempts: nat)
    requires SenderInv(s, n, maxAttempts)
    ensures SenderInv(OnTurn(s, turn, msgId, src, n, maxAttempts), n, maxAttempts)
  {
    assert (s.index + 1) * maxAttempts == s.index * maxAttempts + maxAttempts;
  }

  lemma SenderTurnKeepsInv(L: Link, y: System, turn: Turn)
    requires L.Usable() && Inv(L, y) && Possible(L, y, SenderTurn(turn))
    ensures Inv(L, Apply(L, y, SenderTurn(turn)))
  {
    var n := |L.Chunks()|;
    SenderKeepsInv(y.sender, turn, L.msgId, L.src, n, L.maxAttempts);
    var s := OnTurn(y.sender, turn, L.msgId, L.src, n, L.maxAttempts);
    if s.index > y.sender.index {
      var b := turn.frame.value;
      assert OwnAck(L, b) && b in y.acks;
      assert AckMatches(b, L.msgId, y.sender.index, Some(L.src));
    }
  }

  lemma GainedOne(acks: seq<Bytes>, a: Bytes)
    ensures Gained(acks, acks + [a]) == {a} && Gained(acks, acks) == {}
  {
    assert (acks + [a])[|acks|] == a;
  }

  lemma ArrivalAcks(L: Link, y: System, turn: Turn)
    requires L.Usable()
    ensures var y' := Apply(L, y, Arrival(turn));
            if y.receiver.state == Listening && turn.frame.Some? && Wanted(turn.frame.value, L.me)
            then y'.acks == y.acks + {AckFor(Parse(turn.frame.value).value, L.me)}
            else y'.acks == y.acks
  {
    if turn.frame.Some? && Wanted(turn.frame.value, L.me) {
      GainedOne(y.receiver.acks, AckFor(Parse(turn.frame.value).value, L.me));
    }
    GainedOne(y.receiver.acks, []);
  }

  lemma AckNamesFragment(L: Link, p: Frame, i: nat)
    requires Fits16(p) && p.Data? && AckMatches(AckFor(p, L.me), L.msgId, i, Some(L.src))
    ensures p.idx == i && p.msgId == Low8(L.msgId)
  {
    ParseOfWire(Ack(Low8(if L.me.Some? then L.me.value else 0), p.src, p.msgId, p.idx));
  }

  /** One more true fragment, in an assembly that may belong to another message so far. */
  lemma TruePartAdded(chunks: seq<Bytes>, data: Bytes, asm: Assembly, msgId: nat, i: nat, t: Assembly)
    requires i < |chunks| && Join(chunks) == data && t == AddPart(asm, msgId, i, |chunks|, chunks[i])
    requires asm.msgId == Some(msgId) ==> TrueParts(asm.parts, chunks)
    ensures TrueParts(t.parts, chunks)
    ensures (Status(t).Complete? ==> Status(t).data == data) && !Status(t).MissingKey?
  {
    TruePartsStatus(t.parts, chunks, msgId);
  }

  lemma OwnArrivalKeepsAsm(L: Link, asm: Assembly, air: set<Bytes>, b: Bytes)
    requires L.Usable() && AsmInv(L, asm) && AirInv(L, air) && OwnData(L, b) && b in air
    ensures var p := Parse(b).value; var t := AddPart(asm, p.msgId, p.idx, p.nFrags, p.payload);
            && p.idx < |L.Chunks()| && AsmInv(L, t) && t.msgId == Some(Low8(L.msgId) as nat)
            && (Status(t).Complete? ==> Status(t).data == L.data) && !Status(t).MissingKey?
  {
    var i := OwnDataIsFragment(L, air, b);
    var p := Parse(b).value;
    ChunksJoin(L);
    TruePartAdded(L.Chunks(), L.data, asm, p.msgId, i, AddPart(asm, p.msgId, p.idx, p.nFrags, p.payload));
  }

  lemma OwnArrivalKeepsInv(L: Link, y: System, turn: Turn)
    requires L.Usable() && Inv(L, y) && Possible(L, y, Arrival(turn))
    requires y.receiver.state == Listening && turn.frame.Some? && OwnData(L, turn.frame.value)
    ensures Inv(L, Apply(L, y, Arrival(turn)))
  {
    var b := turn.frame.value;
    var p := Parse(b).value;
    OwnArrivalKeepsAsm(L, y.receiver.asm, y.air, b);
    ArrivalKeepsAcks(L, y, turn);
  }

  lemma ArrivalKeepsAcks(L: Link, y: System, turn: Turn)
    requires L.Usable() && Inv(L, y)
    requires y.receiver.state == Listening && turn.frame.Some? && OwnData(L, turn.frame.value)
             ==> Parse(turn.frame.value).value.idx < |L.Chunks()|
    ensures var y' := Apply(L, y, Arrival(turn)); AcksInv(L, y'.acks, y'.taken, |L.Chunks()|)
  {
    var y' := Apply(L, y, Arrival(turn));
    ArrivalAcks(L, y, turn);
    forall a, i: nat | a in y'.acks && AckMatches(a, L.msgId, i, Some(L.src))
      ensures i in y'.taken
    {
      if a !in y.acks {
        AckNamesFragment(L, Parse(turn.frame.value).value, i);
      }
    }
  }

  lemma ArrivalKeepsInv(L: Link, y: System, turn: Turn)
    requires L.Usable() && Inv(L, y) && Possible(L, y, Arrival(turn))
    ensures Inv(L, Apply(L, y, Arrival(turn)))
  {
    if y.receiver.state == Listening && turn.frame.Some? && OwnData(L, turn.frame.value) {
      OwnArrivalKeepsInv(L, y, turn);
    } else {
      ArrivalKeepsAcks(L, y, turn);
    }
  }

  lemma {:induction false} RunKeepsInv(L: Link, moves: seq<Move>)
    requires L.Usable() && AllPossible(L, moves)
    ensures Inv(L, Reached(L, moves))
  {
    if moves != [] {
      var n := |moves| - 1;
      RunKeepsInv(L, moves[..n]);
      var y := Reached(L, moves[..n]);
      match moves[n]
      case SenderTurn(turn) => SenderTurnKeepsInv(L, y, turn);
      case Arrival(turn) => ArrivalKeepsInv(L, y, turn);
      case Call =>
    }
  }

  // ---- what every run keeps ----

  /** The parts collected for this message are always among the true fragments. */
  lemma PartsAreTrue(L: Link, moves: seq<Move>)
    requires L.Usable() && AllPossible(L, moves)
    ensures var asm := Reached(L, moves).receiver.asm;
            asm.msgId == Some(Low8(L.msgId) as nat) ==> TrueParts(asm.parts, L.Chunks())
  {
    RunKeepsInv(L, moves);
  }

  /** An acknowledgement on its way that the sender would accept names a fragment the receiver has taken. */
  lemma AckImpliesTaken(L: Link, moves: seq<Move>, b: Bytes, i: nat)
    requires L.Usable() && AllPossible(L, moves)
    requires b in Reached(L, moves).acks && AckMatches(b, L.msgId, i, Some(L.src))
    ensures i in Reached(L, moves).taken
  {
    RunKeepsInv(L, moves);
  }

  /** Whatever is returned under this message's number is the data that was sent. */
  lemma ReturnedIsSent(L: Link, moves: seq<Move>, t: nat)
    requires L.Usable() && AllPossible(L, moves) && t < |Reached(L, moves).returned|
    requires Reached(L, moves).returned[t].0 == Low8(L.msgId)
    ensures Reached(L, moves).returned[t].1 == L.data
  {
    RunKeepsInv(L, moves);
  }

  /** A message reported as delivered had every fragment taken. */
  lemma DeliveredIsTaken(L: Link, moves: seq<Move>, i: nat)
    requires L.Usable() && AllPossible(L, moves) && i < |L.Chunks()|
    requires Reached(L, moves).sender.outcome == Delivered
    ensures i in Reached(L, moves).taken
  {
    RunKeepsInv(L, moves);
  }

  lemma SendsBound(s: Sender, n: nat, maxAttempts: nat)
    requires SenderInv(s, n, maxAttempts)
    ensures s.sends <= n * maxAttempts
  {
    Scaled(s.index + 1, n, maxAttempts);
    assert (s.index + 1) * maxAttempts == s.index * maxAttempts + maxAttempts;
  }

  /**
   * Every transmission either moved on to the next fragment, or was counted as a retransmission, or is the last; there
   * are at most `maxAttempts` for each fragment.
   */
  lemma Accounting(L: Link, moves: seq<Move>)
    requires L.Usable() && AllPossible(L, moves)
    ensures var s := Reached(L, moves).sender;
            && s.sends == s.retx + s.index + (if s.outcome == Waiting then 1 else 0)
            && (s.outcome == Delivered <==> s.index == |L.Chunks()|)
            && s.sends <= |L.Chunks()| * L.maxAttempts
  {
    RunKeepsInv(L, moves);
    SendsBound(Reached(L, moves).sender, |L.Chunks()|, L.maxAttempts);
  }

  // ---- a single undisturbed call ----

  /** The receiver stays in one call, its deadline does not pass, and no other message reaches it. */
  predicate Undisturbed(L: Link, moves: seq<Move>) {
    forall t | 0 <= t < |moves| ::
      match moves[t]
      case SenderTurn(_) => true
      case Arrival(turn) =>
        !turn.late && (turn.frame.Some? && Wanted(turn.frame.value, L.me) ==> OwnData(L, turn.frame.value))
      case Call => false
  }

  /** Either the message has been returned once, or everything taken so far is still held and some part is missing. */
  ghost predicate OneCall(L: Link, y: System)
    requires L.Usable()
  {
    var asm := y.receiver.asm;
    if y.returned != [] then y.returned == [(Low8(L.msgId) as nat, L.data)] && y.receiver.state.Returned?
    else
      && y.receiver.state == Listening
      && ((asm == EMPTY && y.taken == {}) || (asm.msgId == Some(Low8(L.msgId) as nat) && Status(asm) == Incomplete))
      && (forall i | i in y.taken :: i in asm.parts)
  }

  lemma ArrivalKeepsOneCall(L: Link, y: System, turn: Turn)
    requires L.Usable() && Inv(L, y) && Possible(L, y, Arrival(turn)) && OneCall(L, y) && !turn.late
    requires turn.frame.Some? && Wanted(turn.frame.value, L.me) ==> OwnData(L, turn.frame.value)
    ensures OneCall(L, Apply(L, y, Arrival(turn)))
  {
    if y.receiver.state == Listening && turn.frame.Some? && OwnData(L, turn.frame.value) {
      OwnArrivalKeepsAsm(L, y.receiver.asm, y.air, turn.frame.value);
    }
  }

  lemma {:induction false} UndisturbedIsOneCall(L: Link, moves: seq<Move>)
    requires L.Usable() && AllPossible(L, moves) && Undisturbed(L, moves)
    ensures OneCall(L, Reached(L, moves))
  {
    if moves != [] {
      var n := |moves| - 1;
      RunKeepsInv(L, moves[..n]);
      UndisturbedIsOneCall(L, moves[..n]);
      var y, move := Reached(L, moves[..n]), moves[n];
      if move.Arrival? {
        ArrivalKeepsOneCall(L, y, move.turn);
      }
    }
  }

  /** In an undisturbed call, a message reported as delivered has been returned, once and whole. */
  lemma DeliveredIsReturned(L: Link, moves: seq<Move>)
    requires L.Usable() && AllPossible(L, moves) && Undisturbed(L, moves)
    requires Reached(L, moves).sender.outcome == Delivered
    ensures Reached(L, moves).returned == [(Low8(L.msgId) as nat, L.data)]
  {
    var y := Reached(L, moves);
    RunKeepsInv(L, moves);
    UndisturbedIsOneCall(L, moves);
    if y.returned == [] {
      assert 0 in y.taken;
      TruePartsStatus(y.receiver.asm.parts, L.Chunks(), Low8(L.msgId));
    }
  }
}
