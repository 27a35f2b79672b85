/** When a call of the LoRa receiving function raises because of wrong fragment numbers. */
module LoraRaise {
  import opened Options
  import opened Counting
  import opened LoraFraming
  import opened LoraArq

  /** The latest wanted frame of a script. */
  function Latest(script: seq<Turn>, me: Option<int>): Option<Frame> {
    if script == [] then None
    else
      var turn := script[|script| - 1];
      if turn.frame.Some? && Wanted(turn.frame.value, me) then Parse(turn.frame.value)
      else Latest(script[..|script| - 1], me)
  }

  /** The fragment numbers heard since the message number last changed. */
  function Heard(script: seq<Turn>, me: Option<int>): set<nat> {
    if script == [] then {}
    else
      var front, turn := script[..|script| - 1], script[|script| - 1];
      if turn.frame.Some? && Wanted(turn.frame.value, me) then
        var p, last := Parse(turn.frame.value).value, Latest(front, me);
        (if last.Some? && last.value.msgId == p.msgId then Heard(front, me) else {}) + {p.idx}
      else Heard(front, me)
  }

  ghost predicate HoldsHeard(asm: Assembly, last: Option<Frame>, heard: set<nat>) {
    && asm.parts.Keys == heard
    && match last
       case Some(p) => p.Data? && asm.msgId == Some(p.msgId as nat) && asm.nFrags == Some(p.nFrags)
       case None => asm == EMPTY
  }

  lemma OneMoreHeard(asm: Assembly, last: Option<Frame>, heard: set<nat>, p: Frame, asm': Assembly, heard': set<nat>)
    requires HoldsHeard(asm, last, heard) && p.Data? && asm' == AddPart(asm, p.msgId, p.idx, p.nFrags, p.payload)
    requires heard' == (if last.Some? && last.value.msgId == p.msgId then heard else {}) + {p.idx}
    ensures HoldsHeard(asm', Some(p), heard')
  {
  }

  lemma NextHeard(front: seq<Turn>, turn: Turn, script: seq<Turn>, me: Option<int>)
    requires script != [] && front == script[..|script| - 1] && turn == script[|script| - 1]
    requires AfterArrivals(front, me).state == Listening
    requires HoldsHeard(AfterArrivals(front, me).asm, Latest(front, me), Heard(front, me))
    ensures HoldsHeard(AfterArrivals(script, me).asm, Latest(script, me), Heard(script, me))
  {
    if turn.frame.Some? && Wanted(turn.frame.value, me) {
      OneMoreHeard(AfterArrivals(front, me).asm, Latest(front, me), Heard(front, me), Parse(turn.frame.value).value,
                   AfterArrivals(script, me).asm, Heard(script, me));
    }
  }

  lemma {:induction false} HeardIsHeld(script: seq<Turn>, me: Option<int>)
    requires script != [] ==> AfterArrivals(script[..|script| - 1], me).state == Listening
    ensures HoldsHeard(AfterArrivals(script, me).asm, Latest(script, me), Heard(script, me))
  {
    if script != [] {
      var front, turn := script[..|script| - 1], script[|script| - 1];
      HeardIsHeld(front, me);
      NextHeard(front, turn, script, me);
    }
  }

  /** The latest wanted frame with number `i`. */
  function LatestOf(script: seq<Turn>, me: Option<int>, i: nat): Option<Frame> {
    if script == [] then None
    else
      var turn := script[|script| - 1];
      if turn.frame.Some? && Wanted(turn.frame.value, me) && Parse(turn.frame.value).value.idx == i
      then Parse(turn.frame.value) else LatestOf(script[..|script| - 1], me, i)
  }

  ghost predicate HoldsLatest(asm: Assembly, i: nat, last: Option<Frame>) {
    i in asm.parts ==> last.Some? && last.value.Data? && asm.parts[i] == last.value.payload
  }

  lemma OneMoreLatest(asm: Assembly, i: nat, last: Option<Frame>, p: Frame)
    requires HoldsLatest(asm, i, last) && p.Data?
    ensures HoldsLatest(AddPart(asm, p.msgId, p.idx, p.nFrags, p.payload), i, if p.idx == i then Some(p) else last)
  {
  }

  /** Under each number a call holds the payload that came last under it. */
  lemma {:induction false} LatestIsHeld(script: seq<Turn>, me: Option<int>, i: nat)
    requires script != [] ==> AfterArrivals(script[..|script| - 1], me).state == Listening
    ensures HoldsLatest(AfterArrivals(script, me).asm, i, LatestOf(script, me, i))
  {
    if script != [] {
      var front, turn := script[..|script| - 1], script[|script| - 1];
      LatestIsHeld(front, me, i);
      if turn.frame.Some? && Wanted(turn.frame.value, me) {
        OneMoreLatest(AfterArrivals(front, me).asm, i, LatestOf(front, me, i), Parse(turn.frame.value).value);
      }
    }
  }

  /** As many numbers as announced, and not the ones wanted. */
  ghost predicate WrongNumbers(heard: set<nat>, n: nat) {
    n <= |heard| && !(Below(n) <= heard)
  }

  lemma StatusByKeys(asm: Assembly, n: nat)
    requires asm.nFrags == Some(n)
    ensures Status(asm).MissingKey? <==> WrongNumbers(asm.parts.Keys, n)
  {
    assert |asm.parts| == |asm.parts.Keys|;
  }

  /** Turn `i` leaves a listening call listening: no deadline counts, and no message is complete by count. */
  ghost predicate GoesOn(script: seq<Turn>, me: Option<int>, i: nat)
    requires i < |script|
  {
    var turn := script[i];
    if turn.frame.None? then !turn.late
    else if !Wanted(turn.frame.value, me) then true
    else !turn.late && |Heard(script[..i + 1], me)| < Parse(turn.frame.value).value.nFrags
  }

  /** No deadline had passed after silence or a wanted frame, and no wanted frame had completed its count. */
  ghost predicate StillListening(script: seq<Turn>, me: Option<int>) {
    forall i | 0 <= i < |script| :: GoesOn(script, me, i)
  }

  lemma StillListeningFront(script: seq<Turn>, me: Option<int>, n: nat)
    requires |script| == n + 1
    ensures StillListening(script, me) <==> StillListening(script[..n], me) && GoesOn(script, me, n)
  {
    forall i | 0 <= i < n
      ensures GoesOn(script[..n], me, i) <==> GoesOn(script, me, i)
    {
      assert script[..n][..i + 1] == script[..i + 1];
    }
  }

  lemma NextTurn(script: seq<Turn>, me: Option<int>, n: nat)
    requires |script| == n + 1 && AfterArrivals(script[..n], me).state == Listening
    ensures AfterArrivals(script, me).state == Listening <==> GoesOn(script, me, n)
  {
    assert script[..n + 1] == script;
    HeardIsHeld(script, me);
    var turn := script[n];
    if turn.frame.Some? && Wanted(turn.frame.value, me) {
      CountByKeys(AfterArrivals(script, me).asm, Parse(turn.frame.value).value.nFrags);
    }
  }

  lemma CountByKeys(asm: Assembly, n: nat)
    requires asm.nFrags == Some(n)
    ensures Status(asm) == Incomplete <==> |asm.parts.Keys| < n
  {
    assert |asm.parts| == |asm.parts.Keys|;
  }

  /** What the frames say is what the call does. */
  lemma {:induction false} ListensIff(script: seq<Turn>, me: Option<int>)
    ensures AfterArrivals(script, me).state == Listening <==> StillListening(script, me)
    decreases |script|
  {
    if script != [] {
      var n := |script| - 1;
      ListensIff(script[..n], me);
      StillListeningFront(script, me, n);
      if AfterArrivals(script[..n], me).state == Listening {
        NextTurn(script, me, n);
      }
    }
  }

  /** Turn `j` brings a wanted frame that completes a set of wrong numbers, before anything ended the call. */
  ghost predicate RaisesAt(script: seq<Turn>, me: Option<int>, j: nat)
    requires j < |script|
  {
    && StillListening(script[..j], me)
    && script[j].frame.Some? && Wanted(script[j].frame.value, me)
    && WrongNumbers(Heard(script[..j + 1], me), Parse(script[j].frame.value).value.nFrags)
  }

  lemma RaisesNow(script: seq<Turn>, me: Option<int>, j: nat)
    requires j < |script| && StillListening(script[..j], me)
    ensures AfterArrivals(script[..j + 1], me).state == Raised <==> RaisesAt(script, me, j)
  {
    ListensIff(script[..j], me);
    assert script[..j + 1][..j] == script[..j];
    HeardIsHeld(script[..j + 1], me);
    var turn := script[j];
    if turn.frame.Some? && Wanted(turn.frame.value, me) {
      StatusByKeys(AfterArrivals(script[..j + 1], me).asm, Parse(turn.frame.value).value.nFrags);
    }
  }

  lemma RaisesAtInFront(script: seq<Turn>, me: Option<int>, n: nat, j: nat)
    requires j < n <= |script|
    ensures RaisesAt(script[..n], me, j) <==> RaisesAt(script, me, j)
  {
    assert script[..n][..j] == script[..j] && script[..n][..j + 1] == script[..j + 1];
  }

  lemma RaisesOneLater(script: seq<Turn>, me: Option<int>, n: nat)
    requires |script| == n + 1
    ensures (exists j | 0 <= j <= n :: RaisesAt(script, me, j))
       <==> (exists j | 0 <= j < n :: RaisesAt(script[..n], me, j)) || RaisesAt(script, me, n)
  {
    forall j | 0 <= j < n
      ensures RaisesAt(script, me, j) <==> RaisesAt(script[..n], me, j)
    {
      RaisesAtInFront(script, me, n, j);
    }
  }

  /**
   * A call raises exactly when, before anything ended it, a wanted frame announces no more fragments than numbers have
   * been heard, and some number below its count is not among them.
   */
  lemma {:induction false} RaisedIff(script: seq<Turn>, me: Option<int>)
    ensures AfterArrivals(script, me).state == Raised <==> exists j | 0 <= j < |script| :: RaisesAt(script, me, j)
    decreases |script|
  {
    if script != [] {
      var n := |script| - 1;
      assert script[..n + 1] == script;
      RaisedIff(script[..n], me);
      RaisesOneLater(script, me, n);
      ListensIff(script[..n], me);
      if StillListening(script[..n], me) {
        RaisesNow(script, me, n);
      } else {
        ReceiverStaysDone(script, n, me);
      }
    }
  }

  /** How a call ends with a turn that does not let it go on. */
  ghost predicate EndsAs(script: seq<Turn>, me: Option<int>, j: nat, state: Listener)
    requires j < |script|
  {
    var turn := script[j];
    if turn.frame.None? || !Wanted(turn.frame.value, me) then state == TimedOut
    else
      var n, heard := Parse(turn.frame.value).value.nFrags, Heard(script[..j + 1], me);
      if |heard| < n then state == TimedOut else if WrongNumbers(heard, n) then state == Raised else state.Returned?
  }

  lemma StatusComplete(asm: Assembly, n: nat)
    requires asm.nFrags == Some(n)
    ensures Status(asm).Complete? <==> n <= |asm.parts.Keys| && !WrongNumbers(asm.parts.Keys, n)
  {
    StatusByKeys(asm, n);
    CountByKeys(asm, n);
  }

  /**
   * A call ends with the first turn that does not let it go on: with silence after the deadline it times out, and so it
   * does with a wanted frame after the deadline while numbers are missing; when as many numbers have been heard as the
   * frame announces, it raises if some are wrong and returns otherwise.
   */
  lemma EndsWithFirst(script: seq<Turn>, me: Option<int>, j: nat)
    requires j < |script| && StillListening(script[..j], me) && !GoesOn(script, me, j)
    ensures EndsAs(script, me, j, AfterArrivals(script, me).state)
  {
    ListensIff(script[..j], me);
    var upTo, turn := script[..j + 1], script[j];
    assert upTo[..j] == script[..j] && upTo[j] == turn;
    HeardIsHeld(upTo, me);
    var asm := AfterArrivals(upTo, me).asm;
    if turn.frame.Some? && Wanted(turn.frame.value, me) {
      var n := Parse(turn.frame.value).value.nFrags;
      StatusByKeys(asm, n);
      CountByKeys(asm, n);
      StatusComplete(asm, n);
    }
    ReceiverStaysDone(script, j + 1, me);
  }

  lemma OneWrongNumber(idx: nat, n: nat)
    ensures WrongNumbers({idx}, n) <==> n == 1 && idx > 0
  {
    assert n > 0 ==> 0 in Below(n);
  }

  /** The first wanted frame raises exactly when it says that it is the only one, and not number 0. */
  lemma FirstFrameRaisesIff(b: Bytes, late: bool, me: Option<int>)
    requires Wanted(b, me)
    ensures AfterArrivals([Turn(Some(b), late)], me).state == Raised
       <==> Parse(b).value.nFrags == 1 && Parse(b).value.idx > 0
  {
    var script := [Turn(Some(b), late)];
    assert script[..0] == [] && script[..1] == script;
    assert Heard(script, me) == {Parse(b).value.idx};
    RaisesNow(script, me, 0);
    OneWrongNumber(Parse(b).value.idx, Parse(b).value.nFrags);
  }

  // ---- calls that hear only this message ----

  /** Calls may be abandoned and deadlines may pass, but no other message reaches the receiver. */
  predicate OnlyThis(L: Link, moves: seq<Move>) {
    forall t | 0 <= t < |moves| && moves[t].Arrival? ::
      moves[t].turn.frame.Some? && Wanted(moves[t].turn.frame.value, L.me) ==> OwnData(L, moves[t].turn.frame.value)
  }

  /** However its fragments are lost, repeated and reordered, a message alone never makes a call raise. */
  lemma {:induction false} NeverRaisedAlone(L: Link, moves: seq<Move>)
    requires L.Usable() && AllPossible(L, moves) && OnlyThis(L, moves)
    ensures Reached(L, moves).receiver.state != Raised
  {
    if moves != [] {
      var n := |moves| - 1;
      var y, move := Reached(L, moves[..n]), moves[n];
      NeverRaisedAlone(L, moves[..n]);
      RunKeepsInv(L, moves[..n]);
      if move.Arrival? && y.receiver.state == Listening && move.turn.frame.Some? && OwnData(L, move.turn.frame.value) {
        OwnArrivalKeepsAsm(L, y.receiver.asm, y.air, move.turn.frame.value);
      }
    }
  }
}
