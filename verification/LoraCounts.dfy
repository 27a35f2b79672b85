/** What the LoRa sender's counters say about the turns it was given. */
module LoraCounts {
  import opened Options
  import opened LoraArq

  /** The turn brings the acknowledgement of the fragment the sender waits for. */
  predicate Answers(s: Sender, turn: Turn, msgId: int, src: int) {
    s.outcome == Waiting && turn.frame.Some? && AckMatches(turn.frame.value, msgId, s.index, Some(src))
  }

  /** The deadline passes while the sender waits, and this turn does not bring the acknowledgement. */
  predicate Lapses(s: Sender, turn: Turn, msgId: int, src: int) {
    s.outcome == Waiting && turn.late && !Answers(s, turn, msgId, src)
  }

  /** How many of the deadlines passed, all of them or those for fragment `i` alone, and how many answers came. */
  datatype Tally = Tally(lapses: nat, ofFragment: nat, answers: nat)

  function Tallied(script: seq<Turn>, msgId: int, src: int, n: nat, maxAttempts: nat, i: nat): Tally {
    if script == [] then Tally(0, 0, 0)
    else
      var front, turn := script[..|script| - 1], script[|script| - 1];
      var t, s := Tallied(front, msgId, src, n, maxAttempts, i), AfterTurns(front, msgId, src, n, maxAttempts);
      if Answers(s, turn, msgId, src) then t.(answers := t.answers + 1)
      else if Lapses(s, turn, msgId, src) then
        Tally(t.lapses + 1, t.ofFragment + if s.index == i then 1 else 0, t.answers)
      else t
  }

  lemma {:induction false} AfterTurnsInv(script: seq<Turn>, msgId: int, src: int, n: nat, maxAttempts: nat)
    requires n > 0
    ensures SenderInv(AfterTurns(script, msgId, src, n, maxAttempts), n, maxAttempts)
  {
    if script != [] {
      var front, turn := script[..|script| - 1], script[|script| - 1];
      AfterTurnsInv(front, msgId, src, n, maxAttempts);
      SenderKeepsInv(AfterTurns(front, msgId, src, n, maxAttempts), turn, msgId, src, n, maxAttempts);
    }
  }

  ghost predicate Matches(s: Sender, t: Tally, i: nat) {
    && s.retx == t.lapses && s.index == t.answers
    && (s.index == i ==> s.attempt == t.ofFragment)
    && (s.index < i ==> t.ofFragment == 0)
  }

  /**
   * Retransmissions are the deadlines that passed without the awaited acknowledgement, and each fragment done with was
   * acknowledged while it was waited for. The message is lost exactly when the deadline has passed as often as
   * transmissions are allowed for the one fragment it stands at, and delivered exactly when all are acknowledged.
   */
  lemma {:induction false} DeadlinesAreCounted(script: seq<Turn>, msgId: int, src: int, n: nat, maxAttempts: nat,
                                               i: nat)
    requires n > 0
    ensures var s := AfterTurns(script, msgId, src, n, maxAttempts);
            var t := Tallied(script, msgId, src, n, maxAttempts, i);
            && Matches(s, t, i)
            && s.sends == t.lapses + t.answers + (if s.outcome == Waiting then 1 else 0)
            && (s.outcome == Delivered <==> t.answers == n)
            && (s.index == i < n ==> (s.outcome == Lost <==> t.ofFragment == maxAttempts))
  {
    AfterTurnsInv(script, msgId, src, n, maxAttempts);
    if script != [] {
      DeadlinesAreCounted(script[..|script| - 1], msgId, src, n, maxAttempts, i);
    }
  }
}
