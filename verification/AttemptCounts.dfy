/** What the source's counters and records of a stop-and-wait run say about the turns it was given. */
module AttemptCounts {
  import opened StopAndWait

  /** The turn brings the acknowledgement the source waits for. */
  predicate Answers(s: Source, tick: Tick) {
    !s.finished && tick.event == Ack(s.index)
  }

  /** The turn ends the attempt otherwise: the clock has run out, or the source is told to stop. */
  predicate Lapses(s: Source, tick: Tick) {
    !s.finished && tick.event != Ack(s.index) && (tick.event == Deadline || tick.stop)
  }

  /** How often an attempt at chunk `c` has ended without its acknowledgement. */
  function LapsesOf(script: seq<Tick>, total: nat, maxAttempts: nat, c: nat): nat {
    if script == [] then 0
    else
      var n := |script| - 1;
      var s := After(script[..n], total, maxAttempts);
      LapsesOf(script[..n], total, maxAttempts, c) + if Lapses(s, script[n]) && s.index == c then 1 else 0
  }

  /** How often an attempt at any chunk has ended without its acknowledgement. */
  function AllLapses(script: seq<Tick>, total: nat, maxAttempts: nat): nat {
    if script == [] then 0
    else
      var n := |script| - 1;
      var s := After(script[..n], total, maxAttempts);
      AllLapses(script[..n], total, maxAttempts) + if Lapses(s, script[n]) then 1 else 0
  }

  /** Some turn brings the acknowledgement of chunk `c` while the source waits for it. */
  function Answered(script: seq<Tick>, total: nat, maxAttempts: nat, c: nat): bool {
    if script == [] then false
    else
      var n := |script| - 1;
      var s := After(script[..n], total, maxAttempts);
      Answered(script[..n], total, maxAttempts, c) || (Answers(s, script[n]) && s.index == c)
  }

  lemma {:induction false} AfterKeepsInv(script: seq<Tick>, total: nat, maxAttempts: nat)
    ensures SourceInv(After(script, total, maxAttempts), total, maxAttempts)
  {
    if script != [] {
      var n := |script| - 1;
      AfterKeepsInv(script[..n], total, maxAttempts);
      TickKeepsInv(After(script[..n], total, maxAttempts), script[n], total, maxAttempts);
    }
  }

  /** What is on record for chunk `c`, given how many of its attempts lapsed and whether it was answered. */
  ghost predicate Recorded(s: Source, c: nat, lapses: nat, answered: bool)
    requires |s.okPer| == |s.triesPer| == s.index
  {
    if c < s.index then s.okPer[c] == answered && s.triesPer[c] == lapses + if answered then 1 else 0
    else !answered && (if c == s.index && !s.finished then s.tries == lapses + 1 else lapses == 0)
  }

  lemma TickRecords(s: Source, tick: Tick, total: nat, maxAttempts: nat, c: nat, lapses: nat, answered: bool)
    requires SourceInv(s, total, maxAttempts) && Recorded(s, c, lapses, answered)
    ensures var t := OnTick(s, tick, total, maxAttempts);
            && |t.okPer| == |t.triesPer| == t.index
            && Recorded(t, c, lapses + (if Lapses(s, tick) && s.index == c then 1 else 0),
                        answered || (Answers(s, tick) && s.index == c))
  {
  }

  /**
   * A chunk is on record as acknowledged exactly when its acknowledgement came while it was waited for, and its
   * transmissions are the attempts that lapsed and the one that was answered.
   */
  lemma {:induction false} ChunkIsRecorded(script: seq<Tick>, total: nat, maxAttempts: nat, c: nat)
    ensures var s := After(script, total, maxAttempts);
            && |s.okPer| == |s.triesPer| == s.index
            && Recorded(s, c, LapsesOf(script, total, maxAttempts, c), Answered(script, total, maxAttempts, c))
  {
    if script != [] {
      var n := |script| - 1;
      var before := script[..n];
      ChunkIsRecorded(before, total, maxAttempts, c);
      AfterKeepsInv(before, total, maxAttempts);
      TickRecords(After(before, total, maxAttempts), script[n], total, maxAttempts, c,
                  LapsesOf(before, total, maxAttempts, c), Answered(before, total, maxAttempts, c));
    }
  }

  /** The chunk used up all attempts it was allowed without an acknowledgement. */
  predicate GivenUp(tries: nat, ok: bool, maxAttempts: nat) {
    !ok && maxAttempts > 0 && tries == maxAttempts
  }

  function CountGivenUp(tries: seq<nat>, oks: seq<bool>, maxAttempts: nat): nat
    requires |tries| == |oks|
  {
    if oks == [] then 0
    else
      var n := |oks| - 1;
      CountGivenUp(tries[..n], oks[..n], maxAttempts) + if GivenUp(tries[n], oks[n], maxAttempts) then 1 else 0
  }

  lemma GivenUpSnoc(tries: seq<nat>, oks: seq<bool>, maxAttempts: nat, t: nat, ok: bool)
    requires |tries| == |oks|
    ensures CountGivenUp(tries + [t], oks + [ok], maxAttempts)
         == CountGivenUp(tries, oks, maxAttempts) + if GivenUp(t, ok, maxAttempts) then 1 else 0
  {
    assert (tries + [t])[..|tries|] == tries && (oks + [ok])[..|oks|] == oks;
  }

  /** Retransmissions are the attempts that lapsed, and failures the chunks given up on. */
  ghost predicate Counted(s: Source, lapses: nat, maxAttempts: nat)
    requires |s.okPer| == |s.triesPer| == s.index
  {
    s.retx == lapses && s.failed == CountGivenUp(s.triesPer, s.okPer, maxAttempts)
  }

  /** Every unacknowledged chunk was given up on, except for one that a stop cut short. */
  ghost predicate Excused(tries: seq<nat>, oks: seq<bool>, stopped: bool, maxAttempts: nat)
    requires |tries| == |oks|
  {
    forall c | 0 <= c < |oks| && !oks[c] :: GivenUp(tries[c], oks[c], maxAttempts) || (stopped && c == |oks| - 1)
  }

  lemma CloseCounts(s: Source, acked: bool, stop: bool, total: nat, maxAttempts: nat, lapses: nat)
    requires |s.okPer| == |s.triesPer| == s.index && Counted(s, lapses, maxAttempts)
    ensures var u := s.(retx := s.retx + (if acked then 0 else 1),
                        failed := s.failed + if GivenUp(s.tries, acked, maxAttempts) then 1 else 0);
            var t := CloseChunk(u, acked, stop, total);
            && |t.okPer| == |t.triesPer| == t.index
            && Counted(t, lapses + (if acked then 0 else 1), maxAttempts)
  {
    GivenUpSnoc(s.triesPer, s.okPer, maxAttempts, s.tries, acked);
  }

  lemma TickCounts(s: Source, tick: Tick, total: nat, maxAttempts: nat, lapses: nat)
    requires SourceInv(s, total, maxAttempts) && Counted(s, lapses, maxAttempts)
    ensures var t := OnTick(s, tick, total, maxAttempts);
            && |t.okPer| == |t.triesPer| == t.index
            && Counted(t, lapses + (if Lapses(s, tick) then 1 else 0), maxAttempts)
  {
    if Answers(s, tick) {
      CloseCounts(s, true, tick.stop, total, maxAttempts, lapses);
    } else if Lapses(s, tick) {
      CloseCounts(s, false, tick.stop, total, maxAttempts, lapses);
    }
  }

  lemma ExcusedSnoc(tries: seq<nat>, oks: seq<bool>, maxAttempts: nat, t: nat, ok: bool, stop: bool)
    requires |tries| == |oks| && Excused(tries, oks, false, maxAttempts)
    requires ok || stop || GivenUp(t, ok, maxAttempts)
    ensures Excused(tries + [t], oks + [ok], stop, maxAttempts)
  {
  }

  lemma TickExcuses(s: Source, tick: Tick, total: nat, maxAttempts: nat)
    requires SourceInv(s, total, maxAttempts) && Excused(s.triesPer, s.okPer, s.stopped, maxAttempts)
    ensures var t := OnTick(s, tick, total, maxAttempts);
            |t.okPer| == |t.triesPer| && Excused(t.triesPer, t.okPer, t.stopped, maxAttempts)
  {
    if Answers(s, tick) {
      ExcusedSnoc(s.triesPer, s.okPer, maxAttempts, s.tries, true, tick.stop);
    } else if Lapses(s, tick) && (tick.stop || GivenUp(s.tries, false, maxAttempts)) {
      ExcusedSnoc(s.triesPer, s.okPer, maxAttempts, s.tries, false, tick.stop);
    }
  }

  /**
   * Retransmissions count the attempts that ended by the clock or by a stop, failures the chunks that used up all their
   * attempts, and a chunk that did not is left unacknowledged only by a stop, and only as the last one.
   */
  lemma {:induction false} LapsesAreCounted(script: seq<Tick>, total: nat, maxAttempts: nat)
    ensures var s := After(script, total, maxAttempts);
            && |s.okPer| == |s.triesPer| == s.index
            && s.retx == AllLapses(script, total, maxAttempts)
            && s.failed == CountGivenUp(s.triesPer, s.okPer, maxAttempts)
            && Excused(s.triesPer, s.okPer, s.stopped, maxAttempts)
  {
    if script != [] {
      var n := |script| - 1;
      var before := script[..n];
      LapsesAreCounted(before, total, maxAttempts);
      AfterKeepsInv(before, total, maxAttempts);
      var s := After(before, total, maxAttempts);
      TickCounts(s, script[n], total, maxAttempts, AllLapses(before, total, maxAttempts));
      TickExcuses(s, script[n], total, maxAttempts);
    }
  }

  /** The source has stopped exactly when a turn told it to before it was done. */
  lemma {:induction false} StopsIff(script: seq<Tick>, total: nat, maxAttempts: nat)
    ensures After(script, total, maxAttempts).stopped
       <==> exists i | 0 <= i < |script| :: script[i].stop && !After(script[..i], total, maxAttempts).finished
  {
    if script != [] {
      var n := |script| - 1;
      var before := script[..n];
      StopsIff(before, total, maxAttempts);
      AfterKeepsInv(before, total, maxAttempts);
      assert forall i | 0 <= i < n :: before[..i] == script[..i];
    }
  }

  lemma {:induction false} QuietHasNoLapses(script: seq<Tick>, total: nat, maxAttempts: nat)
    requires forall i | 0 <= i < |script| :: script[i].event != Deadline && !script[i].stop
    ensures AllLapses(script, total, maxAttempts) == 0 && !After(script, total, maxAttempts).stopped
  {
    if script != [] {
      var n := |script| - 1;
      QuietHasNoLapses(script[..n], total, maxAttempts);
      AfterKeepsInv(script[..n], total, maxAttempts);
    }
  }

  lemma {:induction false} PartOfAllLapses(script: seq<Tick>, total: nat, maxAttempts: nat, c: nat)
    ensures LapsesOf(script, total, maxAttempts, c) <= AllLapses(script, total, maxAttempts)
  {
    if script != [] {
      PartOfAllLapses(script[..|script| - 1], total, maxAttempts, c);
    }
  }

  /**
   * Without a deadline or a stop nothing is retransmitted or given up on, however many stale or repeated
   * acknowledgements come in: every finished chunk took one transmission and was acknowledged.
   */
  lemma QuietRunIsPerfect(script: seq<Tick>, total: nat, maxAttempts: nat, c: nat)
    requires forall i | 0 <= i < |script| :: script[i].event != Deadline && !script[i].stop
    ensures var s := After(script, total, maxAttempts);
            && s.retx == s.failed == 0
            && |s.okPer| == |s.triesPer| == s.index
            && (c < s.index ==> s.okPer[c] && s.triesPer[c] == 1)
  {
    QuietHasNoLapses(script, total, maxAttempts);
    LapsesAreCounted(script, total, maxAttempts);
    ChunkIsRecorded(script, total, maxAttempts, c);
    PartOfAllLapses(script, total, maxAttempts, c);
    AfterKeepsInv(script, total, maxAttempts);
  }
}
