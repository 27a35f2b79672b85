/**
 The star over TCP: one hub, and clients that each take part in a number of rounds of their own
 and then say goodbye. Every interleaving of the clients and the hub is a run.
 */
module TcpStar {
  import opened Options
  import opened Counting

  // Where a client stands. `x` is its frame: a payload, or None for the goodbye.
  datatype Phase<P> =
    | Idle                       // between rounds
    | Dialled(x: Option<P>)      // connected, frame not written yet
    | Written(x: Option<P>)      // frame on the wire, the hub has not read it
    | Awaiting                   // the hub has the payload, no reply yet
    | Answered(y: P)             // the reply is on the wire
    | Gone                       // the goodbye was read

  // `quota` is the number of rounds after which the client's produce() returns nothing.
  datatype Client<P> = Client(quota: nat, sent: seq<P>, got: seq<P>, phase: Phase<P>)

  datatype Entry<P> = Entry(src: nat, buf: P)

  // What the hub consumed and answered in one round.
  datatype Round<P> = Round(payloads: seq<Entry<P>>, reply: P)

  datatype HubPhase = Collecting | Reading(k: nat) | Replying(ids: seq<nat>) | Stopped

  datatype Star<P> = Star(
    clients: seq<Client<P>>,
    backlog: seq<nat>,           // connections not yet accepted, oldest first
    live: set<nat>,              // clients that have not said goodbye
    waiting: seq<Entry<P>>,      // this round's payloads and open connections
    hub: HubPhase,
    log: seq<Round<P>>)          // the rounds so far

  function Initial<P>(quotas: seq<nat>): Star<P> {
    Star(seq(|quotas|, k requires 0 <= k < |quotas| => Client(quotas[k], [], [], Idle)),
         [], Below(|quotas|), [], Collecting, [])
  }

  function Ids<P>(entries: seq<Entry<P>>): seq<nat> {
    seq(|entries|, n requires 0 <= n < |entries| => entries[n].src)
  }

  function With<P>(s: Star<P>, k: nat, c: Client<P>): Star<P>
    requires k < |s.clients|
  {
    s.(clients := s.clients[k := c])
  }

  /** The hub's loop condition: some live client has not been heard this round. */
  predicate StillCollecting<P>(s: Star<P>) {
    Unheard(s.live, s.waiting)
  }

  predicate Unheard<P>(live: set<nat>, waiting: seq<Entry<P>>) {
    live != {} && |waiting| < |live|
  }

  /** What reading one frame does to the live clients: a goodbye removes its sender. */
  function LiveAfter<P>(live: set<nat>, k: nat, x: Option<P>): set<nat> {
    if x.None? then live - {k} else live
  }

  /** What reading one frame does to this round's payloads. */
  function WaitingAfter<P>(waiting: seq<Entry<P>>, k: nat, x: Option<P>): seq<Entry<P>> {
    if x.None? then waiting else waiting + [Entry(k, x.value)]
  }

  // ---- client steps ----

  /** `produce()` and connect; with the quota used up, connect to say goodbye. */
  ghost predicate DialStep<P>(s: Star<P>, s': Star<P>, k: nat, x: Option<P>) {
    && k < |s.clients|
    && var c := s.clients[k];
       && c.phase == Idle && (x.Some? <==> |c.sent| < c.quota)
       && var sent := if x.Some? then c.sent + [x.value] else c.sent;
          s' == With(s, k, c.(sent := sent, phase := Dialled(x))).(backlog := s.backlog + [k])
  }

  ghost predicate WriteStep<P>(s: Star<P>, s': Star<P>, k: nat) {
    && k < |s.clients|
    && var c := s.clients[k];
       && c.phase.Dialled? && s' == With(s, k, c.(phase := Written(c.phase.x)))
  }

  ghost predicate TakeReplyStep<P>(s: Star<P>, s': Star<P>, k: nat) {
    && k < |s.clients|
    && var c := s.clients[k];
       && c.phase.Answered? && s' == With(s, k, c.(got := c.got + [c.phase.y], phase := Idle))
  }

  // ---- hub steps ----

  ghost predicate AcceptStep<P>(s: Star<P>, s': Star<P>) {
    && s.hub == Collecting && StillCollecting(s) && s.backlog != []
    && s' == s.(hub := Reading(s.backlog[0]), backlog := s.backlog[1..])
  }

  ghost predicate ReadStep<P>(s: Star<P>, s': Star<P>) {
    && s.hub.Reading? && s.hub.k < |s.clients|
    && var k := s.hub.k;
       var c := s.clients[k];
       && c.phase.Written?
       && var x := c.phase.x;
          s' == With(s, k, c.(phase := if x.None? then Gone else Awaiting))
                .(live := LiveAfter(s.live, k, x), waiting := WaitingAfter(s.waiting, k, x), hub := Collecting)
  }

  /** The round is full: the application mixes once and produces the reply for all. */
  ghost predicate ProduceStep<P>(s: Star<P>, s': Star<P>, y: P) {
    && s.hub == Collecting && !StillCollecting(s) && s.waiting != []
    && s' == s.(log := s.log + [Round(s.waiting, y)], waiting := [], hub := Replying(Ids(s.waiting)))
  }

  ghost predicate StopStep<P>(s: Star<P>, s': Star<P>) {
    && s.hub == Collecting && !StillCollecting(s) && s.waiting == []
    && s' == s.(hub := Stopped)
  }

  ghost predicate ReplyStep<P>(s: Star<P>, s': Star<P>) {
    && s.hub.Replying? && s.log != []
    && if s.hub.ids == [] then s' == s.(hub := Collecting)
       else
         var k := s.hub.ids[0];
         && k < |s.clients|
         && s' == With(s, k, s.clients[k].(phase := Answered(s.log[|s.log| - 1].reply)))
                  .(hub := Replying(s.hub.ids[1..]))
  }

  ghost predicate ClientStep<P(!new)>(s: Star<P>, s': Star<P>, k: nat) {
    (exists x :: DialStep(s, s', k, x)) || WriteStep(s, s', k) || TakeReplyStep(s, s', k)
  }

  ghost predicate HubStep<P(!new)>(s: Star<P>, s': Star<P>) {
    AcceptStep(s, s') || ReadStep(s, s') || (exists y :: ProduceStep(s, s', y)) || StopStep(s, s') || ReplyStep(s, s')
  }

  ghost predicate Step<P(!new)>(s: Star<P>, s': Star<P>) {
    HubStep(s, s') || exists k :: ClientStep(s, s', k)
  }

  ghost predicate IsRun<P(!new)>(quotas: seq<nat>, run: seq<Star<P>>) {
    && |run| > 0 && run[0] == Initial(quotas)
    && forall t | 0 < t < |run| :: Step(run[t - 1], run[t])
  }

  // ---- the invariant ----

  /** The client has a connection that the hub has not finished reading. */
  predicate Knocking<P>(c: Client<P>) {
    c.phase.Dialled? || c.phase.Written?
  }

  ghost predicate FrameInv<P>(c: Client<P>, x: Option<P>, R: nat) {
    && |c.got| == R
    && if x.Some? then |c.sent| == R + 1 <= c.quota && x.value == c.sent[R] else |c.sent| == R == c.quota
  }

  /** What a live client looks like after `R` rounds of the hub. */
  ghost predicate LiveInv<P>(s: Star<P>, c: Client<P>, k: nat) {
    var R := |s.log|;
    match c.phase
    case Idle => |c.sent| == |c.got| == R <= c.quota
    case Dialled(x) => FrameInv(c, x, R)
    case Written(x) => FrameInv(c, x, R)
    case Answered(y) => 0 < R == |c.sent| == |c.got| + 1 <= c.quota && y == s.log[R - 1].reply
    case Awaiting =>
      if s.hub.Replying? then k in s.hub.ids && 0 < R == |c.sent| == |c.got| + 1 <= c.quota
      else |c.got| == R && |c.sent| == R + 1 <= c.quota && Entry(k, c.sent[R]) in s.waiting
    case Gone => false
  }

  ghost predicate ClientInv<P>(s: Star<P>, c: Client<P>, k: nat) {
    && |c.got| <= |s.log|
    && (forall r | 0 <= r < |c.got| :: c.got[r] == s.log[r].reply)
    && (Knocking(c) <==> k in s.backlog || s.hub == Reading(k))
    && (c.phase != Awaiting ==> k !in Ids(s.waiting) && !(s.hub.Replying? && k in s.hub.ids))
    && if k in s.live then LiveInv(s, c, k)
       else c.phase == Gone && |c.sent| == |c.got| == c.quota
  }

  ghost predicate ClientsInv<P>(s: Star<P>) {
    forall k | 0 <= k < |s.clients| :: ClientInv(s, s.clients[k], k)
  }

  ghost predicate HubInv<P>(s: Star<P>) {
    && Distinct(s.backlog) && Distinct(Ids(s.waiting))
    && (forall k | k in s.live :: k < |s.clients|)
    && (forall n | 0 <= n < |s.backlog| :: s.backlog[n] < |s.clients|)
    && (forall n | 0 <= n < |s.waiting| :: s.waiting[n].src in s.live)
    && match s.hub
       case Collecting => true
       case Reading(k) => k < |s.clients| && k !in s.backlog
       case Replying(ids) =>
         s.waiting == [] && s.log != [] && Distinct(ids) && forall n | 0 <= n < |ids| :: ids[n] in s.live
       case Stopped => s.live == {} && s.waiting == []
  }

  /** Round `r` consumed exactly one payload from each client with more than `r` rounds, namely its `r`-th. */
  ghost predicate RoundInv<P>(clients: seq<Client<P>>, round: Round<P>, r: nat) {
    && round.payloads != [] && Distinct(Ids(round.payloads))
    && (forall n | 0 <= n < |round.payloads| ::
          var e := round.payloads[n];
          e.src < |clients| && r < |clients[e.src].sent| && e.buf == clients[e.src].sent[r] && r < clients[e.src].quota)
    && (forall k | 0 <= k < |clients| && r < clients[k].quota :: k in Ids(round.payloads))
  }

  ghost predicate LogInv<P>(s: Star<P>) {
    forall r | 0 <= r < |s.log| :: RoundInv(s.clients, s.log[r], r)
  }

  ghost predicate Inv<P>(s: Star<P>) {
    HubInv(s) && ClientsInv(s) && LogInv(s)
  }

  lemma InitialInv<P>(quotas: seq<nat>, s: Star<P>)
    requires s == Initial(quotas)
    ensures Inv(s)
  {
    forall k | 0 <= k < |s.clients|
      ensures ClientInv(s, s.clients[k], k)
    {
    }
  }

  lemma LogGrows<P>(s: Star<P>, s': Star<P>)
    requires LogInv(s) && s'.log == s.log && |s'.clients| == |s.clients|
    requires forall k | 0 <= k < |s.clients| ::
               s.clients[k].sent <= s'.clients[k].sent && s'.clients[k].quota == s.clients[k].quota
    ensures LogInv(s')
  {
    forall r | 0 <= r < |s.log|
      ensures RoundInv(s'.clients, s'.log[r], r)
    {
      assert RoundInv(s.clients, s.log[r], r);
    }
  }

  /** What the invariant of client `k` depends on, apart from the client itself. */
  ghost predicate SameView<P>(s: Star<P>, s': Star<P>, k: nat) {
    && s'.log == s.log
    && s.waiting <= s'.waiting && (k in Ids(s.waiting) <==> k in Ids(s'.waiting))
    && (k in s.live <==> k in s'.live)
    && (k in s.backlog || s.hub == Reading(k) <==> k in s'.backlog || s'.hub == Reading(k))
    && (s.hub.Replying? <==> s'.hub.Replying?)
    && (s.hub.Replying? ==> (k in s.hub.ids <==> k in s'.hub.ids))
  }

  lemma SameViewKeeps<P>(s: Star<P>, s': Star<P>, c: Client<P>, k: nat)
    requires ClientInv(s, c, k) && SameView(s, s', k)
    ensures ClientInv(s', c, k)
  {
  }

  /** Only client `k` changed, and nobody else's view did. */
  lemma OneClient<P>(s: Star<P>, s': Star<P>, k: nat)
    requires ClientsInv(s) && k < |s.clients| && |s'.clients| == |s.clients|
    requires s'.clients == s.clients[k := s'.clients[k]] && ClientInv(s', s'.clients[k], k)
    requires forall j | 0 <= j < |s.clients| && j != k :: SameView(s, s', j)
    ensures ClientsInv(s')
  {
    forall j | 0 <= j < |s'.clients|
      ensures ClientInv(s', s'.clients[j], j)
    {
      if j != k {
        assert ClientInv(s, s.clients[j], j);
        SameViewKeeps(s, s', s.clients[j], j);
      }
    }
  }

  lemma DialKeepsInv<P>(s: Star<P>, s': Star<P>, k: nat, x: Option<P>)
    requires Inv(s) && DialStep(s, s', k, x)
    ensures Inv(s')
  {
    assert ClientInv(s, s.clients[k], k);
    assert ClientInv(s', s'.clients[k], k);
    OneClient(s, s', k);
    LogGrows(s, s');
  }

  lemma WriteKeepsInv<P>(s: Star<P>, s': Star<P>, k: nat)
    requires Inv(s) && WriteStep(s, s', k)
    ensures Inv(s')
  {
    assert ClientInv(s, s.clients[k], k);
    OneClient(s, s', k);
    LogGrows(s, s');
  }

  lemma TakeReplyKeepsInv<P>(s: Star<P>, s': Star<P>, k: nat)
    requires Inv(s) && TakeReplyStep(s, s', k)
    ensures Inv(s')
  {
    assert ClientInv(s, s.clients[k], k);
    OneClient(s, s', k);
    LogGrows(s, s');
  }

  lemma AcceptKeepsInv<P>(s: Star<P>, s': Star<P>)
    requires Inv(s) && AcceptStep(s, s')
    ensures Inv(s')
  {
    var k := s.backlog[0];
    assert forall j: nat :: j in s.backlog <==> j == k || j in s'.backlog;
    forall j | 0 <= j < |s.clients|
      ensures ClientInv(s', s'.clients[j], j)
    {
      assert ClientInv(s, s.clients[j], j);
      SameViewKeeps(s, s', s.clients[j], j);
    }
  }

  lemma IdsSnoc<P>(entries: seq<Entry<P>>, e: Entry<P>)
    ensures Ids(entries + [e]) == Ids(entries) + [e.src]
  {
  }

  lemma ReadPayloadKeepsInv<P>(s: Star<P>, s': Star<P>, p: P)
    requires Inv(s) && ReadStep(s, s') && s.clients[s.hub.k].phase == Written(Some(p))
    ensures Inv(s')
  {
    var k := s.hub.k;
    assert ClientInv(s, s.clients[k], k);
    IdsSnoc(s.waiting, Entry(k, p));
    assert s'.waiting[|s.waiting|] == Entry(k, p);
    OneClient(s, s', k);
    LogGrows(s, s');
  }

  lemma ReadGoodbyeKeepsInv<P>(s: Star<P>, s': Star<P>)
    requires Inv(s) && ReadStep(s, s') && s.clients[s.hub.k].phase == Written(None)
    ensures Inv(s')
  {
    var k := s.hub.k;
    assert ClientInv(s, s.clients[k], k);
    forall n | 0 <= n < |s.waiting|
      ensures s.waiting[n].src in s'.live
    {
      assert Ids(s.waiting)[n] == s.waiting[n].src;
    }
    OneClient(s, s', k);
    LogGrows(s, s');
  }

  // ---- a full round ----

  /** As many different clients heard as there are live ones: they are the live ones. */
  lemma FullRound<P>(s: Star<P>)
    requires HubInv(s) && !StillCollecting(s)
    ensures forall k: nat :: k in s.live <==> k in Ids(s.waiting)
  {
    var heard := Elements(Ids(s.waiting));
    ElementsCount(Ids(s.waiting));
    assert heard <= s.live;
    if s.live != {} {
      SubsetOfSameSize(heard, s.live);
    }
  }

  lemma NewRound<P>(s: Star<P>, round: Round<P>)
    requires Inv(s) && s.hub == Collecting && !StillCollecting(s) && s.waiting != [] && round.payloads == s.waiting
    ensures RoundInv(s.clients, round, |s.log|)
  {
    var R := |s.log|;
    FullRound(s);
    forall n | 0 <= n < |s.waiting|
      ensures var e := s.waiting[n];
              && e.src < |s.clients| && R < |s.clients[e.src].sent| && e.buf == s.clients[e.src].sent[R]
              && R < s.clients[e.src].quota
    {
      var k := Ids(s.waiting)[n];
      var c := s.clients[k];
      assert k in Ids(s.waiting) && ClientInv(s, c, k);
      var m :| 0 <= m < |s.waiting| && s.waiting[m] == Entry(k, c.sent[R]);
      assert Ids(s.waiting)[m] == k;
    }
    forall k | 0 <= k < |s.clients| && R < s.clients[k].quota
      ensures k in Ids(s.waiting)
    {
      assert ClientInv(s, s.clients[k], k);
    }
  }

  lemma ProduceClient<P>(s: Star<P>, s': Star<P>, y: P, k: nat)
    requires ProduceStep(s, s', y) && k < |s.clients| && ClientInv(s, s.clients[k], k)
    requires k in s.live <==> k in Ids(s.waiting)
    ensures ClientInv(s', s.clients[k], k)
  {
    assert Ids(s'.waiting) == [];
  }

  lemma ProduceKeepsClients<P>(s: Star<P>, s': Star<P>, y: P)
    requires HubInv(s) && ClientsInv(s) && ProduceStep(s, s', y)
    ensures ClientsInv(s')
  {
    FullRound(s);
    forall k | 0 <= k < |s.clients|
      ensures ClientInv(s', s'.clients[k], k)
    {
      assert ClientInv(s, s.clients[k], k);
      ProduceClient(s, s', y, k);
    }
  }

  lemma ProduceKeepsHub<P>(s: Star<P>, s': Star<P>, y: P)
    requires HubInv(s) && ProduceStep(s, s', y)
    ensures HubInv(s')
  {
    assert forall n | 0 <= n < |s.waiting| :: Ids(s.waiting)[n] == s.waiting[n].src;
  }

  lemma ProduceKeepsInv<P>(s: Star<P>, s': Star<P>, y: P)
    requires Inv(s) && ProduceStep(s, s', y)
    ensures Inv(s')
  {
    ProduceKeepsClients(s, s', y);
    ProduceKeepsHub(s, s', y);
    NewRound(s, Round(s.waiting, y));
  }

  lemma StopKeepsInv<P>(s: Star<P>, s': Star<P>)
    requires Inv(s) && StopStep(s, s')
    ensures Inv(s')
  {
    FullRound(s);
    forall k | 0 <= k < |s.clients|
      ensures ClientInv(s', s'.clients[k], k)
    {
      assert ClientInv(s, s.clients[k], k);
      SameViewKeeps(s, s', s.clients[k], k);
    }
    assert Ids(s.waiting) == [] && forall k: nat :: k !in s.live;
  }

  lemma RepliedKeepsInv<P>(s: Star<P>, s': Star<P>)
    requires Inv(s) && ReplyStep(s, s') && s.hub.ids == []
    ensures Inv(s')
  {
    forall k | 0 <= k < |s.clients|
      ensures ClientInv(s', s'.clients[k], k)
    {
      assert ClientInv(s, s.clients[k], k);
    }
  }

  lemma ReplyKeepsInv<P>(s: Star<P>, s': Star<P>)
    requires Inv(s) && ReplyStep(s, s') && s.hub.ids != []
    ensures Inv(s')
  {
    var k := s.hub.ids[0];
    assert ClientInv(s, s.clients[k], k);
    assert forall j: nat | j != k :: j in s.hub.ids <==> j in s'.hub.ids;
    OneClient(s, s', k);
    LogGrows(s, s');
  }

  lemma StepKeepsInv<P(!new)>(s: Star<P>, s': Star<P>)
    requires Inv(s) && Step(s, s')
    ensures Inv(s')
  {
    if HubStep(s, s') {
      if AcceptStep(s, s') {
        AcceptKeepsInv(s, s');
      } else if ReadStep(s, s') {
        match s.clients[s.hub.k].phase.x {
          case Some(p) => ReadPayloadKeepsInv(s, s', p);
          case None => ReadGoodbyeKeepsInv(s, s');
        }
      } else if StopStep(s, s') {
        StopKeepsInv(s, s');
      } else if ReplyStep(s, s') {
        if s.hub.ids == [] {
          RepliedKeepsInv(s, s');
        } else {
          ReplyKeepsInv(s, s');
        }
      } else {
        var y :| ProduceStep(s, s', y);
        ProduceKeepsInv(s, s', y);
      }
    } else {
      var k :| ClientStep(s, s', k);
      if WriteStep(s, s', k) {
        WriteKeepsInv(s, s', k);
      } else if TakeReplyStep(s, s', k) {
        TakeReplyKeepsInv(s, s', k);
      } else {
        var x :| DialStep(s, s', k, x);
        DialKeepsInv(s, s', k, x);
      }
    }
  }

  ghost predicate SameQuotas<P>(quotas: seq<nat>, s: Star<P>) {
    |s.clients| == |quotas| && forall k | 0 <= k < |quotas| :: s.clients[k].quota == quotas[k]
  }

  lemma StepKeepsQuotas<P(!new)>(quotas: seq<nat>, s: Star<P>, s': Star<P>)
    requires Step(s, s') && SameQuotas(quotas, s)
    ensures SameQuotas(quotas, s')
  {
    assert HubStep(s, s') ==> |s'.clients| == |s.clients|;
  }

  lemma {:induction false} RunKeepsInv<P(!new)>(quotas: seq<nat>, run: seq<Star<P>>)
    requires IsRun(quotas, run)
    ensures Inv(run[|run| - 1]) && SameQuotas(quotas, run[|run| - 1])
  {
    var t := |run| - 1;
    if t == 0 {
      InitialInv(quotas, run[0]);
    } else {
      RunKeepsInv(quotas, run[..t]);
      StepKeepsInv(run[t - 1], run[t]);
      StepKeepsQuotas(quotas, run[t - 1], run[t]);
    }
  }

  // ---- what every run achieves ----

  /**
   Round `r` of the hub consumes exactly one payload from each client that takes part in more than
   `r` rounds and from no other; it is that client's `r`-th payload, and the `r`-th reply a client
   gets is the one answer the hub produced for that round.
   */
  lemma RoundsAreExact<P(!new)>(quotas: seq<nat>, run: seq<Star<P>>)
    requires IsRun(quotas, run)
    ensures var s := run[|run| - 1];
            && SameQuotas(quotas, s)
            && (forall r | 0 <= r < |s.log| :: RoundInv(s.clients, s.log[r], r))
            && (forall k, r | 0 <= k < |s.clients| && 0 <= r < |s.clients[k].got| ::
                  r < |s.log| && s.clients[k].got[r] == s.log[r].reply)
  {
    RunKeepsInv(quotas, run);
    var s := run[|run| - 1];
    assert forall k | 0 <= k < |s.clients| :: ClientInv(s, s.clients[k], k);
  }

  /** The hub stops exactly when every goodbye is in; by then each client has had all its replies. */
  lemma StoppedMeansComplete<P(!new)>(quotas: seq<nat>, run: seq<Star<P>>)
    requires IsRun(quotas, run) && run[|run| - 1].hub == Stopped
    ensures var s := run[|run| - 1];
            && SameQuotas(quotas, s)
            && (forall k | 0 <= k < |s.clients| ::
                  s.clients[k].phase == Gone && |s.clients[k].got| == s.clients[k].quota <= |s.log|)
            && (s.log != [] ==> exists k :: 0 <= k < |quotas| && quotas[k] == |s.log|)
  {
    RunKeepsInv(quotas, run);
    var s := run[|run| - 1];
    assert forall k | 0 <= k < |s.clients| :: ClientInv(s, s.clients[k], k);
    if s.log != [] {
      var r := |s.log| - 1;
      assert RoundInv(s.clients, s.log[r], r);
      var k := s.log[r].payloads[0].src;
      assert quotas[k] == |s.log|;
    }
  }

  /** Between rounds the hub is about to stop exactly when every client has left. */
  lemma StopsExactlyWhenAllGone<P(!new)>(quotas: seq<nat>, run: seq<Star<P>>)
    requires IsRun(quotas, run) && run[|run| - 1].hub == Collecting
    ensures var s := run[|run| - 1];
            !StillCollecting(s) && s.waiting == [] <==> forall k | 0 <= k < |s.clients| :: s.clients[k].phase == Gone
  {
    RunKeepsInv(quotas, run);
    var s := run[|run| - 1];
    assert forall k | 0 <= k < |s.clients| :: ClientInv(s, s.clients[k], k);
    assert s.waiting != [] ==> s.waiting[0].src in s.live;
    if s.live != {} {
      var k :| k in s.live;
      assert ClientInv(s, s.clients[k], k) && s.clients[k].phase != Gone;
    }
  }

  ghost predicate Complete<P>(s: Star<P>) {
    s.hub == Stopped && forall k | 0 <= k < |s.clients| :: s.clients[k].phase == Gone
  }

  ghost predicate CanStep<P(!new)>(s: Star<P>) {
    exists s' :: Step(s, s')
  }

  lemma ClientCanStep<P(!new)>(s: Star<P>, k: nat, p: P)
    requires k < |s.clients|
    requires var c := s.clients[k];
             (c.phase == Idle && |c.sent| <= c.quota) || c.phase.Dialled? || c.phase.Answered?
    ensures CanStep(s)
  {
    var c := s.clients[k];
    match c.phase {
      case Idle =>
        var x := if |c.sent| < c.quota then Some(p) else None;
        var sent := if x.Some? then c.sent + [x.value] else c.sent;
        var s' := With(s, k, c.(sent := sent, phase := Dialled(x))).(backlog := s.backlog + [k]);
        assert DialStep(s, s', k, x);
        assert ClientStep(s, s', k);
        assert Step(s, s');
      case Dialled(x) =>
        var s' := With(s, k, c.(phase := Written(x)));
        assert ClientStep(s, s', k);
        assert Step(s, s');
      case Answered(y) =>
        var s' := With(s, k, c.(got := c.got + [y], phase := Idle));
        assert ClientStep(s, s', k);
        assert Step(s, s');
    }
  }

  lemma HubCanStep<P(!new)>(s: Star<P>, s': Star<P>)
    requires HubStep(s, s')
    ensures CanStep(s)
  {
    assert Step(s, s');
  }

  /** A client that has not been heard this round, and can do nothing itself, is in the accept queue. */
  lemma SomeoneUnheard<P>(s: Star<P>) returns (k: nat)
    requires Inv(s) && s.hub == Collecting && StillCollecting(s)
    ensures k in s.live && k < |s.clients| && s.clients[k].phase != Awaiting
  {
    var heard := Elements(Ids(s.waiting));
    ElementsCount(Ids(s.waiting));
    if forall j: nat | j in s.live :: j in heard {
      SmallerSubset(s.live, heard);
    }
    k :| k in s.live && k !in heard;
    assert ClientInv(s, s.clients[k], k);
    assert forall m | 0 <= m < |s.waiting| :: Ids(s.waiting)[m] == s.waiting[m].src;
  }

  /** In every reachable state either everybody has left and the hub has stopped, or something can happen. */
  lemma NoDeadlock<P(!new)>(quotas: seq<nat>, run: seq<Star<P>>, p: P)
    requires IsRun(quotas, run)
    ensures Complete(run[|run| - 1]) || CanStep(run[|run| - 1])
  {
    RunKeepsInv(quotas, run);
    var s := run[|run| - 1];
    assert forall k | 0 <= k < |s.clients| :: ClientInv(s, s.clients[k], k);
    match s.hub {
      case Stopped =>
      case Replying(ids) =>
        if ids == [] {
          HubCanStep(s, s.(hub := Collecting));
        } else {
          var k := ids[0];
          HubCanStep(s, With(s, k, s.clients[k].(phase := Answered(s.log[|s.log| - 1].reply)))
                           .(hub := Replying(ids[1..])));
        }
      case Reading(k) =>
        ReadingCanStep(s, k, p);
      case Collecting =>
        if StillCollecting(s) {
          var k := SomeoneUnheard(s);
          CollectingCanStep(s, k, p);
        } else if s.waiting == [] {
          HubCanStep(s, s.(hub := Stopped));
        } else {
          var s' := s.(log := s.log + [Round(s.waiting, p)], waiting := [], hub := Replying(Ids(s.waiting)));
          assert ProduceStep(s, s', p);
          HubCanStep(s, s');
        }
    }
  }

  lemma ReadingCanStep<P(!new)>(s: Star<P>, k: nat, p: P)
    requires Inv(s) && s.hub == Reading(k)
    ensures CanStep(s)
  {
    var c := s.clients[k];
    assert ClientInv(s, c, k);
    if c.phase.Dialled? {
      ClientCanStep(s, k, p);
    } else {
      var x := c.phase.x;
      var s' := With(s, k, c.(phase := if x.None? then Gone else Awaiting))
                .(live := LiveAfter(s.live, k, x), waiting := WaitingAfter(s.waiting, k, x), hub := Collecting);
      assert ReadStep(s, s');
      HubCanStep(s, s');
    }
  }

  lemma CollectingCanStep<P(!new)>(s: Star<P>, k: nat, p: P)
    requires Inv(s) && s.hub == Collecting && StillCollecting(s)
    requires k in s.live && k < |s.clients| && s.clients[k].phase != Awaiting
    ensures CanStep(s)
  {
    assert ClientInv(s, s.clients[k], k);
    if s.backlog != [] {
      HubCanStep(s, s.(hub := Reading(s.backlog[0]), backlog := s.backlog[1..]));
    } else {
      ClientCanStep(s, k, p);
    }
  }

  // ---- every run ends ----

  function PhaseWork<P>(phase: Phase<P>): int {
    match phase
    case Idle => 4
    case Dialled(_) => 2
    case Written(_) => 1
    case Awaiting => 0
    case Answered(_) => -1
    case Gone => 0
  }

  /** Steps left that involve one client: six per round it has not completed, and the goodbye. */
  function ClientWork<P>(c: Client<P>): int {
    6 * (c.quota - |c.got|) + PhaseWork(c.phase)
  }

  ghost function ClientsWork<P>(clients: seq<Client<P>>): int {
    if clients == [] then 0 else ClientsWork(clients[..|clients| - 1]) + ClientWork(clients[|clients| - 1])
  }

  /** `most` is at least every quota. */
  ghost function Work<P>(s: Star<P>, most: nat): int {
    ClientsWork(s.clients) + |s.backlog| + 2 * (most - |s.log|)
    + (if s.hub.Replying? then 1 else 0) + if s.hub == Stopped then 0 else 1
  }

  lemma {:induction false} WorkUpdate<P>(clients: seq<Client<P>>, k: nat, c: Client<P>)
    requires k < |clients|
    ensures ClientsWork(clients[k := c]) == ClientsWork(clients) - ClientWork(clients[k]) + ClientWork(c)
  {
    var n := |clients| - 1;
    if k < n {
      WorkUpdate(clients[..n], k, c);
      assert clients[k := c][..n] == clients[..n][k := c];
    } else {
      assert clients[k := c][..n] == clients[..n];
    }
  }

  lemma OneClientWorks<P>(s: Star<P>, s': Star<P>, k: nat, c: Client<P>)
    requires k < |s.clients| && s'.clients == s.clients[k := c]
    ensures ClientsWork(s'.clients) == ClientsWork(s.clients) - ClientWork(s.clients[k]) + ClientWork(c)
  {
    WorkUpdate(s.clients, k, c);
  }

  lemma ReadWorks<P>(s: Star<P>, s': Star<P>, most: nat)
    requires ReadStep(s, s')
    ensures Work(s', most) < Work(s, most)
  {
    OneClientWorks(s, s', s.hub.k, s'.clients[s.hub.k]);
  }

  lemma RepliedIsAwaiting<P>(s: Star<P>, k: nat)
    requires Inv(s) && s.hub.Replying? && k in s.hub.ids
    ensures k < |s.clients| && s.clients[k].phase == Awaiting
  {
    assert ClientInv(s, s.clients[k], k);
  }

  lemma ReplyWorks<P>(s: Star<P>, s': Star<P>, most: nat)
    requires ReplyStep(s, s')
    requires s.hub.ids != [] ==> s.hub.ids[0] < |s.clients| && s.clients[s.hub.ids[0]].phase == Awaiting
    ensures Work(s', most) < Work(s, most)
  {
    if s.hub.ids != [] {
      var k := s.hub.ids[0];
      OneClientWorks(s, s', k, s'.clients[k]);
    }
  }

  lemma HubStepWorks<P(!new)>(s: Star<P>, s': Star<P>, most: nat)
    requires Inv(s) && HubStep(s, s')
    ensures Work(s', most) < Work(s, most)
  {
    if ReadStep(s, s') {
      ReadWorks(s, s', most);
    } else if ReplyStep(s, s') {
      if s.hub.ids != [] {
        RepliedIsAwaiting(s, s.hub.ids[0]);
      }
      ReplyWorks(s, s', most);
    }
  }

  lemma ClientStepWorks<P(!new)>(s: Star<P>, s': Star<P>, k: nat, most: nat)
    requires ClientStep(s, s', k)
    ensures Work(s', most) < Work(s, most)
  {
    OneClientWorks(s, s', k, s'.clients[k]);
  }

  lemma StepWorks<P(!new)>(s: Star<P>, s': Star<P>, most: nat)
    requires Inv(s) && Step(s, s')
    ensures Work(s', most) < Work(s, most)
  {
    if HubStep(s, s') {
      HubStepWorks(s, s', most);
    } else {
      var k :| ClientStep(s, s', k);
      ClientStepWorks(s, s', k, most);
    }
  }

  lemma {:induction false} ClientsWorkNonNegative<P>(s: Star<P>, n: nat)
    requires Inv(s) && n <= |s.clients|
    ensures ClientsWork(s.clients[..n]) >= 0
  {
    if n > 0 {
      ClientsWorkNonNegative(s, n - 1);
      assert s.clients[..n][..n - 1] == s.clients[..n - 1];
      assert ClientInv(s, s.clients[n - 1], n - 1);
    }
  }

  lemma WorkNonNegative<P>(s: Star<P>, quotas: seq<nat>, most: nat)
    requires Inv(s) && SameQuotas(quotas, s) && forall k | 0 <= k < |quotas| :: quotas[k] <= most
    ensures Work(s, most) >= 0
  {
    ClientsWorkNonNegative(s, |s.clients|);
    assert s.clients[..|s.clients|] == s.clients;
    if s.log != [] {
      assert RoundInv(s.clients, s.log[|s.log| - 1], |s.log| - 1);
      var k := s.log[|s.log| - 1].payloads[0].src;
      assert quotas[k] <= most;
    }
  }

  lemma {:induction false} WorkOverRun<P(!new)>(quotas: seq<nat>, run: seq<Star<P>>, most: nat)
    requires IsRun(quotas, run) && forall k | 0 <= k < |quotas| :: quotas[k] <= most
    ensures |run| - 1 + Work(run[|run| - 1], most) <= Work(run[0], most)
    ensures |run| - 1 <= Work(run[0], most)
  {
    var t := |run| - 1;
    RunKeepsInv(quotas, run);
    WorkNonNegative(run[t], quotas, most);
    if t > 0 {
      WorkOverRun(quotas, run[..t], most);
      RunKeepsInv(quotas, run[..t]);
      StepWorks(run[t - 1], run[t], most);
    }
  }

  function Sum(quotas: seq<nat>): nat {
    if quotas == [] then 0 else Sum(quotas[..|quotas| - 1]) + quotas[|quotas| - 1]
  }

  lemma {:induction false} InitialClientsWork<P>(quotas: seq<nat>)
    ensures ClientsWork(Initial<P>(quotas).clients) == 6 * Sum(quotas) + 4 * |quotas|
  {
    if quotas != [] {
      var n := |quotas| - 1;
      InitialClientsWork<P>(quotas[..n]);
      assert Initial<P>(quotas).clients[..n] == Initial<P>(quotas[..n]).clients;
    }
  }

  /**
   No run has more steps than this: six for each round of each client, four for each client's goodbye, two for each
   round of the hub, and its stop. With `NoDeadlock`, every run that is not cut short completes.
   */
  lemma RunsEnd<P(!new)>(quotas: seq<nat>, run: seq<Star<P>>, most: nat)
    requires IsRun(quotas, run) && forall k | 0 <= k < |quotas| :: quotas[k] <= most
    ensures |run| - 1 <= 6 * Sum(quotas) + 4 * |quotas| + 2 * most + 1
  {
    WorkOverRun(quotas, run, most);
    InitialClientsWork<P>(quotas);
  }

  // ---- the hub's collecting loop as the object that owns the live set ----

  // One accepted connection: who it is from and its frame, or one that fails before its frame is whole.
  datatype Arrival<P> = Arrival(src: nat, x: Option<P>) | Broken

  ghost function LiveAfterAll<P>(live: set<nat>, arrivals: seq<Arrival<P>>): set<nat> {
    if arrivals == [] then live
    else
      var n := |arrivals| - 1;
      match arrivals[n]
      case Broken => LiveAfterAll(live, arrivals[..n])
      case Arrival(src, x) => LiveAfter(LiveAfterAll(live, arrivals[..n]), src, x)
  }

  ghost function WaitingAfterAll<P>(arrivals: seq<Arrival<P>>): seq<Entry<P>> {
    if arrivals == [] then []
    else
      var n := |arrivals| - 1;
      match arrivals[n]
      case Broken => WaitingAfterAll(arrivals[..n])
      case Arrival(src, x) => WaitingAfter(WaitingAfterAll(arrivals[..n]), src, x)
  }

  /** Goodbyes, and nothing else, remove a client from the live ones. */
  lemma {:induction false} LiveIff<P>(live: set<nat>, arrivals: seq<Arrival<P>>, k: nat)
    ensures k in LiveAfterAll(live, arrivals) <==> k in live && Arrival(k, None) !in arrivals
  {
    if arrivals != [] {
      var n := |arrivals| - 1;
      LiveIff(live, arrivals[..n], k);
      assert arrivals == arrivals[..n] + [arrivals[n]];
    }
  }

  /** What a hub gathers of a run of arrivals it gathers piece by piece, in the order of their acceptance. */
  lemma {:induction false} WaitingInOrder<P>(a: seq<Arrival<P>>, b: seq<Arrival<P>>)
    ensures WaitingAfterAll(a + b) == WaitingAfterAll(a) + WaitingAfterAll(b)
  {
    if b == [] {
      assert a + b == a;
    } else {
      var n := |b| - 1;
      assert (a + b)[..|a + b| - 1] == a + b[..n] && (a + b)[|a + b| - 1] == b[n];
      WaitingInOrder(a, b[..n]);
    }
  }

  /** One arrival leaves a payload to answer exactly when it carries one, and then that of its sender. */
  lemma OneArrival<P>(a: Arrival<P>)
    ensures WaitingAfterAll([a]) == if a.Arrival? && a.x.Some? then [Entry(a.src, a.x.value)] else []
  {
    assert [a][..0] == [];
  }

  class Hub {
    var live: set<nat>

    constructor (clients: nat)
      ensures live == Below(clients)
    {
      live := Below(clients);
    }

    /**
     Reads connections in the order they are accepted, and stops at the first moment when every live
     client has been heard; it blocks (here: returns with `used` at the end) only if none is left to accept.
     A connection that breaks is dropped without a trace.
     */
    method CollectRound<P>(arrivals: seq<Arrival<P>>) returns (waiting: seq<Entry<P>>, used: nat)
      modifies this
      ensures used <= |arrivals|
      ensures live == LiveAfterAll(old(live), arrivals[..used]) && waiting == WaitingAfterAll(arrivals[..used])
      ensures forall m | 0 <= m < used ::
                Unheard(LiveAfterAll(old(live), arrivals[..m]), WaitingAfterAll(arrivals[..m]))
      ensures used < |arrivals| ==> !Unheard(live, waiting)
    {
      waiting, used := [], 0;
      while Unheard(live, waiting) && used < |arrivals|
        invariant used <= |arrivals|
        invariant live == LiveAfterAll(old(live), arrivals[..used]) && waiting == WaitingAfterAll(arrivals[..used])
        invariant forall m | 0 <= m < used ::
                    Unheard(LiveAfterAll(old(live), arrivals[..m]), WaitingAfterAll(arrivals[..m]))
      {
        var a := arrivals[used];
        assert arrivals[..used + 1][..used] == arrivals[..used];
        used := used + 1;
        match a {
          case Broken =>
          case Arrival(src, None) => live := live - {src};
          case Arrival(src, Some(x)) => waiting := waiting + [Entry(src, x)];
        }
      }
    }
  }
}
