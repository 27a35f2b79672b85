/**
 Decentralised exchange over TCP: every node walks the same edge schedule with no coordinator.
 Each node is a process; sends append to the peer's accept queue, and a receive that meets a
 frame from somebody else buffers it in the inbox.
 */
module PeerLink {
  import opened Options

  // One exchange: the node named first speaks first.
  datatype Edge = Edge(a: nat, b: nat)

  datatype Slot = Slot(edge: Edge, round: nat)

  predicate Touches(e: Edge, i: nat) {
    i == e.a || i == e.b
  }

  predicate Connects(e: Edge, i: nat, j: nat) {
    (e.a == i && e.b == j) || (e.a == j && e.b == i)
  }

  function PeerOf(e: Edge, i: nat): nat {
    if i == e.a then e.b else e.a
  }

  /** `rounds` rounds over the edge list, each round in the order of the list. */
  function Schedule(edges: seq<Edge>, rounds: nat): (s: seq<Slot>)
    ensures |s| == rounds * |edges|
  {
    if rounds == 0 then []
    else Schedule(edges, rounds - 1) + seq(|edges|, e requires 0 <= e < |edges| => Slot(edges[e], rounds - 1))
  }

  datatype Frame<P> = Frame(src: nat, buf: P)

  // What a node handed to its application: the payload it took in a slot.
  datatype Receipt<P> = Receipt(slot: nat, buf: P)

  datatype Node<P> = Node(
    slot: nat,                    // the exchange the node stands at
    half: bool,                   // the first half of that exchange is done
    produced: seq<P>,             // the payload of every round begun so far
    inbox: map<nat, seq<P>>,      // frames that arrived ahead of the schedule, by sender
    queue: seq<Frame<P>>,         // connections not yet accepted, oldest first
    received: seq<Receipt<P>>)

  type Net<P> = seq<Node<P>>

  function Initial<P>(n: nat): Net<P> {
    seq(n, i => Node(0, false, [], map[], [], []))
  }

  function Buffered<P>(nd: Node<P>, src: nat): seq<P> {
    if src in nd.inbox then nd.inbox[src] else []
  }

  // ---- one step of one node ----

  /** The node stands at a slot of the schedule with this round's payload at hand. */
  predicate Ready<P>(sched: seq<Slot>, nd: Node<P>) {
    nd.slot < |sched| && |nd.produced| == sched[nd.slot].round + 1
  }

  predicate MustSend<P>(sched: seq<Slot>, nd: Node<P>, i: nat) {
    Ready(sched, nd) && var e := sched[nd.slot].edge; if nd.half then i == e.b else i == e.a
  }

  predicate MustReceive<P>(sched: seq<Slot>, nd: Node<P>, i: nat) {
    Ready(sched, nd) && var e := sched[nd.slot].edge; if nd.half then i == e.a else i == e.b
  }

  /** Finishes one half of the exchange the node stands at. */
  function Advance<P>(nd: Node<P>): Node<P> {
    if nd.half then nd.(slot := nd.slot + 1, half := false) else nd.(half := true)
  }

  function Take<P>(nd: Node<P>, buf: P): Node<P> {
    Advance(nd.(received := nd.received + [Receipt(nd.slot, buf)]))
  }

  /** A new round: the application produces its payload. */
  ghost predicate Produces<P>(sched: seq<Slot>, s: Net<P>, s': Net<P>, i: nat, p: P) {
    && i < |s| && s[i].slot < |sched| && |s[i].produced| == sched[s[i].slot].round
    && s' == s[i := s[i].(produced := s[i].produced + [p])]
  }

  ghost predicate ProduceStep<P(!new)>(sched: seq<Slot>, s: Net<P>, s': Net<P>, i: nat) {
    exists p: P :: Produces(sched, s, s', i, p)
  }

  ghost predicate SkipStep<P>(sched: seq<Slot>, s: Net<P>, s': Net<P>, i: nat) {
    && i < |s| && Ready(sched, s[i]) && !Touches(sched[s[i].slot].edge, i)
    && s' == s[i := s[i].(slot := s[i].slot + 1)]
  }

  ghost predicate SendStep<P>(sched: seq<Slot>, s: Net<P>, s': Net<P>, i: nat) {
    && i < |s| && MustSend(sched, s[i], i)
    && var nd := s[i];
       var p := PeerOf(sched[nd.slot].edge, i);
       && p < |s| && p != i
       && var frame := Frame(i, nd.produced[sched[nd.slot].round]);
          s' == s[p := s[p].(queue := s[p].queue + [frame])][i := Advance(nd)]
  }

  /** The expected frame was buffered earlier. */
  ghost predicate InboxStep<P>(sched: seq<Slot>, s: Net<P>, s': Net<P>, i: nat) {
    && i < |s| && MustReceive(sched, s[i], i)
    && var nd := s[i];
       var p := PeerOf(sched[nd.slot].edge, i);
       && Buffered(nd, p) != []
       && s' == s[i := Take(nd.(inbox := nd.inbox[p := nd.inbox[p][1..]]), nd.inbox[p][0])]
  }

  /** One connection is accepted: either the expected frame, or one to buffer. */
  ghost predicate AcceptStep<P>(sched: seq<Slot>, s: Net<P>, s': Net<P>, i: nat) {
    && i < |s| && MustReceive(sched, s[i], i)
    && var nd := s[i];
       var p := PeerOf(sched[nd.slot].edge, i);
       && Buffered(nd, p) == [] && nd.queue != []
       && var f := nd.queue[0];
          var nd' := nd.(queue := nd.queue[1..]);
          s' == s[i := if f.src == p then Take(nd', f.buf)
                       else nd'.(inbox := nd.inbox[f.src := Buffered(nd, f.src) + [f.buf]])]
  }

  ghost predicate Step<P(!new)>(sched: seq<Slot>, s: Net<P>, s': Net<P>, i: nat) {
    || ProduceStep(sched, s, s', i)
    || SkipStep(sched, s, s', i)
    || SendStep(sched, s, s', i)
    || InboxStep(sched, s, s', i)
    || AcceptStep(sched, s, s', i)
  }

  ghost predicate NetStep<P(!new)>(sched: seq<Slot>, s: Net<P>, s': Net<P>) {
    exists i :: Step(sched, s, s', i)
  }

  /** Any interleaving of the nodes' steps, in any number. */
  ghost predicate IsRun<P(!new)>(sched: seq<Slot>, n: nat, run: seq<Net<P>>) {
    && |run| > 0 && run[0] == Initial(n)
    && forall t | 0 < t < |run| :: NetStep(sched, run[t - 1], run[t])
  }

  ghost predicate Finished<P>(sched: seq<Slot>, s: Net<P>) {
    forall i | 0 <= i < |s| :: s[i].slot == |sched|
  }

  /** Every edge joins two different nodes, and rounds start at 0 and advance one at a time. */
  ghost predicate ValidSchedule(sched: seq<Slot>, n: nat) {
    && (forall k | 0 <= k < |sched| ::
          sched[k].edge.a < n && sched[k].edge.b < n && sched[k].edge.a != sched[k].edge.b)
    && (|sched| > 0 ==> sched[0].round == 0)
    && (forall k | 0 < k < |sched| :: sched[k - 1].round <= sched[k].round <= sched[k - 1].round + 1)
  }

  // ---- the exchanges between two nodes ----

  /** The slots below `k` in which `i` and `j` exchange. */
  ghost function Exchanges(sched: seq<Slot>, i: nat, j: nat, k: nat): seq<nat>
    requires k <= |sched|
  {
    if k == 0 then []
    else Exchanges(sched, i, j, k - 1) + if Connects(sched[k - 1].edge, i, j) then [k - 1] else []
  }

  /**
   The slots in which the transfer from `i` to `j` is done, as far as one of the two knows that
   stands as `nd`: sent if it is `i`, received if it is `j`. The first half of an exchange
   carries the payload of the node named first.
   */
  ghost function Done<P>(sched: seq<Slot>, nd: Node<P>, i: nat, j: nat): seq<nat>
    requires nd.slot <= |sched|
  {
    Exchanges(sched, i, j, nd.slot)
    + if nd.half && nd.slot < |sched| && sched[nd.slot].edge == Edge(i, j) then [nd.slot] else []
  }

  lemma {:induction false} ExchangesGrow(sched: seq<Slot>, i: nat, j: nat, k: nat, l: nat)
    requires k <= l <= |sched|
    ensures Exchanges(sched, i, j, k) <= Exchanges(sched, i, j, l)
  {
    if k < l {
      ExchangesGrow(sched, i, j, k, l - 1);
    }
  }

  lemma {:induction false} ExchangesBelow(sched: seq<Slot>, i: nat, j: nat, k: nat)
    requires k <= |sched|
    ensures forall q | q in Exchanges(sched, i, j, k) :: q < k && Connects(sched[q].edge, i, j)
  {
    if k > 0 {
      ExchangesBelow(sched, i, j, k - 1);
    }
  }

  lemma DonePrefix<P>(sched: seq<Slot>, nd: Node<P>, i: nat, j: nat)
    requires nd.slot <= |sched|
    ensures Done(sched, nd, i, j) <= Exchanges(sched, i, j, |sched|)
    ensures forall q | q in Done(sched, nd, i, j) :: q < |sched| && q <= nd.slot && (q == nd.slot ==> nd.half)
  {
    ExchangesBelow(sched, i, j, nd.slot);
    if nd.slot < |sched| {
      ExchangesGrow(sched, i, j, nd.slot + 1, |sched|);
    }
    ExchangesGrow(sched, i, j, nd.slot, |sched|);
  }

  /** Advancing completes the transfer from `i` to `j` exactly when this half of the slot carries it. */
  lemma AdvanceDone<P>(sched: seq<Slot>, nd: Node<P>, nd': Node<P>, i: nat, j: nat)
    requires nd.slot < |sched| && i != j && sched[nd.slot].edge.a != sched[nd.slot].edge.b
    requires nd'.slot == Advance(nd).slot && nd'.half == Advance(nd).half
    ensures var e := sched[nd.slot].edge;
            Done(sched, nd', i, j) == Done(sched, nd, i, j)
              + if e == (if nd.half then Edge(j, i) else Edge(i, j)) then [nd.slot] else []
  {
  }

  // ---- frames in flight ----

  ghost function FromQueue<P>(q: seq<Frame<P>>, src: nat): seq<P> {
    if q == [] then []
    else (if q[0].src == src then [q[0].buf] else []) + FromQueue(q[1..], src)
  }

  lemma {:induction false} FromQueueSnoc<P>(q: seq<Frame<P>>, f: Frame<P>, src: nat)
    ensures FromQueue(q + [f], src) == FromQueue(q, src) + if f.src == src then [f.buf] else []
  {
    if q == [] {
      assert q + [f] == [f];
    } else {
      assert (q + [f])[1..] == q[1..] + [f];
      FromQueueSnoc(q[1..], f, src);
    }
  }

  /** The payloads from `src` that `nd` has not taken yet, oldest first. */
  ghost function Flight<P>(nd: Node<P>, src: nat): seq<P> {
    Buffered(nd, src) + FromQueue(nd.queue, src)
  }

  /** The rounds of all these slots have been begun. */
  ghost predicate Begun<P>(sched: seq<Slot>, produced: seq<P>, slots: seq<nat>) {
    forall n | 0 <= n < |slots| :: slots[n] < |sched| && sched[slots[n]].round < |produced|
  }

  ghost function Payloads<P>(sched: seq<Slot>, produced: seq<P>, slots: seq<nat>): seq<P>
    requires Begun(sched, produced, slots)
  {
    seq(|slots|, n requires 0 <= n < |slots| => produced[sched[slots[n]].round])
  }

  // ---- the invariant ----

  /** The slots below `k` in which `i` takes part. */
  ghost function Incident(sched: seq<Slot>, i: nat, k: nat): seq<nat>
    requires k <= |sched|
  {
    if k == 0 then []
    else Incident(sched, i, k - 1) + if Touches(sched[k - 1].edge, i) then [k - 1] else []
  }

  function ReceivedSlots<P>(nd: Node<P>): (slots: seq<nat>)
    ensures |slots| == |nd.received|
  {
    seq(|nd.received|, n requires 0 <= n < |nd.received| => nd.received[n].slot)
  }

  /** The application was handed exactly one payload per exchange so far, in the order of the schedule. */
  ghost predicate ReceiptsInv<P>(sched: seq<Slot>, nd: Node<P>, i: nat)
    requires nd.slot <= |sched|
  {
    var now := nd.half && nd.slot < |sched| && i == sched[nd.slot].edge.b;
    ReceivedSlots(nd) == Incident(sched, i, nd.slot) + if now then [nd.slot] else []
  }

  ghost predicate NodeInv<P>(sched: seq<Slot>, nd: Node<P>, i: nat) {
    && nd.slot <= |sched|
    && (nd.slot > 0 ==> sched[nd.slot - 1].round < |nd.produced|)
    && (nd.slot < |sched| ==> sched[nd.slot].round <= |nd.produced| <= sched[nd.slot].round + 1)
    && (nd.slot == |sched| ==> |nd.produced| == if nd.slot == 0 then 0 else sched[nd.slot - 1].round + 1)
    && (nd.half ==> Ready(sched, nd) && Touches(sched[nd.slot].edge, i))
    && ReceiptsInv(sched, nd, i)
  }

  /** What was sent and not taken is in flight, in order, and nothing else is. */
  ghost predicate Transfer<P>(sched: seq<Slot>, sent: seq<nat>, taken: seq<nat>, flight: seq<P>, produced: seq<P>) {
    && Begun(sched, produced, sent)
    && taken <= sent
    && flight == Payloads(sched, produced, sent[|taken|..])
  }

  ghost predicate PairInv<P>(sched: seq<Slot>, sender: Node<P>, receiver: Node<P>, i: nat, j: nat) {
    && sender.slot <= |sched| && receiver.slot <= |sched|
    && Transfer(sched, Done(sched, sender, i, j), Done(sched, receiver, i, j), Flight(receiver, i), sender.produced)
  }

  /** Every payload handed to the application is the one its sender produced for that very round. */
  ghost predicate Matched<P>(sched: seq<Slot>, s: Net<P>, j: nat)
    requires j < |s|
  {
    forall r | r in s[j].received ::
      && r.slot < |sched| && Touches(sched[r.slot].edge, j)
      && var p, round := PeerOf(sched[r.slot].edge, j), sched[r.slot].round;
         p < |s| && round < |s[p].produced| && r.buf == s[p].produced[round]
  }

  ghost predicate NodesInv<P>(sched: seq<Slot>, s: Net<P>) {
    forall i | 0 <= i < |s| :: NodeInv(sched, s[i], i)
  }

  ghost predicate PairsInv<P>(sched: seq<Slot>, s: Net<P>) {
    forall i, j | 0 <= i < |s| && 0 <= j < |s| && i != j :: PairInv(sched, s[i], s[j], i, j)
  }

  ghost predicate HistoryInv<P>(sched: seq<Slot>, s: Net<P>) {
    forall j | 0 <= j < |s| :: Matched(sched, s, j)
  }

  ghost predicate Inv<P>(sched: seq<Slot>, s: Net<P>) {
    NodesInv(sched, s) && PairsInv(sched, s) && HistoryInv(sched, s)
  }

  lemma InitialNode<P>(sched: seq<Slot>, n: nat, nd: Node<P>, i: nat, j: nat)
    requires ValidSchedule(sched, n) && nd == Node(0, false, [], map[], [], [])
    ensures NodeInv(sched, nd, i) && PairInv(sched, nd, nd, i, j)
  {
    assert Done(sched, nd, i, j) == [] && Flight(nd, i) == [];
  }

  lemma InitialInv<P>(sched: seq<Slot>, n: nat, s: Net<P>)
    requires ValidSchedule(sched, n) && s == Initial(n)
    ensures Inv(sched, s)
  {
    forall i, j | 0 <= i < n && 0 <= j < n
      ensures NodeInv(sched, s[i], i) && PairInv(sched, s[i], s[j], i, j)
    {
      InitialNode(sched, n, s[i], i, j);
    }
  }

  // ---- every node keeps its own invariant ----

  lemma SendNodeInv<P>(sched: seq<Slot>, n: nat, nd: Node<P>, i: nat)
    requires ValidSchedule(sched, n) && NodeInv(sched, nd, i) && MustSend(sched, nd, i)
    ensures NodeInv(sched, Advance(nd), i)
  {
  }

  lemma TakeNodeInv<P>(sched: seq<Slot>, n: nat, nd: Node<P>, nd': Node<P>, i: nat, buf: P)
    requires ValidSchedule(sched, n) && NodeInv(sched, nd, i) && MustReceive(sched, nd, i)
    requires nd' == Take(nd.(inbox := nd'.inbox, queue := nd'.queue), buf)
    ensures NodeInv(sched, nd', i)
  {
    assert ReceivedSlots(nd') == ReceivedSlots(nd) + [nd.slot];
  }

  lemma SkipNodeInv<P>(sched: seq<Slot>, n: nat, nd: Node<P>, i: nat)
    requires ValidSchedule(sched, n) && NodeInv(sched, nd, i) && Ready(sched, nd) && !Touches(sched[nd.slot].edge, i)
    ensures NodeInv(sched, nd.(slot := nd.slot + 1), i)
  {
  }

  lemma NodeInvIgnoresQueues<P>(sched: seq<Slot>, nd: Node<P>, nd': Node<P>, i: nat)
    requires NodeInv(sched, nd, i)
    requires nd'.slot == nd.slot && nd'.half == nd.half && nd'.produced == nd.produced && nd'.received == nd.received
    ensures NodeInv(sched, nd', i)
  {
  }

  // ---- how each kind of step changes one transfer ----

  lemma TransferProduce<P>(sched: seq<Slot>, sent: seq<nat>, taken: seq<nat>, flight: seq<P>, produced: seq<P>, p: P)
    requires Transfer(sched, sent, taken, flight, produced)
    ensures Transfer(sched, sent, taken, flight, produced + [p])
  {
  }

  lemma TransferSend<P>(sched: seq<Slot>, sent: seq<nat>, taken: seq<nat>, flight: seq<P>, produced: seq<P>, k: nat)
    requires Transfer(sched, sent, taken, flight, produced)
    requires k < |sched| && sched[k].round < |produced|
    ensures Transfer(sched, sent + [k], taken, flight + [produced[sched[k].round]], produced)
  {
    assert (sent + [k])[|taken|..] == sent[|taken|..] + [k];
  }

  lemma TransferTake<P>(sched: seq<Slot>, sent: seq<nat>, taken: seq<nat>, flight: seq<P>, produced: seq<P>, k: nat)
    requires Transfer(sched, sent, taken, flight, produced) && flight != []
    requires sent[|taken|] == k
    ensures Transfer(sched, sent, taken + [k], flight[1..], produced)
    ensures k < |sched| && sched[k].round < |produced| && flight[0] == produced[sched[k].round]
  {
    assert sent[|taken|..][1..] == sent[|taken| + 1..];
  }

  /** The pair whose transfer a send carries: `nd` is the sender, `q` the receiver. */
  lemma SendPair<P>(sched: seq<Slot>, nd: Node<P>, q: Node<P>, q': Node<P>, i: nat, p: nat)
    requires MustSend(sched, nd, i) && p == PeerOf(sched[nd.slot].edge, i) && p != i
    requires PairInv(sched, nd, q, i, p)
    requires q' == q.(queue := q.queue + [Frame(i, nd.produced[sched[nd.slot].round])])
    ensures PairInv(sched, Advance(nd), q', i, p)
  {
    var k := nd.slot;
    var buf := nd.produced[sched[k].round];
    FromQueueSnoc(q.queue, Frame(i, buf), i);
    assert Flight(q', i) == Flight(q, i) + [buf];
    AdvanceDone(sched, nd, Advance(nd), i, p);
    TransferSend(sched, Done(sched, nd, i, p), Done(sched, q, i, p), Flight(q, i), nd.produced, k);
  }

  /** A sender's advance leaves every other transfer alone, whichever end of it the sender is. */
  lemma SenderElsewhere<P>(sched: seq<Slot>, nd: Node<P>, q: Node<P>, i: nat, y: nat)
    requires MustSend(sched, nd, i) && y != i && sched[nd.slot].edge.a != sched[nd.slot].edge.b
    ensures y != PeerOf(sched[nd.slot].edge, i) && PairInv(sched, nd, q, i, y) ==> PairInv(sched, Advance(nd), q, i, y)
    ensures PairInv(sched, q, nd, y, i) ==> PairInv(sched, q, Advance(nd), y, i)
  {
    AdvanceDone(sched, nd, Advance(nd), i, y);
    AdvanceDone(sched, nd, Advance(nd), y, i);
    assert Flight(Advance(nd), y) == Flight(nd, y);
  }

  /** A frame from `i` in the queue leaves every transfer from another sender alone. */
  lemma QueuedElsewhere<P>(sched: seq<Slot>, q: Node<P>, q': Node<P>, f: Frame<P>, x: nat, p: nat, other: Node<P>)
    requires q' == q.(queue := q.queue + [f])
    ensures x != f.src && PairInv(sched, other, q, x, p) ==> PairInv(sched, other, q', x, p)
    ensures PairInv(sched, q, other, p, x) ==> PairInv(sched, q', other, p, x)
  {
    FromQueueSnoc(q.queue, f, x);
    if q.slot <= |sched| {
      assert Done(sched, q', x, p) == Done(sched, q, x, p) && Done(sched, q', p, x) == Done(sched, q, p, x);
    }
    if x != f.src {
      assert Flight(q', x) == Flight(q, x);
    }
  }

  /**
   The pair whose transfer a take completes: `nd` gives its expected frame, the first in flight,
   to the application; `rest` is `nd` without that frame.
   */
  lemma TakePair<P>(sched: seq<Slot>, sender: Node<P>, nd: Node<P>, rest: Node<P>, i: nat, p: nat)
    requires MustReceive(sched, nd, i) && p == PeerOf(sched[nd.slot].edge, i) && p != i
    requires PairInv(sched, sender, nd, p, i) && Flight(nd, p) != []
    requires Done(sched, sender, p, i)[|Done(sched, nd, p, i)|] == nd.slot
    requires rest.slot == nd.slot && rest.half == nd.half && Flight(rest, p) == Flight(nd, p)[1..]
    ensures PairInv(sched, sender, Take(rest, Flight(nd, p)[0]), p, i)
    ensures sched[nd.slot].round < |sender.produced|
    ensures Flight(nd, p)[0] == sender.produced[sched[nd.slot].round]
  {
    var nd' := Take(rest, Flight(nd, p)[0]);
    AdvanceDone(sched, nd, nd', p, i);
    TransferTake(sched, Done(sched, sender, p, i), Done(sched, nd, p, i), Flight(nd, p), sender.produced, nd.slot);
    assert Flight(nd', p) == Flight(rest, p);
  }

  lemma TakerElsewhere<P>(sched: seq<Slot>, nd: Node<P>, rest: Node<P>, buf: P, q: Node<P>, i: nat, y: nat)
    requires MustReceive(sched, nd, i) && y != i && sched[nd.slot].edge.a != sched[nd.slot].edge.b
    requires rest.slot == nd.slot && rest.half == nd.half && rest.produced == nd.produced
    ensures PairInv(sched, nd, q, i, y) ==> PairInv(sched, Take(rest, buf), q, i, y)
    ensures y != PeerOf(sched[nd.slot].edge, i) && Flight(rest, y) == Flight(nd, y) && PairInv(sched, q, nd, y, i)
        ==> PairInv(sched, q, Take(rest, buf), y, i)
  {
    AdvanceDone(sched, nd, Take(rest, buf), i, y);
    AdvanceDone(sched, nd, Take(rest, buf), y, i);
    assert Flight(Take(rest, buf), y) == Flight(rest, y);
  }

  lemma ProducePair<P>(sched: seq<Slot>, nd: Node<P>, nd': Node<P>, p: P, q: Node<P>, i: nat, y: nat)
    requires nd' == nd.(produced := nd.produced + [p])
    ensures PairInv(sched, nd, q, i, y) ==> PairInv(sched, nd', q, i, y)
    ensures PairInv(sched, q, nd, y, i) ==> PairInv(sched, q, nd', y, i)
  {
    if PairInv(sched, nd, q, i, y) {
      TransferProduce(sched, Done(sched, nd, i, y), Done(sched, q, i, y), Flight(q, i), nd.produced, p);
    }
    if nd.slot <= |sched| {
      assert Done(sched, nd', i, y) == Done(sched, nd, i, y) && Done(sched, nd', y, i) == Done(sched, nd, y, i);
    }
    assert Flight(nd', y) == Flight(nd, y);
  }

  lemma SkipPair<P>(sched: seq<Slot>, nd: Node<P>, nd': Node<P>, q: Node<P>, i: nat, y: nat)
    requires NodeInv(sched, nd, i) && Ready(sched, nd) && !Touches(sched[nd.slot].edge, i)
    requires nd' == nd.(slot := nd.slot + 1)
    ensures PairInv(sched, nd, q, i, y) ==> PairInv(sched, nd', q, i, y)
    ensures PairInv(sched, q, nd, y, i) ==> PairInv(sched, q, nd', y, i)
  {
    assert Done(sched, nd', i, y) == Done(sched, nd, i, y);
    assert Done(sched, nd', y, i) == Done(sched, nd, y, i);
    assert Flight(nd', y) == Flight(nd, y);
  }

  /** Buffering the oldest frame keeps what is in flight from every sender, order included. */
  lemma BufferPair<P>(sched: seq<Slot>, nd: Node<P>, nd': Node<P>, q: Node<P>, i: nat, y: nat)
    requires nd.queue != []
    requires var f := nd.queue[0];
             nd' == nd.(queue := nd.queue[1..], inbox := nd.inbox[f.src := Buffered(nd, f.src) + [f.buf]])
    ensures PairInv(sched, nd, q, i, y) ==> PairInv(sched, nd', q, i, y)
    ensures PairInv(sched, q, nd, y, i) ==> PairInv(sched, q, nd', y, i)
  {
    if nd.slot <= |sched| {
      assert Done(sched, nd', i, y) == Done(sched, nd, i, y) && Done(sched, nd', y, i) == Done(sched, nd, y, i);
    }
    assert Flight(nd', y) == Flight(nd, y);
  }

  // ---- every step keeps the invariant ----

  lemma HistoryKept<P>(sched: seq<Slot>, s: Net<P>, s': Net<P>)
    requires |s| == |s'| && HistoryInv(sched, s)
    requires forall j | 0 <= j < |s| :: s[j].produced <= s'[j].produced && s'[j].received == s[j].received
    ensures HistoryInv(sched, s')
  {
    forall j | 0 <= j < |s|
      ensures Matched(sched, s', j)
    {
      assert Matched(sched, s, j);
    }
  }

  lemma OneNodeChanged<P>(sched: seq<Slot>, s: Net<P>, i: nat, nd': Node<P>)
    requires i < |s| && PairsInv(sched, s)
    requires forall y | 0 <= y < |s| && y != i :: PairInv(sched, nd', s[y], i, y) && PairInv(sched, s[y], nd', y, i)
    ensures PairsInv(sched, s[i := nd'])
  {
  }

  lemma ProduceKeepsInv<P(!new)>(sched: seq<Slot>, s: Net<P>, s': Net<P>, i: nat)
    requires Inv(sched, s) && ProduceStep(sched, s, s', i)
    ensures Inv(sched, s')
  {
    var p :| Produces(sched, s, s', i, p);
    forall y | 0 <= y < |s| && y != i
      ensures PairInv(sched, s'[i], s[y], i, y) && PairInv(sched, s[y], s'[i], y, i)
    {
      ProducePair(sched, s[i], s'[i], p, s[y], i, y);
    }
    OneNodeChanged(sched, s, i, s'[i]);
    HistoryKept(sched, s, s');
  }

  lemma SkipKeepsInv<P>(sched: seq<Slot>, s: Net<P>, s': Net<P>, i: nat)
    requires ValidSchedule(sched, |s|) && Inv(sched, s) && SkipStep(sched, s, s', i)
    ensures Inv(sched, s')
  {
    forall y | 0 <= y < |s| && y != i
      ensures PairInv(sched, s'[i], s[y], i, y) && PairInv(sched, s[y], s'[i], y, i)
    {
      SkipPair(sched, s[i], s'[i], s[y], i, y);
    }
    SkipNodeInv(sched, |s|, s[i], i);
    OneNodeChanged(sched, s, i, s'[i]);
    HistoryKept(sched, s, s');
  }

  lemma TwoNodesChanged<P>(sched: seq<Slot>, s: Net<P>, s': Net<P>, i: nat, p: nat)
    requires i < |s| && p < |s| && i != p && |s'| == |s| && PairsInv(sched, s)
    requires forall y | 0 <= y < |s| && y != i && y != p :: s'[y] == s[y]
    requires PairInv(sched, s'[i], s'[p], i, p) && PairInv(sched, s'[p], s'[i], p, i)
    requires forall y | 0 <= y < |s| && y != i && y != p ::
               && PairInv(sched, s'[i], s[y], i, y) && PairInv(sched, s[y], s'[i], y, i)
               && PairInv(sched, s'[p], s[y], p, y) && PairInv(sched, s[y], s'[p], y, p)
    ensures PairsInv(sched, s')
  {
  }

  lemma SendKeepsPairs<P>(sched: seq<Slot>, s: Net<P>, s': Net<P>, i: nat)
    requires ValidSchedule(sched, |s|) && PairsInv(sched, s) && SendStep(sched, s, s', i)
    ensures PairsInv(sched, s')
  {
    var nd := s[i];
    var p := PeerOf(sched[nd.slot].edge, i);
    var f := Frame(i, nd.produced[sched[nd.slot].round]);
    SendPair(sched, nd, s[p], s'[p], i, p);
    SenderElsewhere(sched, nd, s[p], i, p);
    QueuedElsewhere(sched, s[p], s'[p], f, i, p, Advance(nd));
    forall y | 0 <= y < |s| && y != i && y != p
      ensures PairInv(sched, s'[i], s[y], i, y) && PairInv(sched, s[y], s'[i], y, i)
      ensures PairInv(sched, s'[p], s[y], p, y) && PairInv(sched, s[y], s'[p], y, p)
    {
      SenderElsewhere(sched, nd, s[y], i, y);
      QueuedElsewhere(sched, s[p], s'[p], f, y, p, s[y]);
    }
    TwoNodesChanged(sched, s, s', i, p);
  }

  lemma SendKeepsInv<P>(sched: seq<Slot>, s: Net<P>, s': Net<P>, i: nat)
    requires ValidSchedule(sched, |s|) && Inv(sched, s) && SendStep(sched, s, s', i)
    ensures Inv(sched, s')
  {
    var p := PeerOf(sched[s[i].slot].edge, i);
    SendNodeInv(sched, |s|, s[i], i);
    NodeInvIgnoresQueues(sched, s[p], s'[p], p);
    SendKeepsPairs(sched, s, s', i);
    HistoryKept(sched, s, s');
  }

  /** A node about to take from `p` has taken everything up to this slot, so the next frame is this slot's. */
  lemma NextTaken<P>(sched: seq<Slot>, sender: Node<P>, nd: Node<P>, i: nat, p: nat)
    requires MustReceive(sched, nd, i) && p == PeerOf(sched[nd.slot].edge, i) && p != i
    requires PairInv(sched, sender, nd, p, i) && Flight(nd, p) != []
    ensures Done(sched, sender, p, i)[|Done(sched, nd, p, i)|] == nd.slot
  {
    var k := nd.slot;
    assert Done(sched, nd, p, i) == Exchanges(sched, p, i, k);
    ExchangesGrow(sched, p, i, k + 1, |sched|);
    DonePrefix(sched, sender, p, i);
    assert Exchanges(sched, p, i, k + 1)[|Exchanges(sched, p, i, k)|] == k;
  }

  /** The common part of the two steps that end in a take. */
  lemma TakeKeepsInv<P>(sched: seq<Slot>, s: Net<P>, i: nat, p: nat, rest: Node<P>, buf: P)
    requires ValidSchedule(sched, |s|) && Inv(sched, s) && i < |s| && p < |s| && p != i
    requires MustReceive(sched, s[i], i) && p == PeerOf(sched[s[i].slot].edge, i)
    requires Flight(s[i], p) != [] && buf == Flight(s[i], p)[0] && Flight(rest, p) == Flight(s[i], p)[1..]
    requires forall x: nat | x != p :: Flight(rest, x) == Flight(s[i], x)
    requires rest == s[i].(inbox := rest.inbox, queue := rest.queue)
    ensures Inv(sched, s[i := Take(rest, buf)])
  {
    var nd, nd' := s[i], Take(rest, buf);
    assert PairInv(sched, s[p], nd, p, i);
    NextTaken(sched, s[p], nd, i, p);
    TakePair(sched, s[p], nd, rest, i, p);
    forall y | 0 <= y < |s| && y != i
      ensures PairInv(sched, nd', s[y], i, y) && PairInv(sched, s[y], nd', y, i)
    {
      TakerElsewhere(sched, nd, rest, buf, s[y], i, y);
    }
    OneNodeChanged(sched, s, i, nd');
    TakeNodeInv(sched, |s|, nd, nd', i, buf);
    TakeKeepsHistory(sched, s, s[i := nd'], i, p, buf);
  }

  lemma TakeKeepsHistory<P>(sched: seq<Slot>, s: Net<P>, s': Net<P>, i: nat, p: nat, buf: P)
    requires i < |s| && p < |s| && HistoryInv(sched, s) && |s'| == |s| && s' == s[i := s'[i]]
    requires s[i].slot < |sched| && Touches(sched[s[i].slot].edge, i) && p == PeerOf(sched[s[i].slot].edge, i)
    requires var round := sched[s[i].slot].round; round < |s[p].produced| && buf == s[p].produced[round]
    requires s'[i].produced == s[i].produced && s'[i].received == s[i].received + [Receipt(s[i].slot, buf)]
    ensures HistoryInv(sched, s')
  {
    forall j | 0 <= j < |s|
      ensures Matched(sched, s', j)
    {
      assert Matched(sched, s, j);
    }
  }

  lemma InboxKeepsInv<P>(sched: seq<Slot>, s: Net<P>, s': Net<P>, i: nat)
    requires ValidSchedule(sched, |s|) && Inv(sched, s) && InboxStep(sched, s, s', i)
    ensures Inv(sched, s')
  {
    var nd := s[i];
    var p := PeerOf(sched[nd.slot].edge, i);
    var rest := nd.(inbox := nd.inbox[p := nd.inbox[p][1..]]);
    assert Flight(nd, p) == nd.inbox[p] + FromQueue(nd.queue, p);
    assert Flight(rest, p) == Flight(nd, p)[1..];
    TakeKeepsInv(sched, s, i, p, rest, nd.inbox[p][0]);
  }

  lemma AcceptAwaited<P>(sched: seq<Slot>, s: Net<P>, s': Net<P>, i: nat, p: nat)
    requires ValidSchedule(sched, |s|) && Inv(sched, s) && AcceptStep(sched, s, s', i)
    requires p == PeerOf(sched[s[i].slot].edge, i) && s[i].queue[0].src == p
    ensures Inv(sched, s')
  {
    var nd := s[i];
    var f, rest := nd.queue[0], nd.(queue := nd.queue[1..]);
    assert Flight(nd, p) == [f.buf] + FromQueue(nd.queue[1..], p);
    assert Flight(rest, p) == Flight(nd, p)[1..];
    TakeKeepsInv(sched, s, i, p, rest, f.buf);
  }

  lemma AcceptBuffered<P>(sched: seq<Slot>, s: Net<P>, s': Net<P>, i: nat)
    requires ValidSchedule(sched, |s|) && Inv(sched, s) && AcceptStep(sched, s, s', i)
    requires s[i].queue[0].src != PeerOf(sched[s[i].slot].edge, i)
    ensures Inv(sched, s')
  {
    forall y | 0 <= y < |s| && y != i
      ensures PairInv(sched, s'[i], s[y], i, y) && PairInv(sched, s[y], s'[i], y, i)
    {
      BufferPair(sched, s[i], s'[i], s[y], i, y);
    }
    OneNodeChanged(sched, s, i, s'[i]);
    NodeInvIgnoresQueues(sched, s[i], s'[i], i);
    HistoryKept(sched, s, s');
  }

  lemma AcceptKeepsInv<P>(sched: seq<Slot>, s: Net<P>, s': Net<P>, i: nat)
    requires ValidSchedule(sched, |s|) && Inv(sched, s) && AcceptStep(sched, s, s', i)
    ensures Inv(sched, s')
  {
    var p := PeerOf(sched[s[i].slot].edge, i);
    if s[i].queue[0].src == p {
      AcceptAwaited(sched, s, s', i, p);
    } else {
      AcceptBuffered(sched, s, s', i);
    }
  }

  lemma StepKeepsInv<P(!new)>(sched: seq<Slot>, s: Net<P>, s': Net<P>, i: nat)
    requires ValidSchedule(sched, |s|) && Inv(sched, s) && Step(sched, s, s', i)
    ensures |s'| == |s| && Inv(sched, s')
  {
    if ProduceStep(sched, s, s', i) {
      ProduceKeepsInv(sched, s, s', i);
    } else if SkipStep(sched, s, s', i) {
      SkipKeepsInv(sched, s, s', i);
    } else if SendStep(sched, s, s', i) {
      SendKeepsInv(sched, s, s', i);
    } else if InboxStep(sched, s, s', i) {
      InboxKeepsInv(sched, s, s', i);
    } else {
      AcceptKeepsInv(sched, s, s', i);
    }
  }

  lemma {:induction false} RunKeepsInv<P(!new)>(sched: seq<Slot>, n: nat, run: seq<Net<P>>)
    requires ValidSchedule(sched, n) && IsRun(sched, n, run)
    ensures |run[|run| - 1]| == n && Inv(sched, run[|run| - 1])
  {
    var t := |run| - 1;
    if t == 0 {
      InitialInv(sched, n, run[0]);
    } else {
      RunKeepsInv(sched, n, run[..t]);
      assert NetStep(sched, run[t - 1], run[t]);
      var i :| Step(sched, run[t - 1], run[t], i);
      StepKeepsInv(sched, run[t - 1], run[t], i);
    }
  }

  // ---- no deadlock ----

  /** The number of nodes is positive and `i` stands at the earliest slot. */
  ghost predicate Earliest<P>(s: Net<P>, i: nat) {
    i < |s| && forall j | 0 <= j < |s| :: s[i].slot <= s[j].slot
  }

  ghost function FindEarliest<P>(s: Net<P>, n: nat): (i: nat)
    requires 0 < n <= |s|
    ensures i < n && forall j | 0 <= j < n :: s[i].slot <= s[j].slot
  {
    if n == 1 then 0
    else var i := FindEarliest(s, n - 1); if s[i].slot <= s[n - 1].slot then i else n - 1
  }

  ghost predicate CanStep<P(!new)>(sched: seq<Slot>, s: Net<P>, i: nat) {
    exists s' :: Step(sched, s, s', i)
  }

  ghost predicate SomeNodeCanStep<P(!new)>(sched: seq<Slot>, s: Net<P>) {
    exists i :: CanStep(sched, s, i)
  }

  lemma CanProduce<P(!new)>(sched: seq<Slot>, s: Net<P>, i: nat, p: P)
    requires i < |s| && NodeInv(sched, s[i], i) && s[i].slot < |sched| && !Ready(sched, s[i])
    ensures CanStep(sched, s, i)
  {
    var s' := s[i := s[i].(produced := s[i].produced + [p])];
    assert Produces(sched, s, s', i, p);
    assert ProduceStep(sched, s, s', i);
    assert Step(sched, s, s', i);
  }

  lemma CanSkip<P(!new)>(sched: seq<Slot>, s: Net<P>, i: nat)
    requires i < |s| && Ready(sched, s[i]) && !Touches(sched[s[i].slot].edge, i)
    ensures CanStep(sched, s, i)
  {
    var s' := s[i := s[i].(slot := s[i].slot + 1)];
    assert SkipStep(sched, s, s', i);
    assert Step(sched, s, s', i);
  }

  lemma CanSend<P(!new)>(sched: seq<Slot>, s: Net<P>, i: nat)
    requires ValidSchedule(sched, |s|) && i < |s| && MustSend(sched, s[i], i)
    ensures CanStep(sched, s, i)
  {
    var nd := s[i];
    var p := PeerOf(sched[nd.slot].edge, i);
    var frame := Frame(i, nd.produced[sched[nd.slot].round]);
    var s' := s[p := s[p].(queue := s[p].queue + [frame])][i := Advance(nd)];
    assert SendStep(sched, s, s', i);
    assert Step(sched, s, s', i);
  }

  /** A receiver is blocked only while nothing from its peer is in flight. */
  lemma CanReceive<P(!new)>(sched: seq<Slot>, s: Net<P>, i: nat)
    requires i < |s| && MustReceive(sched, s[i], i) && Flight(s[i], PeerOf(sched[s[i].slot].edge, i)) != []
    ensures CanStep(sched, s, i)
  {
    var nd := s[i];
    var p := PeerOf(sched[nd.slot].edge, i);
    if Buffered(nd, p) != [] {
      var s' := s[i := Take(nd.(inbox := nd.inbox[p := nd.inbox[p][1..]]), nd.inbox[p][0])];
      assert InboxStep(sched, s, s', i);
      assert Step(sched, s, s', i);
    } else {
      var f := nd.queue[0];
      var nd' := nd.(queue := nd.queue[1..]);
      var s' := s[i := if f.src == p then Take(nd', f.buf)
                       else nd'.(inbox := nd.inbox[f.src := Buffered(nd, f.src) + [f.buf]])];
      assert AcceptStep(sched, s, s', i);
      assert Step(sched, s, s', i);
    }
  }

  lemma LongerFlight<P>(sched: seq<Slot>, sent: seq<nat>, taken: seq<nat>, flight: seq<P>, produced: seq<P>)
    requires Transfer(sched, sent, taken, flight, produced) && |sent| > |taken|
    ensures flight != []
  {
  }

  /** If the sender of this slot is past its half of it, its frame is in flight. */
  lemma SentAhead<P>(sched: seq<Slot>, sender: Node<P>, nd: Node<P>, i: nat, p: nat)
    requires MustReceive(sched, nd, i) && p == PeerOf(sched[nd.slot].edge, i) && p != i
    requires PairInv(sched, sender, nd, p, i)
    requires sender.slot > nd.slot || (sender.slot == nd.slot && sender.half && sched[nd.slot].edge.a == p)
    ensures Flight(nd, p) != []
  {
    var k := nd.slot;
    assert Done(sched, nd, p, i) == Exchanges(sched, p, i, k);
    if sender.slot > k {
      ExchangesGrow(sched, p, i, k + 1, sender.slot);
    }
    assert |Done(sched, sender, p, i)| > |Exchanges(sched, p, i, k)|;
    LongerFlight(sched, Done(sched, sender, p, i), Done(sched, nd, p, i), Flight(nd, p), sender.produced);
  }

  /** The earliest pending exchange is always enabled: the node that stands there, or its peer, can step. */
  lemma EarliestEnabled<P(!new)>(sched: seq<Slot>, s: Net<P>, i: nat, payload: P)
    requires ValidSchedule(sched, |s|) && Inv(sched, s) && Earliest(s, i) && s[i].slot < |sched|
    ensures var e := sched[s[i].slot].edge;
            CanStep(sched, s, i) || (Touches(e, i) && CanStep(sched, s, PeerOf(e, i)))
  {
    var nd := s[i];
    var e := sched[nd.slot].edge;
    if !Ready(sched, nd) {
      CanProduce(sched, s, i, payload);
    } else if !Touches(e, i) {
      CanSkip(sched, s, i);
    } else if MustSend(sched, nd, i) {
      CanSend(sched, s, i);
    } else {
      var p := PeerOf(e, i);
      assert PairInv(sched, s[p], nd, p, i) && PairInv(sched, nd, s[p], i, p);
      if s[p].slot > nd.slot || (s[p].half && e.a == p) {
        SentAhead(sched, s[p], nd, i, p);
        CanReceive(sched, s, i);
      } else if !Ready(sched, s[p]) {
        CanProduce(sched, s, p, payload);
      } else if MustSend(sched, s[p], p) {
        CanSend(sched, s, p);
      } else {
        SentAhead(sched, nd, s[p], p, i);
        CanReceive(sched, s, p);
      }
    }
  }

  /**
   In every reachable state either all nodes have finished or some node can step; `payload` is
   something an application might produce.
   */
  lemma NoDeadlock<P(!new)>(sched: seq<Slot>, n: nat, run: seq<Net<P>>, payload: P)
    requires ValidSchedule(sched, n) && IsRun(sched, n, run)
    ensures Finished(sched, run[|run| - 1]) || SomeNodeCanStep(sched, run[|run| - 1])
  {
    RunKeepsInv(sched, n, run);
    var s := run[|run| - 1];
    if !Finished(sched, s) {
      var i := FindEarliest(s, n);
      EarliestEnabled(sched, s, i, payload);
    }
  }

  // ---- every run ends ----

  /** Work left at one node: three per half exchange, one per payload to produce, one per queued frame. */
  ghost function NodeWork<P>(sched: seq<Slot>, rounds: nat, nd: Node<P>): int {
    6 * (|sched| - nd.slot) - (if nd.half then 3 else 0) + (rounds - |nd.produced|) + |nd.queue|
  }

  ghost function Work<P>(sched: seq<Slot>, rounds: nat, s: Net<P>): int {
    if s == [] then 0 else Work(sched, rounds, s[..|s| - 1]) + NodeWork(sched, rounds, s[|s| - 1])
  }

  lemma {:induction false} WorkUpdate<P>(sched: seq<Slot>, rounds: nat, s: Net<P>, i: nat, nd: Node<P>)
    requires i < |s|
    ensures Work(sched, rounds, s[i := nd])
         == Work(sched, rounds, s) - NodeWork(sched, rounds, s[i]) + NodeWork(sched, rounds, nd)
  {
    var n := |s| - 1;
    if i < n {
      WorkUpdate(sched, rounds, s[..n], i, nd);
      assert s[i := nd][..n] == s[..n][i := nd];
    } else {
      assert s[i := nd][..n] == s[..n];
    }
  }

  lemma OneNodeWorks<P>(sched: seq<Slot>, rounds: nat, s: Net<P>, s': Net<P>, i: nat)
    requires i < |s| && |s'| == |s| && s' == s[i := s'[i]]
    requires NodeWork(sched, rounds, s'[i]) < NodeWork(sched, rounds, s[i])
    ensures Work(sched, rounds, s') < Work(sched, rounds, s)
  {
    WorkUpdate(sched, rounds, s, i, s'[i]);
  }

  lemma SendWorks<P>(sched: seq<Slot>, rounds: nat, s: Net<P>, s': Net<P>, i: nat)
    requires SendStep(sched, s, s', i)
    ensures Work(sched, rounds, s') < Work(sched, rounds, s)
  {
    var p := PeerOf(sched[s[i].slot].edge, i);
    var t := s[p := s'[p]];
    assert NodeWork(sched, rounds, s'[p]) == NodeWork(sched, rounds, s[p]) + 1;
    assert NodeWork(sched, rounds, s'[i]) == NodeWork(sched, rounds, s[i]) - 3;
    WorkUpdate(sched, rounds, s, p, s'[p]);
    WorkUpdate(sched, rounds, t, i, s'[i]);
    assert s' == t[i := s'[i]];
  }

  lemma StepWorks<P(!new)>(sched: seq<Slot>, rounds: nat, s: Net<P>, s': Net<P>, i: nat)
    requires Step(sched, s, s', i)
    ensures Work(sched, rounds, s') < Work(sched, rounds, s)
  {
    if SendStep(sched, s, s', i) {
      SendWorks(sched, rounds, s, s', i);
    } else {
      if ProduceStep(sched, s, s', i) {
        var p :| Produces(sched, s, s', i, p);
      }
      OneNodeWorks(sched, rounds, s, s', i);
    }
  }

  ghost predicate RoundsBound(sched: seq<Slot>, rounds: nat) {
    forall k | 0 <= k < |sched| :: sched[k].round < rounds
  }

  lemma {:induction false} WorkNonNegative<P>(sched: seq<Slot>, rounds: nat, s: Net<P>)
    requires NodesInv(sched, s) && RoundsBound(sched, rounds)
    ensures Work(sched, rounds, s) >= 0
  {
    if s != [] {
      var n := |s| - 1;
      WorkNonNegative(sched, rounds, s[..n]);
      assert NodeInv(sched, s[n], n);
    }
  }

  lemma {:induction false} InitialWork<P>(sched: seq<Slot>, rounds: nat, n: nat)
    ensures Work<P>(sched, rounds, Initial(n)) == n * (6 * |sched| + rounds)
  {
    if n > 0 {
      InitialWork<P>(sched, rounds, n - 1);
      assert Initial<P>(n)[..n - 1] == Initial<P>(n - 1);
    }
  }

  lemma {:induction false} WorkOverRun<P(!new)>(sched: seq<Slot>, n: nat, rounds: nat, run: seq<Net<P>>)
    requires IsRun(sched, n, run)
    ensures |run| - 1 + Work(sched, rounds, run[|run| - 1]) <= n * (6 * |sched| + rounds)
  {
    var t := |run| - 1;
    if t == 0 {
      InitialWork<P>(sched, rounds, n);
    } else {
      WorkOverRun(sched, n, rounds, run[..t]);
      assert NetStep(sched, run[t - 1], run[t]);
      var i :| Step(sched, run[t - 1], run[t], i);
      StepWorks(sched, rounds, run[t - 1], run[t], i);
    }
  }

  /** No run has more steps than this, so with `NoDeadlock` every run that is not cut short finishes. */
  lemma RunsEnd<P(!new)>(sched: seq<Slot>, n: nat, rounds: nat, run: seq<Net<P>>)
    requires ValidSchedule(sched, n) && RoundsBound(sched, rounds) && IsRun(sched, n, run)
    ensures |run| - 1 <= n * (6 * |sched| + rounds)
  {
    RunKeepsInv(sched, n, run);
    WorkNonNegative(sched, rounds, run[|run| - 1]);
    WorkOverRun(sched, n, rounds, run);
  }

  // ---- rounds match ----

  /**
   In every reachable state each node has handed its application exactly one payload per exchange
   done so far, and each is the payload its peer produced for that round.
   */
  lemma RoundsMatch<P(!new)>(sched: seq<Slot>, n: nat, run: seq<Net<P>>, j: nat)
    requires ValidSchedule(sched, n) && IsRun(sched, n, run) && j < n
    ensures var s := run[|run| - 1];
            |s| == n && Matched(sched, s, j) && s[j].slot <= |sched| && ReceiptsInv(sched, s[j], j)
  {
    RunKeepsInv(sched, n, run);
    assert NodeInv(sched, run[|run| - 1][j], j);
  }

  lemma {:induction false} IncidentIff(sched: seq<Slot>, i: nat, k: nat, q: nat)
    requires k <= |sched|
    ensures q in Incident(sched, i, k) <==> q < k && Touches(sched[q].edge, i)
  {
    if k > 0 {
      IncidentIff(sched, i, k - 1, q);
    }
  }

  lemma {:induction false} ExchangesIff(sched: seq<Slot>, i: nat, j: nat, k: nat, q: nat)
    requires k <= |sched|
    ensures q in Exchanges(sched, i, j, k) <==> q < k && Connects(sched[q].edge, i, j)
  {
    if k > 0 {
      ExchangesIff(sched, i, j, k - 1, q);
    }
  }

  /** Slot `k` has brought this node a payload exactly when the node is past it, or past its receiving half. */
  lemma ReceiptIff<P>(sched: seq<Slot>, nd: Node<P>, i: nat, k: nat)
    requires NodeInv(sched, nd, i) && k < |sched| && Touches(sched[k].edge, i)
    ensures k in ReceivedSlots(nd) <==> k < nd.slot || (k == nd.slot && nd.half && i == sched[k].edge.b)
  {
    IncidentIff(sched, i, nd.slot, k);
  }

  /** The node named first speaks first: it has its peer's payload only when the peer already has its own. */
  lemma FirstNamedSpeaksFirst<P(!new)>(sched: seq<Slot>, n: nat, run: seq<Net<P>>, k: nat)
    requires ValidSchedule(sched, n) && IsRun(sched, n, run) && k < |sched|
    ensures var s, e := run[|run| - 1], sched[k].edge;
            |s| == n && (k in ReceivedSlots(s[e.a]) ==> k in ReceivedSlots(s[e.b]))
  {
    RunKeepsInv(sched, n, run);
    var s, a, b := run[|run| - 1], sched[k].edge.a, sched[k].edge.b;
    assert NodeInv(sched, s[a], a) && NodeInv(sched, s[b], b) && PairInv(sched, s[b], s[a], b, a);
    if k in ReceivedSlots(s[a]) {
      ReceiptIff(sched, s[a], a, k);
      ExchangesIff(sched, b, a, s[a].slot, k);
      assert k in Done(sched, s[a], b, a);
      assert k in Done(sched, s[b], b, a);
      ExchangesIff(sched, b, a, s[b].slot, k);
      ReceiptIff(sched, s[b], b, k);
    }
  }

  lemma FinishedPair<P>(sched: seq<Slot>, sender: Node<P>, receiver: Node<P>, i: nat, j: nat)
    requires PairInv(sched, sender, receiver, i, j) && sender.slot == receiver.slot == |sched|
    ensures Flight(receiver, i) == []
  {
    assert Done(sched, sender, i, j) == Exchanges(sched, i, j, |sched|) == Done(sched, receiver, i, j);
  }

  lemma FinishedReceipts<P>(sched: seq<Slot>, nd: Node<P>, j: nat)
    requires nd.slot == |sched| && ReceiptsInv(sched, nd, j)
    ensures ReceivedSlots(nd) == Incident(sched, j, |sched|)
  {
    assert Incident(sched, j, |sched|) + [] == Incident(sched, j, |sched|);
  }

  // ---- every frame has a sender ----

  /** The frames queued at node `i` and buffered there come from other nodes. */
  ghost predicate FromOthers<P>(nd: Node<P>, i: nat, n: nat) {
    && (forall f | f in nd.queue :: f.src < n && f.src != i)
    && (forall k | k in nd.inbox :: k < n && k != i)
  }

  ghost predicate SendersInv<P>(s: Net<P>) {
    forall i | 0 <= i < |s| :: FromOthers(s[i], i, |s|)
  }

  lemma BufferedFromOthers<P>(nd: Node<P>, nd': Node<P>, i: nat, n: nat, bufs: seq<P>)
    requires FromOthers(nd, i, n) && nd.queue != []
    requires nd'.queue == nd.queue[1..]
    requires nd'.inbox == nd.inbox || nd'.inbox == nd.inbox[nd.queue[0].src := bufs]
    ensures FromOthers(nd', i, n)
  {
    assert nd.queue[0] in nd.queue;
  }

  lemma AcceptKeepsSenders<P>(sched: seq<Slot>, s: Net<P>, s': Net<P>, i: nat)
    requires SendersInv(s) && AcceptStep(sched, s, s', i)
    ensures SendersInv(s')
  {
    var f := s[i].queue[0];
    BufferedFromOthers(s[i], s'[i], i, |s|, Buffered(s[i], f.src) + [f.buf]);
  }

  lemma StepKeepsSenders<P(!new)>(sched: seq<Slot>, s: Net<P>, s': Net<P>, i: nat)
    requires SendersInv(s) && Step(sched, s, s', i)
    ensures |s'| == |s| && SendersInv(s')
  {
    if ProduceStep(sched, s, s', i) {
      var p :| Produces(sched, s, s', i, p);
    } else if AcceptStep(sched, s, s', i) {
      AcceptKeepsSenders(sched, s, s', i);
    }
  }

  lemma {:induction false} RunKeepsSenders<P(!new)>(sched: seq<Slot>, n: nat, run: seq<Net<P>>)
    requires IsRun(sched, n, run)
    ensures |run[|run| - 1]| == n && SendersInv(run[|run| - 1])
  {
    var t := |run| - 1;
    if t > 0 {
      RunKeepsSenders(sched, n, run[..t]);
      assert NetStep(sched, run[t - 1], run[t]);
      var i :| Step(sched, run[t - 1], run[t], i);
      StepKeepsSenders(sched, run[t - 1], run[t], i);
    }
  }

  lemma NothingInFlight<P>(nd: Node<P>, i: nat, n: nat)
    requires FromOthers(nd, i, n) && forall k: nat | k < n && k != i :: Flight(nd, k) == []
    ensures nd.queue == [] && forall k | k in nd.inbox :: nd.inbox[k] == []
  {
    assert nd.queue != [] ==> nd.queue[0] in nd.queue && Flight(nd, nd.queue[0].src) != [];
    forall k | k in nd.inbox
      ensures nd.inbox[k] == []
    {
      assert Flight(nd, k) == [];
    }
  }

  /** When all nodes have finished, every exchange has delivered both ways and no frame is left, queued or buffered. */
  lemma NothingLeftOver<P(!new)>(sched: seq<Slot>, n: nat, run: seq<Net<P>>, j: nat)
    requires ValidSchedule(sched, n) && IsRun(sched, n, run) && Finished(sched, run[|run| - 1]) && j < n
    ensures var s := run[|run| - 1];
            && |s| == n && ReceivedSlots(s[j]) == Incident(sched, j, |sched|)
            && s[j].queue == [] && forall k | k in s[j].inbox :: s[j].inbox[k] == []
  {
    RoundsMatch(sched, n, run, j);
    RunKeepsInv(sched, n, run);
    RunKeepsSenders(sched, n, run);
    var s := run[|run| - 1];
    forall i: nat | i < n && i != j
      ensures Flight(s[j], i) == []
    {
      assert PairInv(sched, s[i], s[j], i, j);
      FinishedPair(sched, s[i], s[j], i, j);
    }
    NothingInFlight(s[j], j, n);
    FinishedReceipts(sched, s[j], j);
  }

  lemma {:induction false} RoundsMonotone(sched: seq<Slot>, n: nat, k: nat, l: nat)
    requires ValidSchedule(sched, n) && k <= l < |sched|
    ensures sched[k].round <= sched[l].round
  {
    if k < l {
      RoundsMonotone(sched, n, k, l - 1);
    }
  }

  /** A node that is two rounds in has taken last round's payload from each neighbour, which has therefore begun it. */
  lemma RoundTaken<P>(sched: seq<Slot>, n: nat, nd: Node<P>, other: Node<P>, i: nat, j: nat, k: nat)
    requires ValidSchedule(sched, n) && NodeInv(sched, nd, i) && PairInv(sched, other, nd, j, i)
    requires k < |sched| && Connects(sched[k].edge, i, j) && sched[k].round + 2 <= |nd.produced|
    ensures sched[k].round < |other.produced|
  {
    if nd.slot <= k {
      RoundsMonotone(sched, n, nd.slot, k);
    }
    ExchangesGrow(sched, j, i, k + 1, nd.slot);
    var taken, sent := Done(sched, nd, j, i), Done(sched, other, j, i);
    var m := |Exchanges(sched, j, i, k)|;
    assert Exchanges(sched, j, i, k + 1)[m] == k;
    assert taken[m] == k && sent[m] == k;
  }

  // ---- the schedule of the repository: the edge list, once per round ----

  ghost predicate ValidEdges(edges: seq<Edge>, n: nat) {
    forall e | 0 <= e < |edges| :: edges[e].a < n && edges[e].b < n && edges[e].a != edges[e].b
  }

  /** One more round at the end of a schedule. */
  lemma RoundAppended(s: seq<Slot>, edges: seq<Edge>, n: nat, r: nat, t: seq<Slot>)
    requires ValidEdges(edges, n) && ValidSchedule(s, n) && RoundsBound(s, r)
    requires if s == [] then r == 0 || edges == [] else s[|s| - 1].round == r - 1
    requires t == s + seq(|edges|, e requires 0 <= e < |edges| => Slot(edges[e], r))
    ensures ValidSchedule(t, n) && RoundsBound(t, r + 1)
    ensures edges != [] ==> t != [] && t[|t| - 1].round == r
  {
    forall k | |s| <= k < |t|
      ensures t[k] == Slot(edges[k - |s|], r)
    {
    }
  }

  lemma {:induction false} ScheduleIsValid(edges: seq<Edge>, n: nat, rounds: nat)
    requires ValidEdges(edges, n)
    ensures ValidSchedule(Schedule(edges, rounds), n) && RoundsBound(Schedule(edges, rounds), rounds)
    ensures rounds > 0 && |edges| > 0 ==>
              |Schedule(edges, rounds)| > 0
              && Schedule(edges, rounds)[|Schedule(edges, rounds)| - 1].round == rounds - 1
    ensures rounds == 0 || edges == [] ==> Schedule(edges, rounds) == []
  {
    if rounds > 0 {
      ScheduleIsValid(edges, n, rounds - 1);
      RoundAppended(Schedule(edges, rounds - 1), edges, n, rounds - 1, Schedule(edges, rounds));
    }
  }

  /** Round by round the schedule runs through the edges in their order. */
  lemma {:induction false} EveryEdgeEveryRound(edges: seq<Edge>, rounds: nat, e: nat, r: nat) returns (k: nat)
    requires e < |edges| && r < rounds
    ensures k == r * |edges| + e
    ensures k < |Schedule(edges, rounds)| && Schedule(edges, rounds)[k] == Slot(edges[e], r)
  {
    if r == rounds - 1 {
      k := |Schedule(edges, r)| + e;
    } else {
      k := EveryEdgeEveryRound(edges, rounds - 1, e, r);
    }
  }

  /** Neighbours never drift more than one round apart. */
  lemma NeighboursWithinOneRound<P(!new)>(edges: seq<Edge>, n: nat, rounds: nat, run: seq<Net<P>>, e: nat, i: nat,
                                          j: nat)
    requires ValidEdges(edges, n) && IsRun(Schedule(edges, rounds), n, run)
    requires e < |edges| && Connects(edges[e], i, j)
    ensures var s := run[|run| - 1]; |s| == n && |s[i].produced| <= |s[j].produced| + 1
  {
    var sched, s := Schedule(edges, rounds), run[|run| - 1];
    ScheduleIsValid(edges, n, rounds);
    RunKeepsInv(sched, n, run);
    assert PairInv(sched, s[j], s[i], j, i) && NodeInv(sched, s[i], i);
    if |s[i].produced| >= 2 {
      ProducedWithinRounds(sched, rounds, s[i], i);
      var k := EveryEdgeEveryRound(edges, rounds, e, |s[i].produced| - 2);
      RoundTaken(sched, n, s[i], s[j], i, j, k);
    }
  }

  lemma ProducedWithinRounds<P>(sched: seq<Slot>, rounds: nat, nd: Node<P>, i: nat)
    requires NodeInv(sched, nd, i) && RoundsBound(sched, rounds)
    ensures |nd.produced| <= rounds
  {
  }

  /** The network of the repository: no deadlock, and a bound on the length of every run. */
  lemma ExchangeTerminates<P(!new)>(edges: seq<Edge>, n: nat, rounds: nat, run: seq<Net<P>>, payload: P)
    requires ValidEdges(edges, n) && IsRun(Schedule(edges, rounds), n, run)
    ensures |run| - 1 <= n * (6 * (rounds * |edges|) + rounds)
    ensures var s := run[|run| - 1];
            Finished(Schedule(edges, rounds), s) || SomeNodeCanStep(Schedule(edges, rounds), s)
  {
    ScheduleIsValid(edges, n, rounds);
    RunsEnd(Schedule(edges, rounds), n, rounds, run);
    NoDeadlock(Schedule(edges, rounds), n, run, payload);
  }

  // ---- the receiving end as the object that owns the inbox ----

  class Receiver<P> {
    var inbox: map<nat, seq<P>>
    var backlog: seq<Frame<P>> // the listening socket's accept queue

    /** The payloads from `src` that have arrived and were not taken, oldest first. */
    ghost function Pending(src: nat): seq<P>
      reads this
    {
      Flight(Node(0, false, [], inbox, backlog, []), src)
    }

    constructor ()
      ensures inbox == map[] && backlog == []
    {
      inbox, backlog := map[], [];
    }

    /** Another node connects, sends one frame and closes. */
    method Arrive(src: nat, buf: P)
      modifies this`backlog
      ensures backlog == old(backlog) + [Frame(src, buf)]
      ensures Pending(src) == old(Pending(src)) + [buf]
      ensures forall other: nat | other != src :: Pending(other) == old(Pending(other))
    {
      forall from: nat
        ensures FromQueue(backlog + [Frame(src, buf)], from)
             == FromQueue(backlog, from) + if from == src then [buf] else []
      {
        FromQueueSnoc(backlog, Frame(src, buf), from);
      }
      backlog := backlog + [Frame(src, buf)];
    }

    /**
     The next frame from `pid`: a buffered one, else the first of its frames to be accepted, every
     frame from another sender being buffered on the way. Without any the call would block here;
     it then returns nothing, with all that has arrived moved to the inbox.
     */
    method Recv(pid: nat) returns (got: Option<P>)
      modifies this
      ensures forall src: nat | src != pid :: Pending(src) == old(Pending(src))
      ensures got == None ==> old(Pending(pid)) == [] && Pending(pid) == []
      ensures got.Some? ==> old(Pending(pid)) == [got.value] + Pending(pid)
    {
      if pid in inbox && inbox[pid] != [] {
        got := Some(inbox[pid][0]);
        inbox := inbox[pid := inbox[pid][1..]];
        return;
      }
      while backlog != []
        invariant pid in inbox ==> inbox[pid] == []
        invariant forall src: nat :: Pending(src) == old(Pending(src))
        decreases |backlog|
      {
        var f := backlog[0];
        label accepted:
        backlog := backlog[1..];
        if f.src == pid {
          return Some(f.buf);
        }
        inbox := inbox[f.src := (if f.src in inbox then inbox[f.src] else []) + [f.buf]];
        assert forall src: nat :: Pending(src) == old@accepted(Pending(src));
      }
      got := None;
    }
  }
}
