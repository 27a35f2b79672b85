/** A whole transfer between two simulated LoRa radios on one lossy medium. */
module LoraTransfer {
  import opened Octets
  import opened Options
  import opened Chunks
  import opened LoraFraming

  const MTU := 255

  // ---- the simulated medium ----

  /** Whether a frame decodes: surely 3 dB above the floor, never 3 dB below it, and by chance between. */
  function Decodes(margin: real, draw: real): bool {
    if margin >= 3.0 then true
    else if margin <= -3.0 then false
    else draw < (margin + 3.0) / 6.0
  }

  /** Between the two edges the chance rises linearly: a draw from [0, 1) decodes exactly above its own margin. */
  lemma DecodesIffAbove(margin: real, draw: real)
    requires 0.0 <= draw < 1.0
    ensures Decodes(margin, draw) <==> margin > 6.0 * draw - 3.0
  {
    var p := (margin + 3.0) / 6.0;
    assert 6.0 * p == margin + 3.0;
  }

  class SimRadio {
    const mtu: nat := MTU
    const snrFloor: real // of its spreading factor
    const toa: nat -> real // time on air by frame length
    var inbox: seq<Bytes>
    var nTx: nat
    var nRx: nat
    var nLost: nat
    var airtime: real

    constructor (snrFloor: real, toa: nat -> real)
      ensures inbox == [] && nTx == nRx == nLost == 0 && airtime == 0.0 && this.snrFloor == snrFloor && this.toa == toa
    {
      this.snrFloor, this.toa := snrFloor, toa;
      inbox, nTx, nRx, nLost, airtime := [], 0, 0, 0, 0.0;
    }

    /** Refuses a frame longer than the MTU, and then nothing changes. */
    method Send(medium: SimMedium, data: Bytes) returns (sent: bool, t: real)
      requires medium.Valid() && this in medium.radios
      modifies medium`nFrames, medium`nDropped, medium`clock, medium.radios
      ensures sent <==> |data| <= mtu
      ensures t == if sent then toa(|data|) else 0.0
      ensures medium.Valid() && medium.nFrames == old(medium.nFrames) + if sent then 1 else 0
      ensures medium.clock == old(medium.clock) + t
      ensures var missed := Missed(medium.Fate(this), old(medium.nFrames), medium.radios, this);
              medium.nDropped == old(medium.nDropped) + if sent then |missed| else 0
      ensures forall j | 0 <= j < |medium.radios| ::
                var r, decoded := medium.radios[j], medium.Fate(this)(old(medium.nFrames), j);
                && r.inbox == old(r.inbox) + (if sent && r != this && decoded then [data] else [])
                && r.nLost == old(r.nLost) + (if sent && r != this && !decoded then 1 else 0)
      ensures forall r <- medium.radios ::
                && r.nRx == old(r.nRx) && r.nTx == old(r.nTx) + (if sent && r == this then 1 else 0)
                && r.airtime == old(r.airtime) + if r == this then t else 0.0
    {
      if |data| > mtu {
        return false, 0.0;
      }
      t := medium.Carry(this, data);
      nTx := nTx + 1;
      airtime := airtime + t;
      return true, t;
    }

    /** A frame reaches this radio: nothing to hear of its own transmission, else decoded or lost. */
    method Hear(data: Bytes, draw: Draw)
      modifies this`inbox, this`nLost
      ensures inbox == old(inbox) + (if draw == Decoded then [data] else [])
      ensures nLost == old(nLost) + (if draw == Dropped then 1 else 0)
    {
      match draw {
        case Own =>
        case Decoded => inbox := inbox + [data];
        case Dropped => nLost := nLost + 1;
      }
    }

    method Recv() returns (got: Option<Bytes>)
      modifies this
      ensures if old(inbox) == [] then got == None && inbox == [] && nRx == old(nRx)
              else got == Some(old(inbox)[0]) && inbox == old(inbox)[1..] && nRx == old(nRx) + 1
      ensures nTx == old(nTx) && nLost == old(nLost) && airtime == old(airtime)
    {
      if inbox == [] {
        return None;
      }
      got, inbox, nRx := Some(inbox[0]), inbox[1..], nRx + 1;
    }
  }

  // What one transmission is to one radio: its own, decoded, or lost.
  datatype Draw = Own | Decoded | Dropped

  function Drops(draws: seq<Draw>): nat {
    if draws == [] then 0 else Drops(draws[..|draws| - 1]) + if draws[|draws| - 1] == Dropped then 1 else 0
  }

  lemma {:induction false} DropsCount(draws: seq<Draw>)
    ensures Drops(draws) == |set j: nat | j < |draws| && draws[j] == Dropped|
  {
    if draws != [] {
      var n := |draws| - 1;
      DropsCount(draws[..n]);
      var front := set j: nat | j < n && draws[..n][j] == Dropped;
      var all := set j: nat | j < |draws| && draws[j] == Dropped;
      assert all == if draws[n] == Dropped then front + {n} else front;
    }
  }

  function Draws(fate: (nat, nat) -> bool, t: nat, radios: seq<SimRadio>, src: SimRadio): (draws: seq<Draw>)
    ensures |draws| == |radios|
  {
    seq(|radios|, j requires 0 <= j < |radios| =>
          if radios[j] == src then Own else if fate(t, j) then Decoded else Dropped)
  }

  /** The radios that lose transmission `t` of `src`. */
  function Missed(fate: (nat, nat) -> bool, t: nat, radios: seq<SimRadio>, src: SimRadio): set<nat> {
    set j | 0 <= j < |radios| && radios[j] != src && !fate(t, j)
  }

  lemma DrawsAre(fate: (nat, nat) -> bool, t: nat, radios: seq<SimRadio>, src: SimRadio, draws: seq<Draw>)
    requires draws == Draws(fate, t, radios, src)
    ensures forall j | 0 <= j < |radios| :: draws[j] == Decoded <==> radios[j] != src && fate(t, j)
    ensures forall j | 0 <= j < |radios| :: draws[j] == Dropped <==> radios[j] != src && !fate(t, j)
    ensures Drops(draws) == |Missed(fate, t, radios, src)|
  {
    DropsCount(draws);
    assert Missed(fate, t, radios, src) == set j: nat | j < |draws| && draws[j] == Dropped;
  }

  method Deliver(radios: seq<SimRadio>, draws: seq<Draw>, data: Bytes) returns (drops: nat)
    requires |draws| == |radios| && forall i, j | 0 <= i < j < |radios| :: radios[i] != radios[j]
    modifies radios`inbox, radios`nLost
    ensures drops == Drops(draws)
    ensures forall j | 0 <= j < |radios| ::
              && radios[j].inbox == old(radios[j].inbox) + (if draws[j] == Decoded then [data] else [])
              && radios[j].nLost == old(radios[j].nLost) + (if draws[j] == Dropped then 1 else 0)
  {
    drops := 0;
    for i := 0 to |radios|
      invariant drops == Drops(draws[..i])
      invariant forall j | 0 <= j < |radios| ::
                  && radios[j].inbox == old(radios[j].inbox) + (if j < i && draws[j] == Decoded then [data] else [])
                  && radios[j].nLost == old(radios[j].nLost) + (if j < i && draws[j] == Dropped then 1 else 0)
    {
      assert draws[..i + 1][..i] == draws[..i];
      radios[i].Hear(data, draws[i]);
      if draws[i] == Dropped {
        drops := drops + 1;
      }
    }
    assert draws[..|radios|] == draws;
  }

  class SimMedium {
    const snrDb: real
    // The random number for the t-th transmission at radio j.
    const draws: (nat, nat) -> real
    var radios: seq<SimRadio>
    var nFrames: nat
    var nDropped: nat
    var clock: real

    constructor (snrDb: real, draws: (nat, nat) -> real, radios: seq<SimRadio>)
      requires forall i, j | 0 <= i < j < |radios| :: radios[i] != radios[j]
      ensures Valid() && this.snrDb == snrDb && this.draws == draws && this.radios == radios
      ensures nFrames == nDropped == 0 && clock == 0.0
    {
      this.snrDb, this.draws, this.radios, nFrames, nDropped, clock := snrDb, draws, radios, 0, 0, 0.0;
    }

    ghost predicate Valid()
      reads this
    {
      forall i, j | 0 <= i < j < |radios| :: radios[i] != radios[j]
    }

    /** Whether a transmission of `src` decodes, by its number and the radio. */
    function Fate(src: SimRadio): (nat, nat) -> bool {
      (t: nat, j: nat) => Decodes(snrDb - src.snrFloor, draws(t, j))
    }

    /** One transmission: its airtime is charged, and every other radio either hears the frame or loses it. */
    method Carry(src: SimRadio, data: Bytes) returns (t: real)
      requires Valid()
      modifies this`nFrames, this`nDropped, this`clock, radios`inbox, radios`nLost
      ensures Valid() && nFrames == old(nFrames) + 1 && t == src.toa(|data|) && clock == old(clock) + t
      ensures forall j | 0 <= j < |radios| ::
                var r, decoded := radios[j], Fate(src)(old(nFrames), j);
                && r.inbox == old(r.inbox) + (if r != src && decoded then [data] else [])
                && r.nLost == old(r.nLost) + (if r != src && !decoded then 1 else 0)
      ensures nDropped == old(nDropped) + |Missed(Fate(src), old(nFrames), radios, src)|
    {
      t := src.toa(|data|);
      clock := clock + t;
      var draws := Draws(Fate(src), nFrames, radios, src);
      nFrames := nFrames + 1;
      var drops := Deliver(radios, draws, data);
      nDropped := nDropped + drops;
      DrawsAre(Fate(src), old(nFrames), radios, src, draws);
    }
  }

  // ---- what the random draws decide ----

  /** The first of the `max` transmissions from number `t` on that decodes at the receiving radio. */
  function FirstHit(hits: nat -> bool, t: nat, max: nat): (h: Option<nat>)
    ensures h.Some? ==> t <= h.value < t + max && hits(h.value) && forall u | t <= u < h.value :: !hits(u)
    ensures h.None? ==> forall u | t <= u < t + max :: !hits(u)
    decreases max
  {
    if max == 0 then None else if hits(t) then Some(t) else FirstHit(hits, t + 1, max - 1)
  }

  /** The number of transmissions on the medium once the first `n` fragments got through, if they all do. */
  function Through(hits: nat -> bool, t: nat, n: nat, max: nat): (u: Option<nat>)
    ensures u.Some? ==> u.value >= t + n
    decreases n
  {
    if n == 0 then Some(t)
    else match Through(hits, t, n - 1, max)
      case None => None
      case Some(u) => if FirstHit(hits, u, max).Some? then Some(FirstHit(hits, u, max).value + 1) else None
  }

  function HitsOf(margin: real, draws: nat -> real): nat -> bool {
    (t: nat) => Decodes(margin, draws(t))
  }

  // ---- the channel ----

  // `Rejected`: the data needs more fragments than can be numbered; nothing is sent.
  datatype Transferred = Rejected | Done(data: Bytes, crcOk: bool, frags: nat, retx: nat, airtime: real)

  datatype Totals = Totals(msgs: nat, frags: nat, retx: nat, lost: nat, airtime: real)

  /** The airtime of `n` transmissions of one frame. */
  function Airtime(n: nat, toa: real): real {
    if n == 0 then 0.0 else Airtime(n - 1, toa) + toa
  }

  class LoRaChannel {
    const maxAttempts: nat
    const medium: SimMedium
    const tx: SimRadio
    const rx: SimRadio
    var msgId: Byte
    var total: Totals

    ghost predicate Valid()
      reads this, medium
    {
      tx != rx && medium.radios == [tx, rx]
    }

    constructor (snrDb: real, draws: (nat, nat) -> real, snrFloor: real, toa: nat -> real, maxAttempts: nat)
      ensures Valid() && this.maxAttempts == maxAttempts && rx.inbox == []
      ensures medium.snrDb == snrDb && medium.draws == draws && tx.snrFloor == snrFloor && tx.toa == toa
      ensures msgId == 0 && total == Totals(0, 0, 0, 0, 0.0)
    {
      var a := new SimRadio(snrFloor, toa);
      var b := new SimRadio(snrFloor, toa);
      var m := new SimMedium(snrDb, draws, [a, b]);
      tx, rx, medium := a, b, m;
      this.maxAttempts, msgId, total := maxAttempts, 0, Totals(0, 0, 0, 0, 0.0);
    }

    /** Which transmissions decode at the peer. */
    ghost function Hits(): nat -> bool {
      HitsOf(medium.snrDb - tx.snrFloor, (t: nat) => medium.draws(t, 1))
    }

    /** An airtime of `t` has been charged to the medium's clock and to the sender. */
    ghost predicate Charged(clock: real, airtime: real, t: real)
      reads medium, tx
    {
      medium.clock == clock + t && tx.airtime == airtime + t
    }

    /** One transmission, and what the peer reads afterwards. */
    method Attempt(frame: Bytes) returns (got: Option<Bytes>, t: real)
      requires Valid() && rx.inbox == [] && |frame| <= MTU
      modifies medium`nFrames, medium`nDropped, medium`clock, tx, rx
      ensures Valid() && rx.inbox == [] && medium.nFrames == old(medium.nFrames) + 1
      ensures got == if Hits()(old(medium.nFrames)) then Some(frame) else None
      ensures t == tx.toa(|frame|) && Charged(old(medium.clock), old(tx.airtime), t)
    {
      var sent;
      sent, t := tx.Send(medium, frame);
      assert medium.radios[1] == rx;
      got := rx.Recv();
    }

    /** One fragment: sent until it decodes at the peer, up to the limit. */
    method SendFragment(frame: Bytes) returns (got: Option<Bytes>, retx: nat, airtime: real)
      requires Valid() && rx.inbox == [] && |frame| <= MTU
      modifies medium`nFrames, medium`nDropped, medium`clock, tx, rx
      ensures Valid() && rx.inbox == []
      ensures var h := FirstHit(Hits(), old(medium.nFrames), maxAttempts);
              && got == (if h.Some? then Some(frame) else None)
              && medium.nFrames == (if h.Some? then h.value + 1 else old(medium.nFrames) + maxAttempts)
              && medium.nFrames - old(medium.nFrames) == retx + (if maxAttempts > 0 then 1 else 0)
      ensures airtime == Airtime(medium.nFrames - old(medium.nFrames), tx.toa(|frame|))
      ensures Charged(old(medium.clock), old(tx.airtime), airtime)
    {
      retx, airtime := 0, 0.0;
      ghost var t, hits := medium.nFrames, Hits();
      for attempt := 0 to maxAttempts
        invariant Valid() && rx.inbox == [] && medium.nFrames == t + attempt
        invariant FirstHit(hits, t, maxAttempts) == FirstHit(hits, t + attempt, maxAttempts - attempt)
        invariant retx == if attempt == 0 then 0 else attempt - 1
        invariant airtime == Airtime(attempt, tx.toa(|frame|)) && Charged(old(medium.clock), old(tx.airtime), airtime)
      {
        var toa;
        got, toa := Attempt(frame);
        airtime := airtime + toa;
        if attempt > 0 {
          retx := retx + 1;
        }
        if got.Some? {
          return;
        }
      }
      got := None;
    }

    /** One fragment sent and collected. */
    method SendOne(frame: Bytes, asm: Reassembler, ghost chunks: seq<Bytes>, ghost mid: Byte, ghost i: nat,
                   ghost t: nat)
      returns (ok: bool, retx: nat, airtime: real)
      requires Valid() && rx.inbox == [] && |frame| <= MTU && IsFragment(frame, chunks, mid, i)
      requires Collected(asm.State(), chunks, mid, i) && Through(Hits(), t, i, maxAttempts) == Some(medium.nFrames)
      modifies medium`nFrames, medium`nDropped, medium`clock, tx, rx, asm
      ensures Valid() && rx.inbox == []
      ensures Through(Hits(), t, i + 1, maxAttempts) == if ok then Some(medium.nFrames) else None
      ensures ok ==> Collected(asm.State(), chunks, mid, i + 1)
      ensures medium.nFrames - old(medium.nFrames) == retx + (if maxAttempts > 0 then 1 else 0)
      ensures Charged(old(medium.clock), old(tx.airtime), airtime)
    {
      var got;
      got, retx, airtime := SendFragment(frame);
      ok := got.Some?;
      if ok {
        Collect(got.value, asm, chunks, mid, i);
      }
    }

    /** Every fragment in turn, reassembled at the peer, until one does not get through. */
    method SendAll(frames: seq<Bytes>, asm: Reassembler, ghost chunks: seq<Bytes>, ghost mid: Byte)
      returns (ok: bool, retx: nat, airtime: real, ghost attempted: nat)
      requires Valid() && rx.inbox == [] && asm.State() == EMPTY
      requires forall i | 0 <= i < |frames| :: |frames[i]| <= MTU && IsFragment(frames[i], chunks, mid, i)
      modifies medium`nFrames, medium`nDropped, medium`clock, tx, rx, asm
      ensures Valid() && rx.inbox == []
      ensures Reached(Hits(), old(medium.nFrames), |frames|, maxAttempts, ok, attempted)
      ensures ok ==> Collected(asm.State(), chunks, mid, |frames|)
      ensures medium.nFrames - old(medium.nFrames) == retx + (if maxAttempts > 0 then attempted else 0)
      ensures Charged(old(medium.clock), old(tx.airtime), airtime)
    {
      ok, retx, airtime, attempted := true, 0, 0.0, 0;
      ghost var t, hits := medium.nFrames, Hits();
      var i := 0;
      while i < |frames| && ok
        invariant Valid() && rx.inbox == [] && i <= |frames| && attempted == i
        invariant medium.nFrames - t == retx + (if maxAttempts > 0 then attempted else 0)
        invariant Charged(old(medium.clock), old(tx.airtime), airtime)
        invariant ok ==> Through(hits, t, i, maxAttempts) == Some(medium.nFrames)
        invariant ok ==> Collected(asm.State(), chunks, mid, i)
        invariant !ok ==> Reached(hits, t, |frames|, maxAttempts, false, attempted)
        decreases |frames| - i
      {
        var again, more;
        ok, again, more := SendOne(frames[i], asm, chunks, mid, i, t);
        if !ok {
          StoppedAt(hits, t, i, |frames|, maxAttempts);
        }
        retx, airtime, i, attempted := retx + again, airtime + more, i + 1, attempted + 1;
      }
    }

    /** Hands a received frame to the reassembler. */
    method Collect(frame: Bytes, asm: Reassembler, ghost chunks: seq<Bytes>, ghost mid: Byte, ghost i: nat)
      requires IsFragment(frame, chunks, mid, i) && Collected(asm.State(), chunks, mid, i)
      modifies asm
      ensures Collected(asm.State(), chunks, mid, i + 1)
    {
      var p := Parse(frame);
      if p.Some? && p.value.Data? {
        var done := asm.Add(p.value.msgId, p.value.idx, p.value.nFrags, p.value.payload);
      }
    }

    /** Carries the whole buffer to the peer, or nothing. */
    method Transfer(buf: Bytes) returns (result: Transferred, ghost attempted: nat)
      requires Valid() && rx.inbox == []
      modifies this`msgId, this`total, medium`nFrames, medium`nDropped, medium`clock, tx, rx
      ensures Valid() && rx.inbox == [] && msgId == (old(msgId) + 1) % 256
      ensures result.Rejected? <==> |buf| > MAX_FRAGS * (MTU - HDR_LEN)
      ensures result.Rejected? ==> medium.nFrames == old(medium.nFrames) && medium.clock == old(medium.clock)
      ensures result.Rejected? ==> total == old(total)
      ensures result.Done? ==>
                && result.frags == |Payloads(buf, MTU - HDR_LEN)|
                && Reached(Hits(), old(medium.nFrames), result.frags, maxAttempts, result.crcOk, attempted)
                && result.data == (if result.crcOk then buf else [])
                && medium.nFrames - old(medium.nFrames) == result.retx + (if maxAttempts > 0 then attempted else 0)
                && Charged(old(medium.clock), old(tx.airtime), result.airtime)
                && total == Totals(old(total).msgs + 1, old(total).frags + result.frags, old(total).retx + result.retx,
                                   old(total).lost + (if result.crcOk then 0 else 1),
                                   old(total).airtime + result.airtime)
    {
      msgId := Low8(msgId + 1);
      var frames := Prepare(buf, msgId, MTU);
      if frames.None? {
        return Rejected, 0;
      }
      ghost var chunks := Payloads(buf, MTU - HDR_LEN);
      var asm := new Reassembler();
      var ok, retx, airtime;
      ok, retx, airtime, attempted := SendAll(frames.value, asm, chunks, msgId);
      var status := Incomplete;
      if ok {
        CollectedAll(asm.State(), chunks, msgId);
        status := asm.CheckComplete();
      }
      var crcOk := status.Complete? && |status.data| >= |buf|;
      total := Totals(total.msgs + 1, total.frags + |frames.value|, total.retx + retx,
                      total.lost + (if crcOk then 0 else 1), total.airtime + airtime);
      result := Done(if crcOk then status.data[..|buf|] else [], crcOk, |frames.value|, retx, airtime);
    }
  }

  // ---- above and below the decoding edge ----

  /**
   * On a channel, a draw from [0, 1) lets a transmission through exactly when the link is that far above the floor of
   * the sender, on a scale that runs from 3 dB below it to 3 dB above.
   */
  lemma GetsThroughIff(channel: LoRaChannel, t: nat)
    requires 0.0 <= channel.medium.draws(t, 1) < 1.0
    ensures channel.Hits()(t)
       <==> channel.medium.snrDb > channel.tx.snrFloor + 6.0 * channel.medium.draws(t, 1) - 3.0
  {
    DecodesIffAbove(channel.medium.snrDb - channel.tx.snrFloor, channel.medium.draws(t, 1));
  }

  /** Three decibels above the floor every fragment gets through at its first transmission, if it has one. */
  lemma {:induction false} StrongLinkDelivers(margin: real, draws: nat -> real, t: nat, n: nat, max: nat)
    requires margin >= 3.0 && max > 0
    ensures Through(HitsOf(margin, draws), t, n, max) == Some(t + n)
    decreases n
  {
    if n > 0 {
      StrongLinkDelivers(margin, draws, t, n - 1, max);
    }
  }

  /** Three decibels below it none gets through, whatever the limit. */
  lemma WeakLinkDeliversNothing(margin: real, draws: nat -> real, t: nat, n: nat, max: nat)
    requires margin <= -3.0 && n > 0
    ensures Through(HitsOf(margin, draws), t, n, max).None?
  {
    assert FirstHit(HitsOf(margin, draws), t, max).None?;
    ThroughStops(HitsOf(margin, draws), t, 1, n, max);
  }

  /** `attempted` fragments were sent: all of `n` when they got through, else up to the first that did not. */
  ghost predicate Reached(hits: nat -> bool, t: nat, n: nat, max: nat, ok: bool, attempted: nat) {
    && (ok <==> Through(hits, t, n, max).Some?)
    && attempted <= n
    && (if ok then attempted == n
        else attempted > 0 && Through(hits, t, attempted - 1, max).Some? && Through(hits, t, attempted, max).None?)
  }

  /** The frames of the buffer, unless it needs more of them than can be numbered. */
  method Prepare(buf: Bytes, msgId: Byte, mtu: nat) returns (frames: Option<seq<Bytes>>)
    requires mtu > HDR_LEN
    ensures frames.None? <==> |buf| > MAX_FRAGS * (mtu - HDR_LEN)
    ensures frames.Some? ==>
              var chunks := Payloads(buf, mtu - HDR_LEN);
              && |frames.value| == |chunks| > 0 && Join(chunks) == buf
              && forall i | 0 <= i < |chunks| ::
                   |frames.value[i]| <= mtu && IsFragment(frames.value[i], chunks, msgId, i)
  {
    TooManyIff(buf, msgId, mtu, 0, BROADCAST);
    var fragmented := Fragment(buf, msgId, mtu, 0, BROADCAST);
    if !fragmented.Frames? {
      return None;
    }
    FramesAreFragments(buf, msgId, mtu, fragmented.frames, Payloads(buf, mtu - HDR_LEN));
    return Some(fragmented.frames);
  }

  lemma CollectedAll(a: Assembly, chunks: seq<Bytes>, mid: Byte)
    requires chunks != [] && Collected(a, chunks, mid, |chunks|)
    ensures Status(a) == Complete(Join(chunks))
  {
    TruePartsStatus(a.parts, chunks, mid);
  }

  /** `b` parses as fragment `i`. */
  predicate IsFragment(b: Bytes, chunks: seq<Bytes>, mid: Byte, i: nat) {
    i < |chunks| && Parse(b) == Some(FragmentFrame(chunks, mid, 0, BROADCAST, i))
  }

  lemma FramesJoin(buf: Bytes, msgId: Byte, mtu: nat, frames: seq<Bytes>, chunks: seq<Bytes>)
    requires mtu > HDR_LEN
    requires Fragment(buf, msgId, mtu, 0, BROADCAST) == Frames(frames) && chunks == Payloads(buf, mtu - HDR_LEN)
    ensures |frames| == |chunks| > 0 && Join(chunks) == buf
    ensures forall i | 0 <= i < |chunks| :: |chunks[i]| <= mtu - HDR_LEN
  {
    PayloadsJoin(buf, mtu - HDR_LEN);
  }

  lemma FrameAt(buf: Bytes, msgId: Byte, mtu: nat, frames: seq<Bytes>, chunks: seq<Bytes>, i: nat)
    requires mtu > HDR_LEN
    requires Fragment(buf, msgId, mtu, 0, BROADCAST) == Frames(frames) && chunks == Payloads(buf, mtu - HDR_LEN)
    requires i < |frames| == |chunks|
    ensures Fits16(FragmentFrame(chunks, msgId, 0, BROADCAST, i))
    ensures frames[i] == Wire(FragmentFrame(chunks, msgId, 0, BROADCAST, i))
  {
  }

  lemma FramesAreFragments(buf: Bytes, msgId: Byte, mtu: nat, frames: seq<Bytes>, chunks: seq<Bytes>)
    requires mtu > HDR_LEN
    requires Fragment(buf, msgId, mtu, 0, BROADCAST) == Frames(frames) && chunks == Payloads(buf, mtu - HDR_LEN)
    ensures |frames| == |chunks| > 0 && Join(chunks) == buf
    ensures forall i | 0 <= i < |frames| :: |frames[i]| <= mtu && IsFragment(frames[i], chunks, msgId, i)
  {
    FramesJoin(buf, msgId, mtu, frames, chunks);
    forall i | 0 <= i < |chunks|
      ensures |frames[i]| <= mtu && IsFragment(frames[i], chunks, msgId, i)
    {
      FrameAt(buf, msgId, mtu, frames, chunks, i);
      FrameIsFragment(FragmentFrame(chunks, msgId, 0, BROADCAST, i), mtu, frames[i]);
    }
  }

  lemma FrameIsFragment(f: Frame, mtu: nat, b: Bytes)
    requires Fits16(f) && f.Data? && HDR_LEN + |f.payload| <= mtu && b == Wire(f)
    ensures |b| <= mtu && Parse(b) == Some(f)
  {
    ParseOfWire(f);
  }

  /** The reassembler holds exactly the first `i` fragments. */
  ghost predicate Collected(a: Assembly, chunks: seq<Bytes>, mid: Byte, i: nat) {
    if i == 0 then a == EMPTY
    else
      && a.msgId == Some(mid as nat) && a.nFrags == Some(|chunks|) && TrueParts(a.parts, chunks)
      && forall j :: j in a.parts <==> 0 <= j < i
  }

  lemma StoppedAt(hits: nat -> bool, t: nat, i: nat, n: nat, max: nat)
    requires i < n && Through(hits, t, i, max).Some? && Through(hits, t, i + 1, max).None?
    ensures Reached(hits, t, n, max, false, i + 1)
  {
    ThroughStops(hits, t, i + 1, n, max);
  }

  /** Once a fragment fails, none after it gets through. */
  lemma {:induction false} ThroughStops(hits: nat -> bool, t: nat, i: nat, n: nat, max: nat)
    requires i <= n && Through(hits, t, i, max).None?
    ensures Through(hits, t, n, max).None?
    decreases n
  {
    if i < n {
      ThroughStops(hits, t, i, n - 1, max);
    }
  }
}
