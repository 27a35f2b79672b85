/** The Viterbi decoder: a dynamic program over the 64 trellis states, then a survivor traceback. */
module Viterbi {
  import opened Bits
  import opened ConvolutionalCode

  const NUM_STATES := 64

  // What the demodulator delivers: one bit, or one log-likelihood ratio (positive means 0), per coded bit.
  datatype Received = Hard(bits: seq<Bit>) | Soft(llrs: seq<real>)
  {
    function Symbols(): nat {
      (if Hard? then |bits| else |llrs|) / 2
    }
  }

  /** The metric of a branch that emits `o1` and `o2` at step `t`; lower is better. */
  function Branch(rx: Received, t: nat, o1: Bit, o2: Bit): real
    requires t < rx.Symbols()
  {
    match rx
    case Soft(llrs) =>
      var c1 := if o1 then -llrs[2 * t] else llrs[2 * t];
      var c2 := if o2 then -llrs[2 * t + 1] else llrs[2 * t + 1];
      -(c1 + c2)
    case Hard(bits) =>
      (Value(o1 != bits[2 * t]) + Value(o2 != bits[2 * t + 1])) as real
  }

  // ---- the recurrence ----

  datatype Metric = Unreached | Reached(v: real)

  // The best way found so far into a state, and the predecessor it came from.
  datatype Candidate = Candidate(metric: Metric, pred: nat)

  type Column = c: seq<Metric> | |c| == NUM_STATES
    witness seq(NUM_STATES, i => Unreached)

  // The cost of leaving a given state on a given input bit, at one time step.
  type EdgeCost = (nat, Bit) -> real

  function EdgeCostAt(rx: Received, t: nat): EdgeCost
    requires t < rx.Symbols()
  {
    (p: nat, b: Bit) =>
      if p < NUM_STATES then Branch(rx, t, Out1(FromIndex(p), b), Out2(FromIndex(p), b)) else 0.0
  }

  function EdgeCosts(rx: Received): (costs: seq<EdgeCost>)
    ensures |costs| == rx.Symbols()
  {
    seq(rx.Symbols(), t requires 0 <= t < rx.Symbols() => EdgeCostAt(rx, t))
  }

  function Relax(best: Candidate, pm: Column, cost: EdgeCost, p: nat, b: Bit): Candidate
    requires p < NUM_STATES
  {
    if pm[p].Unreached? then best
    else
      var total := pm[p].v + cost(p, b);
      if best.metric.Unreached? || total < best.metric.v then Candidate(Reached(total), p) else best
  }

  /** The best way into state `n` from the predecessors below `k`; `n` has just two, tried in order. */
  function BestBelow(pm: Column, cost: EdgeCost, n: nat, k: nat): Candidate
    requires n < NUM_STATES
  {
    var p := 2 * (n % 32);
    var none := Candidate(Unreached, 0);
    var one := if k <= p then none else Relax(none, pm, cost, p, n >= 32);
    if k <= p + 1 then one else Relax(one, pm, cost, p + 1, n >= 32)
  }

  /** State `s` competes for just two successors, and wins only against a strictly worse metric. */
  lemma BestBelowNext(pm: Column, cost: EdgeCost, n: nat, s: nat)
    requires n < NUM_STATES && s < NUM_STATES
    ensures BestBelow(pm, cost, n, s + 1)
         == if s / 2 == n % 32 then Relax(BestBelow(pm, cost, n, s), pm, cost, s, n >= 32)
            else BestBelow(pm, cost, n, s)
  {
  }

  function Best(pm: Column, cost: EdgeCost, n: nat): Candidate
    requires n < NUM_STATES
  {
    BestBelow(pm, cost, n, NUM_STATES)
  }

  /** The path metrics after all the time steps whose costs are given. */
  function Metrics(costs: seq<EdgeCost>): Column {
    if costs == [] then seq(NUM_STATES, n => if n == 0 then Reached(0.0) else Unreached)
    else
      var t := |costs| - 1;
      NextMetrics(Metrics(costs[..t]), costs[t])
  }

  function NextMetrics(pm: Column, cost: EdgeCost): (c: Column)
    ensures forall n | 0 <= n < NUM_STATES :: c[n] == Best(pm, cost, n).metric
  {
    seq(NUM_STATES, n requires 0 <= n < NUM_STATES => Best(pm, cost, n).metric)
  }

  type SurvivorRow = r: seq<nat> | |r| == NUM_STATES && forall n | 0 <= n < NUM_STATES :: r[n] < NUM_STATES
    witness seq(NUM_STATES, i => 0)

  function Survivors(pm: Column, cost: EdgeCost): (r: SurvivorRow)
    ensures forall n | 0 <= n < NUM_STATES :: r[n] == Best(pm, cost, n).pred
  {
    seq(NUM_STATES, n requires 0 <= n < NUM_STATES => Best(pm, cost, n).pred)
  }

  function SurvivorTable(costs: seq<EdgeCost>): (table: seq<SurvivorRow>)
    ensures |table| == |costs|
  {
    if costs == [] then []
    else
      var t := |costs| - 1;
      SurvivorTable(costs[..t]) + [Survivors(Metrics(costs[..t]), costs[t])]
  }

  /** The input bits along the survivors that lead to state `n`; each is the top bit of the state it enters. */
  function Walk(table: seq<SurvivorRow>, n: nat): (m: seq<Bit>)
    requires n < NUM_STATES
    ensures |m| == |table|
  {
    if table == [] then []
    else
      var t := |table| - 1;
      Walk(table[..t], table[t][n]) + [n / 32 % 2 == 1]
  }

  /** The whole input along the survivors back from state 0. */
  function BestPath(rx: Received): (m: seq<Bit>)
    ensures |m| == rx.Symbols()
  {
    Walk(SurvivorTable(EdgeCosts(rx)), 0)
  }

  function Decode(rx: Received): (m: seq<Bit>)
    ensures |m| == if rx.Symbols() <= K - 1 then 0 else rx.Symbols() - (K - 1)
  {
    if rx.Symbols() <= K - 1 then [] else BestPath(rx)[..rx.Symbols() - (K - 1)]
  }

  // ---- the decoder ----

  datatype TrellisEdge = TrellisEdge(nextState: nat, out1: Bit, out2: Bit)

  function EdgeOf(s: nat, b: Bit): TrellisEdge
    requires s < NUM_STATES
  {
    TrellisEdge(s / 2 + 32 * Value(b), Out1(FromIndex(s), b), Out2(FromIndex(s), b))
  }

  class ViterbiDecoder {
    const trellis: array2<TrellisEdge>

    ghost predicate Valid()
      reads this, trellis
    {
      trellis.Length0 == NUM_STATES && trellis.Length1 == 2
      && forall s | 0 <= s < NUM_STATES :: trellis[s, 0] == EdgeOf(s, false) && trellis[s, 1] == EdgeOf(s, true)
    }

    constructor ()
      ensures Valid() && fresh(trellis)
    {
      var edges := new TrellisEdge[NUM_STATES, 2];
      for s := 0 to NUM_STATES
        invariant forall s' | 0 <= s' < s :: edges[s', 0] == EdgeOf(s', false) && edges[s', 1] == EdgeOf(s', true)
      {
        edges[s, 0] := BuildEdge(s, false);
        edges[s, 1] := BuildEdge(s, true);
      }
      trellis := edges;
    }

    /** One entry of the trellis, computed on the byte-wide register as the encoder does. */
    static method BuildEdge(s: nat, b: Bit) returns (e: TrellisEdge)
      requires s < NUM_STATES
      ensures e == EdgeOf(s, b)
    {
      var x := s as bv8;
      ByteValue(s);
      ByteBelow64(x);
      IndexOfByte(x);
      IndexOfFromIndex(s);
      IndexInjective(FromByte(x), FromIndex(s));
      ParityOfMask(x, b);
      ByteRegisterShifts(x, b);
      IndexOfByte(ShiftIn(x, b));
      IndexOfNext(FromByte(x), b);
      e := TrellisEdge(ShiftIn(x, b) as int, Masked(x, b, G1), Masked(x, b, G2));
    }

    method Run(rx: Received) returns (decoded: seq<Bit>)
      requires Valid()
      ensures decoded == Decode(rx)
    {
      var survivors := Forward(rx);
      decoded := Trace(survivors, SurvivorTable(EdgeCosts(rx)));
      var dataBits := rx.Symbols() - (K - 1);
      if dataBits <= 0 {
        return [];
      }
      decoded := decoded[..dataBits];
    }

    /** The forward pass over all time steps. */
    method Forward(rx: Received) returns (survivors: array2<nat>)
      requires Valid()
      ensures survivors.Length0 == rx.Symbols() && survivors.Length1 == NUM_STATES
      ensures var table := SurvivorTable(EdgeCosts(rx));
              forall u, n | 0 <= u < rx.Symbols() && 0 <= n < NUM_STATES :: survivors[u, n] == table[u][n]
    {
      ghost var costs := EdgeCosts(rx);
      var pathMetric := new Metric[NUM_STATES](n => if n == 0 then Reached(0.0) else Unreached);
      survivors := new nat[rx.Symbols(), NUM_STATES]((t, n) => 0);
      for t := 0 to rx.Symbols()
        invariant pathMetric.Length == NUM_STATES && pathMetric[..] == Metrics(costs[..t])
        invariant forall u, n | 0 <= u < t && 0 <= n < NUM_STATES ::
                    survivors[u, n] == SurvivorTable(costs[..t])[u][n]
        invariant forall u, n | t <= u < rx.Symbols() && 0 <= n < NUM_STATES :: survivors[u, n] == 0
      {
        assert costs[..t + 1][..t] == costs[..t];
        pathMetric := StepColumn(rx, t, pathMetric, survivors);
      }
      assert costs[..rx.Symbols()] == costs;
    }

    /** One time step: relaxes the edges out of every reached state, in the order of the states. */
    method StepColumn(rx: Received, t: nat, pathMetric: array<Metric>, survivors: array2<nat>)
      returns (newMetric: array<Metric>)
      requires Valid() && t < rx.Symbols() && pathMetric.Length == NUM_STATES
      requires survivors.Length0 == rx.Symbols() && survivors.Length1 == NUM_STATES
      requires forall n | 0 <= n < NUM_STATES :: survivors[t, n] == 0
      modifies survivors
      ensures fresh(newMetric) && newMetric.Length == NUM_STATES
      ensures forall n | 0 <= n < NUM_STATES ::
                Candidate(newMetric[n], survivors[t, n]) == Best(old(pathMetric[..]), EdgeCostAt(rx, t), n)
      ensures forall u, n | 0 <= u < rx.Symbols() && u != t && 0 <= n < NUM_STATES ::
                survivors[u, n] == old(survivors[u, n])
    {
      ghost var pm: Column := pathMetric[..];
      newMetric := new Metric[NUM_STATES](n => Unreached);
      for s := 0 to NUM_STATES
        invariant pm == pathMetric[..]
        invariant forall n | 0 <= n < NUM_STATES ::
                    Candidate(newMetric[n], survivors[t, n]) == BestBelow(pm, EdgeCostAt(rx, t), n, s)
        invariant forall u, n | 0 <= u < rx.Symbols() && u != t && 0 <= n < NUM_STATES ::
                    survivors[u, n] == old(survivors[u, n])
      {
        if pathMetric[s].Reached? {
          RelaxState(rx, t, s, pathMetric[s].v, newMetric, survivors, pm);
        }
      }
    }

    /** Relaxes the two edges out of state `s`, whose path metric is `v`. */
    method RelaxState(rx: Received, t: nat, s: nat, v: real, newMetric: array<Metric>, survivors: array2<nat>,
                      ghost pm: Column)
      requires Valid() && t < rx.Symbols() && s < NUM_STATES && pm[s] == Reached(v)
      requires newMetric.Length == NUM_STATES
      requires survivors.Length0 == rx.Symbols() && survivors.Length1 == NUM_STATES
      requires forall n | 0 <= n < NUM_STATES ::
                 Candidate(newMetric[n], survivors[t, n]) == BestBelow(pm, EdgeCostAt(rx, t), n, s)
      modifies newMetric, survivors
      ensures forall n | 0 <= n < NUM_STATES ::
                Candidate(newMetric[n], survivors[t, n]) == BestBelow(pm, EdgeCostAt(rx, t), n, s + 1)
      ensures forall u, n | 0 <= u < rx.Symbols() && u != t && 0 <= n < NUM_STATES ::
                survivors[u, n] == old(survivors[u, n])
    {
      ghost var cost := EdgeCostAt(rx, t);
      for b := 0 to 2
        invariant forall n | 0 <= n < NUM_STATES ::
                    var k := if n / 32 < b then s + 1 else s;
                    Candidate(newMetric[n], survivors[t, n]) == BestBelow(pm, cost, n, k)
        invariant forall u, n | 0 <= u < rx.Symbols() && u != t && 0 <= n < NUM_STATES ::
                    survivors[u, n] == old(survivors[u, n])
      {
        var e := trellis[s, b];
        assert e == EdgeOf(s, b == 1);
        var total := v + Branch(rx, t, e.out1, e.out2);
        RelaxEdge(newMetric, survivors, t, s, e.nextState, total);
        forall n | 0 <= n < NUM_STATES && n / 32 == b
          ensures Candidate(newMetric[n], survivors[t, n]) == BestBelow(pm, cost, n, s + 1)
        {
          BestBelowNext(pm, cost, n, s);
          assert n == e.nextState <==> n % 32 == s / 2;
          assert n == e.nextState ==> total == pm[s].v + cost(s, n >= 32);
        }
      }
    }

    /** Offers state `s` as the predecessor of `next` at metric `total`. */
    static method RelaxEdge(newMetric: array<Metric>, survivors: array2<nat>, t: nat, s: nat, next: nat, total: real)
      requires newMetric.Length == NUM_STATES && survivors.Length1 == NUM_STATES && t < survivors.Length0
      requires next < NUM_STATES
      modifies newMetric, survivors
      ensures var wins := old(newMetric[next]).Unreached? || total < old(newMetric[next]).v;
              newMetric[next] == (if wins then Reached(total) else old(newMetric[next]))
              && survivors[t, next] == if wins then s else old(survivors[t, next])
      ensures forall n | 0 <= n < NUM_STATES && n != next :: newMetric[n] == old(newMetric[n])
      ensures forall u, n | 0 <= u < survivors.Length0 && 0 <= n < NUM_STATES && (u, n) != (t, next) ::
                survivors[u, n] == old(survivors[u, n])
    {
      if newMetric[next].Unreached? || total < newMetric[next].v {
        newMetric[next] := Reached(total);
        survivors[t, next] := s;
      }
    }

    /** Walks the survivors back from state 0, where the flush left the encoder. */
    method Trace(survivors: array2<nat>, ghost table: seq<SurvivorRow>) returns (decoded: seq<Bit>)
      requires survivors.Length0 == |table| && survivors.Length1 == NUM_STATES
      requires forall u, n | 0 <= u < |table| && 0 <= n < NUM_STATES :: survivors[u, n] == table[u][n]
      ensures decoded == Walk(table, 0)
    {
      var bits := new bool[survivors.Length0];
      var state := 0;
      assert table[..|table|] == table;
      for t := survivors.Length0 downto 0
        invariant 0 <= state < NUM_STATES
        invariant Walk(table, 0) == Walk(table[..t], state) + bits[t..]
      {
        assert table[..t + 1][..t] == table[..t];
        bits[t] := state / 32 % 2 == 1;
        state := survivors[t, state];
      }
      decoded := bits[..];
    }

    method DecodeHard(encoded: seq<Bit>) returns (decoded: seq<Bit>)
      requires Valid()
      ensures decoded == Decode(Hard(encoded))
    {
      decoded := Run(Hard(encoded));
    }

    method DecodeSoft(llrs: seq<real>) returns (decoded: seq<Bit>)
      requires Valid()
      ensures decoded == Decode(Soft(llrs))
    {
      decoded := Run(Soft(llrs));
    }
  }
}
