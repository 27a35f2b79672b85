/** Which of several equally good messages the Viterbi decoder returns. */
module ViterbiTies {
  import opened Bits
  import opened ConvolutionalCode
  import opened Viterbi
  import opened MaximumLikelihood

  /** `d` is `m`, or has a zero where the two differ last. */
  ghost predicate NotAfter(d: seq<Bit>, m: seq<Bit>)
    requires |d| == |m|
  {
    d == m || exists i | 0 <= i < |d| :: !d[i] && m[i] && d[i + 1..] == m[i + 1..]
  }

  lemma NotAfterSnoc(d: seq<Bit>, m: seq<Bit>, b: Bit)
    requires |d| == |m| && NotAfter(d, m)
    ensures NotAfter(d + [b], m + [b])
  {
    if d != m {
      var i :| 0 <= i < |d| && !d[i] && m[i] && d[i + 1..] == m[i + 1..];
      var d', m' := d + [b], m + [b];
      assert d'[i + 1..] == d[i + 1..] + [b] && m'[i + 1..] == m[i + 1..] + [b];
      assert !d'[i] && m'[i] && d'[i + 1..] == m'[i + 1..];
    }
  }

  /** Of two ways into a state that cost the same, the one from the lower state survives. */
  lemma LowerStateSurvives(pm: Column, cost: EdgeCost, n: nat, p: nat)
    requires n < NUM_STATES && p < NUM_STATES && p / 2 == n % 32 && pm[p].Reached?
    requires Best(pm, cost, n).metric == Reached(pm[p].v + cost(p, n >= 32))
    ensures var q := Best(pm, cost, n).pred; q == p || (q == p - 1 && p % 2 == 1)
  {
  }

  lemma IndexParts(s: Register)
    ensures Index(s) % 2 == Value(s.d6)
    ensures Index(s) / 2 == 16 * Value(s.d1) + 8 * Value(s.d2) + 4 * Value(s.d3) + 2 * Value(s.d4) + Value(s.d5)
  {
  }

  lemma SameUpperBits(s: Register, r: Register)
    requires Index(s) / 2 == Index(r) / 2
    ensures s.d1 == r.d1 && s.d2 == r.d2 && s.d3 == r.d3 && s.d4 == r.d4 && s.d5 == r.d5
  {
    IndexParts(s);
    IndexParts(r);
  }

  lemma OldestDecides(d: seq<Bit>, m: seq<Bit>, s: Register, r: Register)
    requires |d| == |m| && !s.d6 && r.d6 && s == r.(d6 := false)
    requires forall k | 1 <= k <= 6 :: At(d, |d| - k) == Delay(s, k) && At(m, |m| - k) == Delay(r, k)
    ensures NotAfter(d, m)
  {
    var t := |d|;
    assert At(m, t - 6) == Delay(r, 6) && At(d, t - 6) == Delay(s, 6);
    forall j | t - 5 <= j < t
      ensures d[j] == m[j]
    {
      assert At(d, t - (t - j)) == Delay(s, t - j) && At(m, t - (t - j)) == Delay(r, t - j);
    }
    assert d[t - 6 + 1..] == m[t - 6 + 1..];
  }

  function Delay(s: Register, k: nat): Bit {
    if k == 1 then s.d1 else if k == 2 then s.d2 else if k == 3 then s.d3
    else if k == 4 then s.d4 else if k == 5 then s.d5 else s.d6
  }

  /** Prefixes that lead to sibling states differ last in the bit that the register is about to lose. */
  lemma SiblingsDifferInOldest(d: seq<Bit>, m: seq<Bit>, q: nat, p: nat)
    requires |d| == |m| && q == Index(StateAfter(EMPTY, d)) && p == Index(StateAfter(EMPTY, m))
    requires q == p - 1 && p % 2 == 1
    ensures NotAfter(d, m)
  {
    var s, r := StateAfter(EMPTY, d), StateAfter(EMPTY, m);
    DelayLineHoldsRecentBits(d);
    DelayLineHoldsRecentBits(m);
    SameUpperBits(s, r);
    IndexParts(s);
    IndexParts(r);
    OldestDecides(d, m, s, r);
  }

  lemma IndexOfSnoc(p: nat, n: nat, b: Bit)
    requires p < NUM_STATES && n == p / 2 + 32 * Value(b)
    ensures n < NUM_STATES && p / 2 == n % 32 && b == (n >= 32) == (n / 32 % 2 == 1)
  {
  }

  /** If a path cannot be improved, neither can the way to its last step, and that step is the best one. */
  lemma OptimalStep(pm: Column, cost: EdgeCost, p: nat, n: nat, b: Bit, before: real, after: real)
    requires p < NUM_STATES && n == p / 2 + 32 * Value(b) < NUM_STATES && after == before + cost(p, b)
    requires pm[p].Reached? && pm[p].v <= before && Best(pm, cost, n).metric == Reached(after)
    ensures pm[p] == Reached(before) && p / 2 == n % 32 && b == (n >= 32)
    ensures Best(pm, cost, n).metric == Reached(pm[p].v + cost(p, n >= 32))
  {
    IndexOfSnoc(p, n, b);
    BestIsMinimum(pm, cost, n);
  }

  /** The survivor of the last step is the predecessor on the path, or its lower sibling. */
  lemma LastStep(costs: seq<EdgeCost>, t: nat, m: seq<Bit>, n: nat, p: nat, pm: Column, front: seq<Bit>)
    requires |costs| == |m| == t + 1 && n == Index(StateAfter(EMPTY, m)) && p == Index(StateAfter(EMPTY, front))
    requires Metrics(costs)[n] == Reached(PathCost(costs, m)) && pm == Metrics(costs[..t]) && front == m[..t]
    ensures pm[p] == Reached(PathCost(costs[..t], front)) && m[t] == (n / 32 % 2 == 1)
    ensures var q := Survivors(pm, costs[t])[n]; pm[q].Reached? && (q == p || (q == p - 1 && p % 2 == 1))
  {
    PathCostStep(costs, t, m);
    MetricsAreLowerBounds(costs[..t], front);
    IndexOfSnoc(p, n, m[t]);
    OptimalStep(pm, costs[t], p, n, m[t], PathCost(costs[..t], front), PathCost(costs, m));
    LowerStateSurvives(pm, costs[t], n, p);
    BestIsMinimum(pm, costs[t], n);
  }

  lemma WalkSnoc(costs: seq<EdgeCost>, t: nat, n: nat, pm: Column, walked: seq<Bit>)
    requires |costs| == t + 1 && n < NUM_STATES && pm == Metrics(costs[..t])
    requires walked == Walk(SurvivorTable(costs[..t]), Survivors(pm, costs[t])[n])
    ensures Walk(SurvivorTable(costs), n) == walked + [n / 32 % 2 == 1]
  {
    assert SurvivorTable(costs)[..t] == SurvivorTable(costs[..t]);
  }

  /** The walk along the survivors is the first of the cheapest paths, the last input bits compared first. */
  lemma {:induction false} WalkIsFirst(costs: seq<EdgeCost>, n: nat, m: seq<Bit>)
    requires |m| == |costs| && n == Index(StateAfter(EMPTY, m)) && Metrics(costs)[n] == Reached(PathCost(costs, m))
    ensures NotAfter(Walk(SurvivorTable(costs), n), m)
    decreases |m|
  {
    if m != [] {
      var t := |m| - 1;
      assert m == m[..t] + [m[t]];
      var pm, front := Metrics(costs[..t]), m[..t];
      var p, q := Index(StateAfter(EMPTY, front)), Survivors(pm, costs[t])[n];
      var walked := Walk(SurvivorTable(costs[..t]), q);
      LastStep(costs, t, m, n, p, pm, front);
      WalkSnoc(costs, t, n, pm, walked);
      SurvivorsAttainMetrics(costs[..t], q);
      if q == p {
        WalkIsFirst(costs[..t], p, front);
      } else {
        SiblingsDifferInOldest(walked, front, q, p);
      }
      NotAfterSnoc(walked, front, m[t]);
    }
  }

  lemma NotAfterFront(d: seq<Bit>, m: seq<Bit>, tail: seq<Bit>)
    requires |d| == |m| && NotAfter(d + tail, m + tail)
    ensures NotAfter(d, m)
  {
    var a, b := d + tail, m + tail;
    if a == b {
      assert d == a[..|d|] && m == b[..|d|];
    } else {
      var i :| 0 <= i < |a| && !a[i] && b[i] && a[i + 1..] == b[i + 1..];
      assert i < |d|;
      assert d[i + 1..] == a[i + 1..][..|d| - i - 1] && m[i + 1..] == b[i + 1..][..|d| - i - 1];
    }
  }

  lemma CheapestIsOptimal(costs: seq<EdgeCost>, path: seq<Bit>, best: seq<Bit>)
    requires |path| == |costs| == |best| && StateAfter(EMPTY, path) == EMPTY
    requires best == Walk(SurvivorTable(costs), 0) && PathCost(costs, best) == PathCost(costs, path)
    ensures Index(StateAfter(EMPTY, path)) == 0 && Metrics(costs)[0] == Reached(PathCost(costs, path))
  {
    assert Index(EMPTY) == 0;
    MetricsAreLowerBounds(costs, path);
    SurvivorsAttainMetrics(costs, 0);
  }

  /**
   * The decoder returns, of all messages whose codewords cost least, the one with a zero where it last differs from any
   * other: together with its optimality this says which message it returns, ties included.
   */
  lemma FirstOfTheBest(rx: Received, m: seq<Bit>)
    requires |m| + K - 1 == rx.Symbols()
    ensures var d, costs := Decode(rx), EdgeCosts(rx);
            && |d| == |m|
            && PathCost(costs, d + FLUSH) <= PathCost(costs, m + FLUSH)
            && (PathCost(costs, d + FLUSH) == PathCost(costs, m + FLUSH) ==> NotAfter(d, m))
  {
    var d, costs, path := Decode(rx), EdgeCosts(rx), m + FLUSH;
    TracebackIsOptimal(rx, m);
    FlushEmptiesRegister(EMPTY, m);
    if PathCost(costs, d + FLUSH) == PathCost(costs, path) {
      CheapestIsOptimal(costs, path, d + FLUSH);
      WalkIsFirst(costs, 0, path);
      NotAfterFront(d, m, FLUSH);
    }
  }

  /** Hard decisions give the first of the nearest messages. */
  lemma HardDecodesFirstNearest(h: seq<Bit>, m: seq<Bit>)
    requires |h| / 2 == |m| + K - 1
    ensures var d, word := Decode(Hard(h)), h[..2 * (|h| / 2)];
            && |d| == |m|
            && Distance(Encode(d), word) <= Distance(Encode(m), word)
            && (Distance(Encode(d), word) == Distance(Encode(m), word) ==> NotAfter(d, m))
  {
    FirstOfTheBest(Hard(h), m);
    var costs := EdgeCosts(Hard(h));
    assert costs[..|m| + K - 1] == costs;
    HardCostIsDistance(h, m + FLUSH);
    HardCostIsDistance(h, Decode(Hard(h)) + FLUSH);
  }

  /** Channel values give the first of the messages that agree with them best. */
  lemma SoftDecodesFirstBest(llrs: seq<real>, m: seq<Bit>)
    requires |llrs| / 2 == |m| + K - 1
    ensures var d := Decode(Soft(llrs));
            && |d| == |m|
            && Correlation(Encode(d), llrs) >= Correlation(Encode(m), llrs)
            && (Correlation(Encode(d), llrs) == Correlation(Encode(m), llrs) ==> NotAfter(d, m))
  {
    FirstOfTheBest(Soft(llrs), m);
    var costs := EdgeCosts(Soft(llrs));
    assert costs[..|m| + K - 1] == costs;
    SoftCostIsCorrelation(llrs, m + FLUSH);
    SoftCostIsCorrelation(llrs, Decode(Soft(llrs)) + FLUSH);
  }
}
