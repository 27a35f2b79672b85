/** What the Viterbi decoder achieves: optimal paths, guaranteed error correction, hard and soft agreement. */
module MaximumLikelihood {
  import opened Bits
  import opened ConvolutionalCode
  import opened Viterbi

  // ---- the recurrence computes the minimum over all paths, whatever the edge costs ----

  /** The cost of the whole trellis path that the input bits `m` drive from the zero state. */
  function PathCost(costs: seq<EdgeCost>, m: seq<Bit>): real
    requires |m| == |costs|
  {
    if m == [] then 0.0
    else
      var t := |m| - 1;
      PathCost(costs[..t], m[..t]) + costs[t](Index(StateAfter(EMPTY, m[..t])), m[t])
  }

  lemma BestIsMinimum(pm: Column, cost: EdgeCost, n: nat)
    requires n < NUM_STATES
    ensures var c := Best(pm, cost, n);
            && (forall p | 0 <= p < NUM_STATES && p / 2 == n % 32 && pm[p].Reached? ::
                  c.metric.Reached? && c.metric.v <= pm[p].v + cost(p, n >= 32))
            && (c.metric.Reached? ==>
                  c.pred < NUM_STATES && c.pred / 2 == n % 32 && pm[c.pred].Reached?
                  && c.metric.v == pm[c.pred].v + cost(c.pred, n >= 32))
  {
  }

  lemma NextColumn(pm: Column, cost: EdgeCost, p: nat, b: Bit)
    requires p < NUM_STATES && pm[p].Reached?
    ensures var metric := NextMetrics(pm, cost)[p / 2 + 32 * Value(b)];
            metric.Reached? && metric.v <= pm[p].v + cost(p, b)
  {
    BestIsMinimum(pm, cost, p / 2 + 32 * Value(b));
  }

  lemma PreviousColumn(pm: Column, cost: EdgeCost, n: nat)
    requires n < NUM_STATES && NextMetrics(pm, cost)[n].Reached?
    ensures var p, b := Survivors(pm, cost)[n], n / 32 % 2 == 1;
            pm[p].Reached? && n == p / 2 + 32 * Value(b) && NextMetrics(pm, cost)[n].v == pm[p].v + cost(p, b)
  {
    BestIsMinimum(pm, cost, n);
  }

  lemma IndexSnoc(m: seq<Bit>, b: Bit)
    ensures Index(StateAfter(EMPTY, m + [b])) == Index(StateAfter(EMPTY, m)) / 2 + 32 * Value(b)
  {
    RunSnoc(EMPTY, m, b);
    IndexOfNext(StateAfter(EMPTY, m), b);
  }

  lemma MetricsStep(costs: seq<EdgeCost>, t: nat, p: nat, n: nat, b: Bit)
    requires |costs| == t + 1 && p < NUM_STATES && n == p / 2 + 32 * Value(b)
    requires Metrics(costs[..t])[p].Reached?
    ensures Metrics(costs)[n].Reached?
    ensures Metrics(costs)[n].v <= Metrics(costs[..t])[p].v + costs[t](p, b)
  {
    NextColumn(Metrics(costs[..t]), costs[t], p, b);
  }

  lemma PathCostStep(costs: seq<EdgeCost>, t: nat, m: seq<Bit>)
    requires |costs| == |m| == t + 1
    ensures PathCost(costs, m) == PathCost(costs[..t], m[..t]) + costs[t](Index(StateAfter(EMPTY, m[..t])), m[t])
    ensures Index(StateAfter(EMPTY, m)) == Index(StateAfter(EMPTY, m[..t])) / 2 + 32 * Value(m[t])
  {
    assert m == m[..t] + [m[t]];
    IndexSnoc(m[..t], m[t]);
  }

  /** No path into a state is cheaper than the metric the recurrence gives that state. */
  lemma {:induction false} MetricsAreLowerBounds(costs: seq<EdgeCost>, m: seq<Bit>)
    requires |m| == |costs|
    ensures var metric := Metrics(costs)[Index(StateAfter(EMPTY, m))];
            metric.Reached? && metric.v <= PathCost(costs, m)
  {
    if m != [] {
      var t := |m| - 1;
      MetricsAreLowerBounds(costs[..t], m[..t]);
      PathCostStep(costs, t, m);
      MetricsStep(costs, t, Index(StateAfter(EMPTY, m[..t])), Index(StateAfter(EMPTY, m)), m[t]);
    }
  }

  /** The survivors lead to a state along a path whose cost is exactly the metric of that state. */
  lemma {:induction false} SurvivorsAttainMetrics(costs: seq<EdgeCost>, n: nat)
    requires n < NUM_STATES && Metrics(costs)[n].Reached?
    ensures var m := Walk(SurvivorTable(costs), n);
            Index(StateAfter(EMPTY, m)) == n && PathCost(costs, m) == Metrics(costs)[n].v
  {
    if costs != [] {
      var t := |costs| - 1;
      var pm := Metrics(costs[..t]);
      PreviousColumn(pm, costs[t], n);
      var p := Survivors(pm, costs[t])[n];
      SurvivorsAttainMetrics(costs[..t], p);
      var front, b := Walk(SurvivorTable(costs[..t]), p), n / 32 % 2 == 1;
      assert SurvivorTable(costs)[..t] == SurvivorTable(costs[..t]);
      assert (front + [b])[..t] == front;
      PathCostStep(costs, t, front + [b]);
    }
  }

  /** The walk back from state 0 spells a cheapest path from state 0 to state 0. */
  lemma WalkIsOptimal(costs: seq<EdgeCost>, m: seq<Bit>)
    requires |m| == |costs| && StateAfter(EMPTY, m) == EMPTY
    ensures var path := Walk(SurvivorTable(costs), 0);
            StateAfter(EMPTY, path) == EMPTY && PathCost(costs, path) <= PathCost(costs, m)
  {
    MetricsAreLowerBounds(costs, m);
    SurvivorsAttainMetrics(costs, 0);
    IndexInjective(StateAfter(EMPTY, Walk(SurvivorTable(costs), 0)), EMPTY);
  }

  /** The traceback ends in six zero inputs, and no terminated message of the same length is cheaper. */
  lemma TracebackIsOptimal(rx: Received, m: seq<Bit>)
    requires |m| + K - 1 == rx.Symbols()
    ensures BestPath(rx) == Decode(rx) + FLUSH
    ensures PathCost(EdgeCosts(rx), Decode(rx) + FLUSH) <= PathCost(EdgeCosts(rx), m + FLUSH)
  {
    var path := BestPath(rx);
    FlushEmptiesRegister(EMPTY, m);
    WalkIsOptimal(EdgeCosts(rx), m + FLUSH);
    assert path == path[..|m|] + path[|m|..];
    LastSixInputs(EMPTY, path[..|m|], path[|m|..]);
  }

  lemma EdgeCostOnPath(rx: Received, t: nat, s: Register, b: Bit)
    requires t < rx.Symbols()
    ensures EdgeCostAt(rx, t)(Index(s), b) == Branch(rx, t, Out1(s, b), Out2(s, b))
  {
    IndexOfFromIndex(Index(s));
    IndexInjective(FromIndex(Index(s)), s);
  }

  // ---- hard decisions: maximum likelihood is minimum Hamming distance ----

  lemma DistanceOfPair(a: Bit, b: Bit, c: Bit, d: Bit)
    ensures Distance([a, b], [c, d]) == Value(a != c) + Value(b != d)
  {
    assert [a, b][..1] == [a] && [c, d][..1] == [c] && [a][..0] == [] && [c][..0] == [];
    assert Distance([a], [c]) == Value(a != c);
  }

  lemma {:induction false} HardCostIsDistance(h: seq<Bit>, m: seq<Bit>)
    requires |m| <= |h| / 2
    ensures PathCost(EdgeCosts(Hard(h))[..|m|], m) == Distance(Outputs(EMPTY, m), h[..2 * |m|]) as real
  {
    if m != [] {
      var t := |m| - 1;
      var costs, s := EdgeCosts(Hard(h)), StateAfter(EMPTY, m[..t]);
      HardCostIsDistance(h, m[..t]);
      assert costs[..|m|][..t] == costs[..t];
      EdgeCostOnPath(Hard(h), t, s, m[t]);
      var pair := [h[2 * t], h[2 * t + 1]];
      assert h[..2 * |m|] == h[..2 * t] + pair;
      DistanceConcat(Outputs(EMPTY, m[..t]), h[..2 * t], Pair(s, m[t]), pair);
      DistanceOfPair(Out1(s, m[t]), Out2(s, m[t]), h[2 * t], h[2 * t + 1]);
    }
  }

  /** No codeword of the right length is nearer to the received word than the one decoded; an odd last bit is lost. */
  lemma HardDecodingIsMaximumLikelihood(h: seq<Bit>, m: seq<Bit>)
    requires |h| / 2 == |m| + K - 1
    ensures |Decode(Hard(h))| == |m|
    ensures var word := h[..2 * (|h| / 2)];
            Distance(Encode(Decode(Hard(h))), word) <= Distance(Encode(m), word)
  {
    TracebackIsOptimal(Hard(h), m);
    var costs := EdgeCosts(Hard(h));
    assert costs[..|m| + K - 1] == costs;
    HardCostIsDistance(h, m + FLUSH);
    HardCostIsDistance(h, Decode(Hard(h)) + FLUSH);
  }

  // ---- soft decisions: maximum correlation with the log-likelihood ratios ----

  /** How well a word agrees with the LLRs: a 0 earns the LLR, a 1 pays it. */
  function Correlation(word: seq<Bit>, llrs: seq<real>): real
    requires |word| <= |llrs|
  {
    if word == [] then 0.0
    else
      var i := |word| - 1;
      Correlation(word[..i], llrs) + if word[i] then -llrs[i] else llrs[i]
  }

  lemma CorrelationOfPair(word: seq<Bit>, a: Bit, b: Bit, llrs: seq<real>)
    requires |word| + 2 <= |llrs|
    ensures Correlation(word + [a, b], llrs)
         == Correlation(word, llrs) + (if a then -llrs[|word|] else llrs[|word|])
            + if b then -llrs[|word| + 1] else llrs[|word| + 1]
  {
    assert (word + [a, b])[..|word| + 1] == word + [a];
    assert (word + [a])[..|word|] == word;
  }

  lemma {:induction false} SoftCostIsCorrelation(llrs: seq<real>, m: seq<Bit>)
    requires |m| <= |llrs| / 2
    ensures PathCost(EdgeCosts(Soft(llrs))[..|m|], m) == -Correlation(Outputs(EMPTY, m), llrs)
  {
    if m != [] {
      var t := |m| - 1;
      var costs, s := EdgeCosts(Soft(llrs)), StateAfter(EMPTY, m[..t]);
      SoftCostIsCorrelation(llrs, m[..t]);
      assert costs[..|m|][..t] == costs[..t];
      EdgeCostOnPath(Soft(llrs), t, s, m[t]);
      CorrelationOfPair(Outputs(EMPTY, m[..t]), Out1(s, m[t]), Out2(s, m[t]), llrs);
    }
  }

  lemma SoftDecodingMaximisesCorrelation(llrs: seq<real>, m: seq<Bit>)
    requires |llrs| / 2 == |m| + K - 1
    ensures |Decode(Soft(llrs))| == |m|
    ensures Correlation(Encode(m), llrs) <= Correlation(Encode(Decode(Soft(llrs))), llrs)
  {
    TracebackIsOptimal(Soft(llrs), m);
    var costs := EdgeCosts(Soft(llrs));
    assert costs[..|m| + K - 1] == costs;
    SoftCostIsCorrelation(llrs, m + FLUSH);
    SoftCostIsCorrelation(llrs, Decode(Soft(llrs)) + FLUSH);
  }

  // ---- guaranteed correction ----

  lemma CorrectsFourErrors(m: seq<Bit>, r: seq<Bit>)
    requires |r| == |Encode(m)| && Distance(Encode(m), r) <= 4
    ensures Decode(Hard(r)) == m
  {
    var d := Decode(Hard(r));
    HardDecodingIsMaximumLikelihood(r, m);
    assert r[..2 * (|r| / 2)] == r;
    DistanceSymmetric(Encode(d), r);
    TriangleInequality(Encode(m), r, Encode(d));
    if d != m {
      MinimumDistance(m, d);
    }
  }

  /** The decoder undoes up to `e` bit errors in every codeword of a `k`-bit message. */
  ghost predicate Corrects(k: nat, e: nat) {
    forall m, r | |m| == k && |r| == |Encode(m)| && Distance(Encode(m), r) <= e :: Decode(Hard(r)) == m
  }

  // The response to a single one in the last message bit.
  const IMPULSE: seq<Bit> :=
    [true, true, true, false, true, true, true, true, false, false, false, true, true, true]

  lemma ImpulseResponse()
    ensures Outputs(EMPTY, [true] + FLUSH) == IMPULSE
  {
    var m := [true] + FLUSH;
    assert m[..7] == m;
    var m6, m5, m4, m3, m2, m1, m0 := m[..6], m[..5], m[..4], m[..3], m[..2], m[..1], m[..0];
    assert m6[..5] == m5 && m5[..4] == m4 && m4[..3] == m3 && m3[..2] == m2 && m2[..1] == m1 && m1[..0] == m0;
    assert StateAfter(EMPTY, m1) == Register(true, false, false, false, false, false);
    assert StateAfter(EMPTY, m2) == Register(false, true, false, false, false, false);
    assert StateAfter(EMPTY, m3) == Register(false, false, true, false, false, false);
    assert StateAfter(EMPTY, m4) == Register(false, false, false, true, false, false);
    assert StateAfter(EMPTY, m5) == Register(false, false, false, false, true, false);
    assert StateAfter(EMPTY, m6) == Register(false, false, false, false, false, true);
    assert Outputs(EMPTY, m1) == IMPULSE[..2];
    assert Outputs(EMPTY, m2) == IMPULSE[..4];
    assert Outputs(EMPTY, m3) == IMPULSE[..6];
    assert Outputs(EMPTY, m4) == IMPULSE[..8];
    assert Outputs(EMPTY, m5) == IMPULSE[..10];
    assert Outputs(EMPTY, m6) == IMPULSE[..12];
  }

  // Half of the ones of the impulse response: five bits away from it, and from zero.
  const MIDWAY: seq<Bit> :=
    [true, true, true, false, true, true, false, false, false, false, false, false, false, false]

  lemma DistanceTail(a: seq<Bit>, b: seq<Bit>, n: nat)
    requires |a| == |b| && n < |a|
    ensures Distance(a[..n + 1], b[..n + 1]) == Distance(a[..n], b[..n]) + Value(a[n] != b[n])
  {
    assert a[..n + 1][..n] == a[..n] && b[..n + 1][..n] == b[..n];
  }

  lemma DistanceOfSeven(a: seq<Bit>, b: seq<Bit>)
    requires |a| == |b| == 7
    ensures Distance(a, b)
         == Value(a[0] != b[0]) + Value(a[1] != b[1]) + Value(a[2] != b[2]) + Value(a[3] != b[3])
          + Value(a[4] != b[4]) + Value(a[5] != b[5]) + Value(a[6] != b[6])
  {
    DistanceTail(a, b, 0);
    DistanceTail(a, b, 1);
    DistanceTail(a, b, 2);
    DistanceTail(a, b, 3);
    DistanceTail(a, b, 4);
    DistanceTail(a, b, 5);
    DistanceTail(a, b, 6);
    assert a[..7] == a && b[..7] == b;
  }

  lemma EncodeAfterZeros(k: nat, tail: seq<Bit>)
    ensures Outputs(EMPTY, Zeros(k) + tail) == Zeros(2 * k) + Outputs(EMPTY, tail)
  {
    WeightBound(Zeros(k));
    RunSplit(EMPTY, Zeros(k), tail);
  }

  lemma MidwayDistances()
    ensures Distance(Zeros(14), MIDWAY) == 5 && Distance(IMPULSE, MIDWAY) == 5
  {
    var high, low := MIDWAY[..7], MIDWAY[7..];
    assert MIDWAY == high + low && Zeros(14) == Zeros(7) + Zeros(7) && IMPULSE == IMPULSE[..7] + IMPULSE[7..];
    DistanceConcat(Zeros(7), high, Zeros(7), low);
    DistanceConcat(IMPULSE[..7], high, IMPULSE[7..], low);
    DistanceOfSeven(Zeros(7), high);
    DistanceOfSeven(Zeros(7), low);
    DistanceOfSeven(IMPULSE[..7], high);
    DistanceOfSeven(IMPULSE[7..], low);
  }

  lemma ExtremeCodewords(k: nat)
    requires k >= 1
    ensures Encode(Zeros(k)) == Zeros(2 * (k - 1)) + Zeros(14)
    ensures Encode(Zeros(k - 1) + [true]) == Zeros(2 * (k - 1)) + IMPULSE
  {
    assert Zeros(k) + FLUSH == Zeros(k + 6);
    WeightBound(Zeros(k + 6));
    assert Zeros(k - 1) + [true] + FLUSH == Zeros(k - 1) + ([true] + FLUSH);
    EncodeAfterZeros(k - 1, [true] + FLUSH);
    ImpulseResponse();
  }

  /** For every message length, five bit errors can be beyond repair: two codewords share a midpoint. */
  lemma FiveErrorsCanDefeat(k: nat, e: nat)
    requires k >= 1 && e >= 5
    ensures !Corrects(k, e)
  {
    var z := Zeros(2 * (k - 1));
    var m0, m1, r := Zeros(k), Zeros(k - 1) + [true], z + MIDWAY;
    ExtremeCodewords(k);
    assert Distance(Encode(m0), r) == 5 && Distance(Encode(m1), r) == 5 by {
      DistanceConcat(z, z, Zeros(14), MIDWAY);
      DistanceConcat(z, z, IMPULSE, MIDWAY);
      DistanceZeroMeansEqual(z, z);
      MidwayDistances();
    }
    assert m0[k - 1] != m1[k - 1];
    assert Decode(Hard(r)) != m0 || Decode(Hard(r)) != m1;
  }

  /** The exact error-correction radius: four, whatever the message length. */
  lemma CorrectionRadius(k: nat, e: nat)
    requires k >= 1
    ensures Corrects(k, e) <==> e <= 4
  {
    if e <= 4 {
      forall m, r | |m| == k && |r| == |Encode(m)| && Distance(Encode(m), r) <= e
        ensures Decode(Hard(r)) == m
      {
        CorrectsFourErrors(m, r);
      }
    } else {
      FiveErrorsCanDefeat(k, e);
    }
  }

  // ---- guaranteed correction, soft decisions ----

  /** What a channel value says for a coded bit: negative when it speaks against it. */
  function Support(bit: Bit, llr: real): real {
    if bit then -llr else llr
  }

  /** What the channel values say for `word` in the positions marked in `d`. */
  function SupportSum(word: seq<Bit>, llrs: seq<real>, d: seq<Bit>): real
    requires |word| == |d| <= |llrs|
  {
    if word == [] then 0.0
    else
      var i := |word| - 1;
      SupportSum(word[..i], llrs, d[..i]) + if d[i] then Support(word[i], llrs[i]) else 0.0
  }

  /** Another word does worse by twice the support in the positions where it differs. */
  lemma {:induction false} CorrelationDifference(word: seq<Bit>, other: seq<Bit>, llrs: seq<real>)
    requires |word| == |other| <= |llrs|
    ensures Correlation(word, llrs) - Correlation(other, llrs) == 2.0 * SupportSum(word, llrs, Xor(word, other))
  {
    if word != [] {
      var n := |word| - 1;
      CorrelationDifference(word[..n], other[..n], llrs);
      assert Xor(word, other)[..n] == Xor(word[..n], other[..n]);
    }
  }

  /** In any ten or more positions the channel values speak for the word on balance. */
  ghost predicate TensSupport(word: seq<Bit>, llrs: seq<real>) {
    |llrs| == |word| && forall d | |d| == |word| && Weight(d) >= 10 :: SupportSum(word, llrs, d) > 0.0
  }

  /** A codeword is found whenever any ten of its bits have the support of their channel values on balance. */
  lemma CorrectsWhenTensSupport(m: seq<Bit>, llrs: seq<real>)
    requires TensSupport(Encode(m), llrs)
    ensures Decode(Soft(llrs)) == m
  {
    var d := Decode(Soft(llrs));
    SoftDecodingMaximisesCorrelation(llrs, m);
    CorrelationDifference(Encode(m), Encode(d), llrs);
    DistanceIsWeight(Encode(m), Encode(d));
    if d != m {
      MinimumDistance(m, d);
    }
  }

  // ---- erasures ----

  /** No channel value contradicts its coded bit; a value of zero says nothing about it. */
  ghost predicate NoWrongSign(word: seq<Bit>, llrs: seq<real>) {
    |llrs| == |word| && forall i | 0 <= i < |word| :: if word[i] then llrs[i] <= 0.0 else llrs[i] >= 0.0
  }

  function Erasures(llrs: seq<real>): nat {
    if llrs == [] then 0 else Erasures(llrs[..|llrs| - 1]) + if llrs[|llrs| - 1] == 0.0 then 1 else 0
  }

  lemma {:induction false} SupportUnlessErased(word: seq<Bit>, llrs: seq<real>, d: seq<Bit>, n: nat)
    requires |word| == |d| == n <= |llrs| && NoWrongSign(word, llrs[..n])
    ensures SupportSum(word, llrs, d) >= 0.0
    ensures SupportSum(word, llrs, d) == 0.0 ==> Weight(d) <= Erasures(llrs[..n])
    decreases n
  {
    if n > 0 {
      assert llrs[..n][..n - 1] == llrs[..n - 1];
      SupportUnlessErased(word[..n - 1], llrs, d[..n - 1], n - 1);
    }
  }

  lemma NineErasuresLeaveSupport(word: seq<Bit>, llrs: seq<real>)
    requires NoWrongSign(word, llrs) && Erasures(llrs) <= 9
    ensures TensSupport(word, llrs)
  {
    assert llrs[..|llrs|] == llrs;
    forall d | |d| == |word| && Weight(d) >= 10
      ensures SupportSum(word, llrs, d) > 0.0
    {
      SupportUnlessErased(word, llrs, d, |llrs|);
    }
  }

  lemma CorrectsNineErasures(m: seq<Bit>, llrs: seq<real>)
    requires NoWrongSign(Encode(m), llrs) && Erasures(llrs) <= 9
    ensures Decode(Soft(llrs)) == m
  {
    NineErasuresLeaveSupport(Encode(m), llrs);
    CorrectsWhenTensSupport(m, llrs);
  }

  /** The soft decoder undoes up to `e` erasures in every codeword of a `k`-bit message. */
  ghost predicate Recovers(k: nat, e: nat) {
    forall m, llrs | |m| == k && NoWrongSign(Encode(m), llrs) && Erasures(llrs) <= e :: Decode(Soft(llrs)) == m
  }

  /** Channel values that say nothing where `word` has a one, and 0 elsewhere. */
  function Blanked(word: seq<Bit>): (llrs: seq<real>)
    ensures |llrs| == |word|
  {
    seq(|word|, i requires 0 <= i < |word| => if word[i] then 0.0 else 1.0)
  }

  lemma {:induction false} ErasuresOfBlanked(word: seq<Bit>)
    ensures Erasures(Blanked(word)) == Weight(word)
  {
    if word != [] {
      var n := |word| - 1;
      assert Blanked(word)[..n] == Blanked(word[..n]);
      ErasuresOfBlanked(word[..n]);
    }
  }

  lemma ImpulseWeight()
    ensures Weight(IMPULSE) == 10
  {
    var high, low := IMPULSE[..7], IMPULSE[7..];
    assert IMPULSE == high + low && Zeros(14) == Zeros(7) + Zeros(7);
    DistanceConcat(high, Zeros(7), low, Zeros(7));
    DistanceOfSeven(high, Zeros(7));
    DistanceOfSeven(low, Zeros(7));
    DistanceIsWeight(IMPULSE, Zeros(14));
    assert Xor(IMPULSE, Zeros(14)) == IMPULSE;
  }

  /** For every message length, ten erasures can be beyond repair: they hide all that sets two codewords apart. */
  lemma TenErasuresCanDefeat(k: nat, e: nat)
    requires k >= 1 && e >= 10
    ensures !Recovers(k, e)
  {
    var z := Zeros(2 * (k - 1));
    var m0, m1, llrs := Zeros(k), Zeros(k - 1) + [true], Blanked(z + IMPULSE);
    ExtremeCodewords(k);
    assert Erasures(llrs) == 10 by {
      ErasuresOfBlanked(z + IMPULSE);
      WeightConcat(z, IMPULSE);
      WeightZeroMeansZeros(z);
      ImpulseWeight();
    }
    assert NoWrongSign(Encode(m0), llrs) && NoWrongSign(Encode(m1), llrs);
    assert m0[k - 1] != m1[k - 1];
    assert Decode(Soft(llrs)) != m0 || Decode(Soft(llrs)) != m1;
  }

  /** The exact number of erasures that soft decoding always makes good: nine, whatever the message length. */
  lemma ErasureRadius(k: nat, e: nat)
    requires k >= 1
    ensures Recovers(k, e) <==> e <= 9
  {
    if e <= 9 {
      forall m, llrs | |m| == k && NoWrongSign(Encode(m), llrs) && Erasures(llrs) <= e
        ensures Decode(Soft(llrs)) == m
      {
        CorrectsNineErasures(m, llrs);
      }
    } else {
      TenErasuresCanDefeat(k, e);
    }
  }

  // ---- wrong signs and erasures together ----

  ghost predicate Bounded(llrs: seq<real>, L: real) {
    forall i | 0 <= i < |llrs| :: -L <= llrs[i] <= L
  }

  /** How far the channel values fall short of full support, in all. */
  function Shortfall(word: seq<Bit>, llrs: seq<real>, L: real): real
    requires |word| <= |llrs|
  {
    if word == [] then 0.0
    else var i := |word| - 1; Shortfall(word[..i], llrs, L) + (L - Support(word[i], llrs[i]))
  }

  function Multiple(n: nat, L: real): real {
    if n == 0 then 0.0 else Multiple(n - 1, L) + L
  }

  lemma {:induction false} TenTimes(n: nat, L: real)
    requires L >= 0.0
    ensures n >= 10 ==> Multiple(n, L) >= 10.0 * L
    ensures n <= 9 && L > 0.0 ==> Multiple(n, L) < 10.0 * L
    ensures Multiple(n, L) == n as real * L
  {
    if n > 0 {
      TenTimes(n - 1, L);
    }
  }

  lemma {:induction false} SupportBound(word: seq<Bit>, llrs: seq<real>, L: real, d: seq<Bit>)
    requires |word| == |d| <= |llrs| && Bounded(llrs, L)
    ensures SupportSum(word, llrs, d) >= Multiple(Weight(d), L) - Shortfall(word, llrs, L)
  {
    if word != [] {
      var n := |word| - 1;
      SupportBound(word[..n], llrs, L, d[..n]);
    }
  }

  /** Channel values of at most `L` in magnitude that fall short by less than `10 L` in all, wrong signs included. */
  lemma CorrectsSmallShortfall(m: seq<Bit>, llrs: seq<real>, L: real)
    requires |llrs| == |Encode(m)| && L >= 0.0 && Bounded(llrs, L) && Shortfall(Encode(m), llrs, L) < 10.0 * L
    ensures Decode(Soft(llrs)) == m
  {
    var word := Encode(m);
    forall d | |d| == |word| && Weight(d) >= 10
      ensures SupportSum(word, llrs, d) > 0.0
    {
      SupportBound(word, llrs, L, d);
      TenTimes(Weight(d), L);
    }
    CorrectsWhenTensSupport(m, llrs);
  }

  /** Channel values of one magnitude, or zero. */
  ghost predicate Ternary(llrs: seq<real>, L: real) {
    forall i | 0 <= i < |llrs| :: llrs[i] == L || llrs[i] == 0.0 || llrs[i] == -L
  }

  /** The number of channel values that speak against their coded bits. */
  function WrongSigns(word: seq<Bit>, llrs: seq<real>): nat
    requires |word| <= |llrs|
  {
    if word == [] then 0
    else var i := |word| - 1; WrongSigns(word[..i], llrs) + if Support(word[i], llrs[i]) < 0.0 then 1 else 0
  }

  lemma OneShortfall(bit: Bit, llr: real, L: real)
    requires L > 0.0 && (llr == L || llr == 0.0 || llr == -L)
    ensures L - Support(bit, llr) == if Support(bit, llr) < 0.0 then L + L else if llr == 0.0 then L else 0.0
  {
  }

  lemma TwoMore(k: nat, L: real)
    ensures Multiple(k + 1, L) == Multiple(k, L) + L
    ensures Multiple(k + 2, L) == Multiple(k, L) + L + L
  {
  }

  lemma {:induction false} TernaryShortfall(word: seq<Bit>, llrs: seq<real>, L: real, n: nat)
    requires |word| == n <= |llrs| && L > 0.0 && Ternary(llrs, L)
    ensures Shortfall(word, llrs, L) == Multiple(2 * WrongSigns(word, llrs) + Erasures(llrs[..n]), L)
    decreases n
  {
    if n > 0 {
      assert llrs[..n][..n - 1] == llrs[..n - 1];
      TernaryShortfall(word[..n - 1], llrs, L, n - 1);
      OneShortfall(word[n - 1], llrs[n - 1], L);
      TwoMore(2 * WrongSigns(word[..n - 1], llrs) + Erasures(llrs[..n - 1]), L);
    }
  }

  /** The soft decoder undoes up to `e` wrong signs and `s` erasures at once, in every codeword of a `k`-bit message. */
  ghost predicate Undoes(k: nat, e: nat, s: nat) {
    forall m, llrs, L |
      && |m| == k && |llrs| == |Encode(m)| && L > 0.0 && Ternary(llrs, L)
      && WrongSigns(Encode(m), llrs) <= e && Erasures(llrs) <= s ::
      Decode(Soft(llrs)) == m
  }

  lemma CorrectsMixture(m: seq<Bit>, llrs: seq<real>, L: real)
    requires |llrs| == |Encode(m)| && L > 0.0 && Ternary(llrs, L)
    requires 2 * WrongSigns(Encode(m), llrs) + Erasures(llrs) <= 9
    ensures Decode(Soft(llrs)) == m
  {
    assert llrs[..|llrs|] == llrs;
    TernaryShortfall(Encode(m), llrs, L, |llrs|);
    TenTimes(2 * WrongSigns(Encode(m), llrs) + Erasures(llrs), L);
    assert Bounded(llrs, L);
    CorrectsSmallShortfall(m, llrs, L);
  }

  /** Of the ones of `word`, the first `s` are erased, the next `e` received as ones, and the rest as zeros. */
  function Halfway(word: seq<Bit>, s: nat, e: nat): (llrs: seq<real>)
    ensures |llrs| == |word|
  {
    seq(|word|, i requires 0 <= i < |word| => Halved(word[i], Weight(word[..i]), s, e))
  }

  function Halved(bit: Bit, before: nat, s: nat, e: nat): real {
    if bit && before < s then 0.0 else if bit && before < s + e then -1.0 else 1.0
  }

  function UpTo(x: int, y: nat): nat {
    if x < 0 then 0 else if x < y then x else y
  }

  lemma HalfwayFront(word: seq<Bit>, s: nat, e: nat, n: nat)
    requires n <= |word|
    ensures Halfway(word, s, e)[..n] == Halfway(word[..n], s, e)
  {
    assert forall i | 0 <= i < n :: word[..n][..i] == word[..i];
  }

  lemma {:induction false} HalfwayCounts(word: seq<Bit>, s: nat, e: nat, n: nat)
    requires n <= |word|
    ensures var w, llrs := Weight(word[..n]), Halfway(word, s, e);
            && Erasures(llrs[..n]) == UpTo(w, s)
            && WrongSigns(Zeros(n), llrs) == UpTo(w - s, e)
            && WrongSigns(word[..n], llrs) == (if w > s + e then w - s - e else 0)
    decreases n
  {
    if n > 0 {
      var llrs := Halfway(word, s, e);
      HalfwayCounts(word, s, e, n - 1);
      assert word[..n][..n - 1] == word[..n - 1] && llrs[..n][..n - 1] == llrs[..n - 1];
      assert Zeros(n)[..n - 1] == Zeros(n - 1);
      assert llrs[n - 1] == Halved(word[n - 1], Weight(word[..n - 1]), s, e);
    }
  }

  lemma SplitTen(e: nat, s: nat) returns (e': nat, s': nat)
    requires 2 * e + s >= 10
    ensures e' <= e && s' <= s && 2 * e' + s' == 10
  {
    s' := if s >= 10 then 10 else s - s % 2;
    e' := (10 - s') / 2;
  }

  lemma HalfwayIsTernary(word: seq<Bit>, s: nat, e: nat)
    ensures Ternary(Halfway(word, s, e), 1.0)
  {
  }

  lemma HalfwayTies(word: seq<Bit>, s: nat, e: nat, llrs: seq<real>, n: nat)
    requires n == |word| && Weight(word) == 2 * e + s && llrs == Halfway(word, s, e)
    ensures Erasures(llrs) == s && WrongSigns(Zeros(n), llrs) == WrongSigns(word, llrs) == e
  {
    assert word[..n] == word && llrs[..n] == llrs;
    HalfwayCounts(word, s, e, n);
  }

  /** Ten ones set two codewords apart: with half of them received wrong, or erased, neither is nearer. */
  lemma MixtureCanDefeat(k: nat, e: nat, s: nat)
    requires k >= 1 && 2 * e + s >= 10
    ensures !Undoes(k, e, s)
  {
    var e', s' := SplitTen(e, s);
    var z := Zeros(2 * (k - 1));
    var m0, m1, word := Zeros(k), Zeros(k - 1) + [true], z + IMPULSE;
    var llrs := Halfway(word, s', e');
    ExtremeCodewords(k);
    assert Weight(word) == 10 by {
      WeightConcat(z, IMPULSE);
      WeightZeroMeansZeros(z);
      ImpulseWeight();
    }
    HalfwayIsTernary(word, s', e');
    HalfwayTies(word, s', e', llrs, |word|);
    assert Encode(m0) == Zeros(|word|) && Encode(m1) == word;
    assert m0[k - 1] != m1[k - 1];
    assert Decode(Soft(llrs)) != m0 || Decode(Soft(llrs)) != m1;
  }

  /** The exact radius for wrong signs and erasures together, whatever the message length: a wrong sign counts twice. */
  lemma MixedRadius(k: nat, e: nat, s: nat)
    requires k >= 1
    ensures Undoes(k, e, s) <==> 2 * e + s <= 9
  {
    if 2 * e + s <= 9 {
      forall m, llrs, L |
        && |m| == k && |llrs| == |Encode(m)| && L > 0.0 && Ternary(llrs, L)
        && WrongSigns(Encode(m), llrs) <= e && Erasures(llrs) <= s
        ensures Decode(Soft(llrs)) == m
      {
        CorrectsMixture(m, llrs, L);
      }
    } else {
      MixtureCanDefeat(k, e, s);
    }
  }

  // ---- hard and soft decoding of the same decisions agree, ties included ----

  /** Hard decisions as LLRs of one magnitude; positive means 0. */
  function Signed(h: seq<Bit>, L: real): (llrs: seq<real>)
    ensures |llrs| == |h|
  {
    seq(|h|, i requires 0 <= i < |h| => if h[i] then -L else L)
  }

  /** `b` is the same metric as `a`, stretched by `scale` and shifted by `offset`. */
  ghost predicate AffineMetric(a: Metric, b: Metric, scale: real, offset: real) {
    if a.Unreached? then b.Unreached? else b.Reached? && b.v == scale * a.v + offset
  }

  ghost predicate AffineColumn(a: Column, b: Column, scale: real, offset: real) {
    forall n | 0 <= n < NUM_STATES :: AffineMetric(a[n], b[n], scale, offset)
  }

  ghost predicate AffineCost(a: EdgeCost, b: EdgeCost, scale: real, offset: real) {
    forall p: nat, x: Bit | p < NUM_STATES :: b(p, x) == scale * a(p, x) + offset
  }

  lemma StretchKeepsOrder(scale: real, offset: real, x: real, y: real)
    requires scale > 0.0
    ensures x < y <==> scale * x + offset < scale * y + offset
  {
    if x < y {
      assert scale * (y - x) > 0.0;
    } else {
      assert scale * (x - y) >= 0.0;
    }
  }

  lemma AffineRelax(best: Candidate, best': Candidate, pm: Column, pm': Column, cost: EdgeCost, cost': EdgeCost,
                    p: nat, b: Bit, scale: real, off: real, step: real)
    requires scale > 0.0 && p < NUM_STATES
    requires AffineColumn(pm, pm', scale, off) && AffineCost(cost, cost', scale, step)
    requires best.pred == best'.pred && AffineMetric(best.metric, best'.metric, scale, off + step)
    ensures var c, c' := Relax(best, pm, cost, p, b), Relax(best', pm', cost', p, b);
            c.pred == c'.pred && AffineMetric(c.metric, c'.metric, scale, off + step)
  {
    assert AffineMetric(pm[p], pm'[p], scale, off);
    if pm[p].Reached? {
      var total, total' := pm[p].v + cost(p, b), pm'[p].v + cost'(p, b);
      assert total' == scale * total + (off + step);
      if best.metric.Reached? {
        StretchKeepsOrder(scale, off + step, total, best.metric.v);
      }
    }
  }

  lemma AffineBest(pm: Column, pm': Column, cost: EdgeCost, cost': EdgeCost,
                   n: nat, scale: real, off: real, step: real)
    requires scale > 0.0 && n < NUM_STATES
    requires AffineColumn(pm, pm', scale, off) && AffineCost(cost, cost', scale, step)
    ensures var c, c' := Best(pm, cost, n), Best(pm', cost', n);
            c.pred == c'.pred && AffineMetric(c.metric, c'.metric, scale, off + step)
  {
    var p, b, none := 2 * (n % 32), n >= 32, Candidate(Unreached, 0);
    AffineRelax(none, none, pm, pm', cost, cost', p, b, scale, off, step);
    AffineRelax(Relax(none, pm, cost, p, b), Relax(none, pm', cost', p, b), pm, pm', cost, cost',
                p + 1, b, scale, off, step);
  }

  lemma AffineStep(pm: Column, pm': Column, cost: EdgeCost, cost': EdgeCost, scale: real, off: real, step: real)
    requires scale > 0.0
    requires AffineColumn(pm, pm', scale, off) && AffineCost(cost, cost', scale, step)
    ensures AffineColumn(NextMetrics(pm, cost), NextMetrics(pm', cost'), scale, off + step)
    ensures Survivors(pm, cost) == Survivors(pm', cost')
  {
    forall n | 0 <= n < NUM_STATES
      ensures var c, c' := Best(pm, cost, n), Best(pm', cost', n);
              c.pred == c'.pred && AffineMetric(c.metric, c'.metric, scale, off + step)
    {
      AffineBest(pm, pm', cost, cost', n, scale, off, step);
    }
  }

  lemma {:induction false} AffineTables(costs: seq<EdgeCost>, costs': seq<EdgeCost>, scale: real, step: real)
    returns (offset: real)
    requires scale > 0.0 && |costs| == |costs'|
    requires forall t | 0 <= t < |costs| :: AffineCost(costs[t], costs'[t], scale, step)
    ensures AffineColumn(Metrics(costs), Metrics(costs'), scale, offset)
    ensures SurvivorTable(costs) == SurvivorTable(costs')
  {
    offset := 0.0;
    if costs != [] {
      var t := |costs| - 1;
      offset := AffineTables(costs[..t], costs'[..t], scale, step);
      AffineStep(Metrics(costs[..t]), Metrics(costs'[..t]), costs[t], costs'[t], scale, offset, step);
      offset := offset + step;
    }
  }

  lemma SignedBranch(h: seq<Bit>, L: real, t: nat, o1: Bit, o2: Bit)
    requires t < |h| / 2
    ensures Branch(Soft(Signed(h, L)), t, o1, o2) == 2.0 * L * Branch(Hard(h), t, o1, o2) - 2.0 * L
  {
  }

  lemma SoftAgreesWithHard(h: seq<Bit>, L: real)
    requires L > 0.0
    ensures Decode(Soft(Signed(h, L))) == Decode(Hard(h))
  {
    var hard, soft := EdgeCosts(Hard(h)), EdgeCosts(Soft(Signed(h, L)));
    forall t | 0 <= t < |hard|
      ensures AffineCost(hard[t], soft[t], 2.0 * L, -2.0 * L)
    {
      forall p: nat, x: Bit | p < NUM_STATES
        ensures soft[t](p, x) == 2.0 * L * hard[t](p, x) - 2.0 * L
      {
        SignedBranch(h, L, t, Out1(FromIndex(p), x), Out2(FromIndex(p), x));
      }
    }
    var _ := AffineTables(hard, soft, 2.0 * L, -2.0 * L);
  }
}
