/** Normalised min-sum belief propagation on the LDPC graph, over exact reals. */
module LdpcMinSum {
  import opened Bits
  import opened Counting
  import opened LdpcGraph

  // The largest single-precision number, where the search for a minimum starts.
  const FLT_MAX: real := 340282346638528859811704183484516925440.0

  function Clip(x: real): real {
    var low := if x < 20.0 then x else 20.0;
    if low > -20.0 then low else -20.0
  }

  /** The channel values of `n` variables; a missing one is zero. */
  function Channel(llr: seq<real>, n: nat): (ch: seq<real>)
    ensures |ch| == n
  {
    seq(n, v requires 0 <= v < n => Clip(if v < |llr| then llr[v] else 0.0))
  }

  function Message(m: seq<real>, e: nat): real {
    if e < |m| then m[e] else 0.0
  }

  // ---- variable nodes ----

  function SumOver(m: seq<real>, edges: seq<nat>): real {
    if edges == [] then 0.0 else var n := |edges| - 1; SumOver(m, edges[..n]) + Message(m, edges[n])
  }

  /** The belief in variable `v`: its channel value and every incoming message. */
  function Total(G: Graph, ch: seq<real>, mcv: seq<real>, v: nat): real {
    Message(ch, v) + SumOver(mcv, Incident(Vars(G), v))
  }

  function Hard(G: Graph, ch: seq<real>, mcv: seq<real>): (hard: seq<Bit>)
    ensures |hard| == 2 * G.k
  {
    seq(2 * G.k, v requires 0 <= v < 2 * G.k => Total(G, ch, mcv, v) < 0.0)
  }

  /** What each edge tells its check: the belief without that check's own message. */
  function ToChecks(G: Graph, ch: seq<real>, mcv: seq<real>): (m: seq<real>)
    ensures |m| == |Vars(G)|
  {
    seq(|Vars(G)|, e requires 0 <= e < |Vars(G)| => Total(G, ch, mcv, Vars(G)[e]) - Message(mcv, e))
  }

  // ---- check nodes ----

  function Abs(x: real): real {
    if x < 0.0 then -x else x
  }

  function Sign(x: real): int {
    if x < 0.0 then -1 else 1
  }

  function SignProduct(m: seq<real>, edges: seq<nat>): int {
    if edges == [] then 1 else var n := |edges| - 1; SignProduct(m, edges[..n]) * Sign(Message(m, edges[n]))
  }

  /** The smallest magnitude on the edges, at most FLT_MAX. */
  function MinMagnitude(m: seq<real>, edges: seq<nat>): real {
    if edges == [] then FLT_MAX
    else
      var n := |edges| - 1;
      var rest, a := MinMagnitude(m, edges[..n]), Abs(Message(m, edges[n]));
      if a < rest then a else rest
  }

  function Without(edges: seq<nat>, e: nat): seq<nat> {
    if edges == [] then []
    else var n := |edges| - 1; Without(edges[..n], e) + if edges[n] == e then [] else [edges[n]]
  }

  function Scaled(scale: real, sgn: int, mag: real): real {
    scale * sgn as real * mag
  }

  /** What a check tells edge `e`: the scaled sign product and least magnitude of its other edges. */
  function FromCheck(m: seq<real>, edges: seq<nat>, e: nat, scale: real): real {
    Scaled(scale, SignProduct(m, Without(edges, e)), MinMagnitude(m, Without(edges, e)))
  }

  function FromChecks(G: Graph, m: seq<real>, scale: real): (mcv: seq<real>)
    ensures |mcv| == |Checks(G)|
  {
    seq(|Checks(G)|, e requires 0 <= e < |Checks(G)| => FromCheck(m, Incident(Checks(G), Checks(G)[e]), e, scale))
  }

  // ---- iterations ----

  datatype Outcome = Outcome(info: seq<Bit>, iters: nat, cleared: bool)

  /** At most `left` more iterations after the first `it`. */
  function Iterate(G: Graph, ch: seq<real>, mcv: seq<real>, scale: real, left: nat, it: nat): Outcome
    decreases left
  {
    var hard := Hard(G, ch, mcv);
    if left == 0 then Outcome(hard[..G.k], it, false)
    else if ClearSyndrome(G, hard) then Outcome(hard[..G.k], it + 1, true)
    else Iterate(G, ch, FromChecks(G, ToChecks(G, ch, mcv), scale), scale, left - 1, it + 1)
  }

  function Silence(G: Graph): (m: seq<real>)
    ensures |m| == |Vars(G)|
  {
    seq(|Vars(G)|, e => 0.0)
  }

  function Decode(G: Graph, llr: seq<real>, maxIter: nat, scale: real): Outcome {
    Iterate(G, Channel(llr, 2 * G.k), Silence(G), scale, maxIter, 0)
  }

  // ---- early stop ----

  /** The messages from the checks after `t` flooding iterations. */
  function MessagesAfter(G: Graph, ch: seq<real>, mcv: seq<real>, scale: real, t: nat): seq<real>
    decreases t
  {
    if t == 0 then mcv else MessagesAfter(G, ch, FromChecks(G, ToChecks(G, ch, mcv), scale), scale, t - 1)
  }

  /** The hard decisions after `t` flooding iterations. */
  function HardAfter(G: Graph, ch: seq<real>, mcv: seq<real>, scale: real, t: nat): (hard: seq<Bit>)
    ensures |hard| == 2 * G.k
  {
    Hard(G, ch, MessagesAfter(G, ch, mcv, scale, t))
  }

  predicate ClearAfter(G: Graph, ch: seq<real>, mcv: seq<real>, scale: real, t: nat) {
    ClearSyndrome(G, HardAfter(G, ch, mcv, scale, t))
  }

  /** `out` is reached at the first clear syndrome among the next `left` iterations, or when they run out. */
  ghost predicate StopsRight(G: Graph, ch: seq<real>, mcv: seq<real>, scale: real, left: nat, it: nat, out: Outcome) {
    if out.cleared then
      && it < out.iters <= it + left
      && ClearAfter(G, ch, mcv, scale, out.iters - it - 1)
      && (forall t | 0 <= t < out.iters - it - 1 :: !ClearAfter(G, ch, mcv, scale, t))
      && out.info == HardAfter(G, ch, mcv, scale, out.iters - it - 1)[..G.k]
    else
      && out.iters == it + left
      && (forall t | 0 <= t < left :: !ClearAfter(G, ch, mcv, scale, t))
      && out.info == HardAfter(G, ch, mcv, scale, left)[..G.k]
  }

  lemma LaterHard(G: Graph, ch: seq<real>, mcv: seq<real>, scale: real, next: seq<real>, t: nat)
    requires next == FromChecks(G, ToChecks(G, ch, mcv), scale) && t > 0
    ensures HardAfter(G, ch, mcv, scale, t) == HardAfter(G, ch, next, scale, t - 1)
    ensures ClearAfter(G, ch, mcv, scale, t) == ClearAfter(G, ch, next, scale, t - 1)
  {
  }

  lemma OneIterationEarlier(G: Graph, ch: seq<real>, mcv: seq<real>, scale: real, left: nat, it: nat,
                            next: seq<real>, out: Outcome)
    requires left > 0 && !ClearAfter(G, ch, mcv, scale, 0) && next == FromChecks(G, ToChecks(G, ch, mcv), scale)
    requires StopsRight(G, ch, next, scale, left - 1, it + 1, out)
    ensures StopsRight(G, ch, mcv, scale, left, it, out)
  {
    var last := if out.cleared then out.iters - it - 1 else left;
    LaterHard(G, ch, mcv, scale, next, last);
    forall t | 0 <= t < last
      ensures !ClearAfter(G, ch, mcv, scale, t)
    {
      if t > 0 {
        LaterHard(G, ch, mcv, scale, next, t);
      }
    }
  }

  lemma {:induction false} IterateStops(G: Graph, ch: seq<real>, mcv: seq<real>, scale: real, left: nat, it: nat)
    ensures StopsRight(G, ch, mcv, scale, left, it, Iterate(G, ch, mcv, scale, left, it))
    decreases left
  {
    assert HardAfter(G, ch, mcv, scale, 0) == Hard(G, ch, mcv);
    if left > 0 && !ClearAfter(G, ch, mcv, scale, 0) {
      var next := FromChecks(G, ToChecks(G, ch, mcv), scale);
      IterateStops(G, ch, next, scale, left - 1, it + 1);
      OneIterationEarlier(G, ch, mcv, scale, left, it, next, Iterate(G, ch, mcv, scale, left, it));
    }
  }

  /**
   * The decoder clears exactly when the hard decisions of one of its iterations are a codeword. It then stops at the
   * first such iteration, and its info bits are those whose encoding is that very hard word; otherwise they are those
   * of the decisions after the last iteration.
   */
  lemma EarlyStopIsCodeword(G: Graph, llr: seq<real>, maxIter: nat, scale: real)
    requires WellFormed(G)
    ensures var out, ch, mcv := Decode(G, llr, maxIter, scale), Channel(llr, 2 * G.k), Silence(G);
            && (out.cleared <==> exists t | 0 <= t < maxIter :: ClearAfter(G, ch, mcv, scale, t))
            && (if out.cleared then
                  && 0 < out.iters <= maxIter
                  && Encode(G, out.info) == HardAfter(G, ch, mcv, scale, out.iters - 1)
                  && (forall t | 0 <= t < out.iters - 1 :: !ClearAfter(G, ch, mcv, scale, t))
                else out.iters == maxIter && out.info == HardAfter(G, ch, mcv, scale, maxIter)[..G.k])
  {
    var ch, mcv := Channel(llr, 2 * G.k), Silence(G);
    IterateStops(G, ch, mcv, scale, maxIter, 0);
    var out := Decode(G, llr, maxIter, scale);
    if out.cleared {
      CodewordCharacterisation(G, HardAfter(G, ch, mcv, scale, out.iters - 1));
    }
  }

  /** The hard word behind the channel values themselves. */
  function SignWord(llr: seq<real>, n: nat): (w: seq<Bit>)
    ensures |w| == n
  {
    seq(n, v requires 0 <= v < n => v < |llr| && llr[v] < 0.0)
  }

  lemma {:induction false} SilentSum(m: seq<real>, edges: seq<nat>)
    requires forall e | 0 <= e < |m| :: m[e] == 0.0
    ensures SumOver(m, edges) == 0.0
  {
    if edges != [] {
      SilentSum(m, edges[..|edges| - 1]);
    }
  }

  lemma FirstHardWord(G: Graph, llr: seq<real>)
    ensures Hard(G, Channel(llr, 2 * G.k), Silence(G)) == SignWord(llr, 2 * G.k)
  {
    forall v | 0 <= v < 2 * G.k
      ensures (Total(G, Channel(llr, 2 * G.k), Silence(G), v) < 0.0) == (v < |llr| && llr[v] < 0.0)
    {
      SilentSum(Silence(G), Incident(Vars(G), v));
    }
  }

  /** The decoder stops in its first iteration exactly when the signs already form a codeword. */
  lemma StopsAtOnceIffSignsAreCodeword(G: Graph, llr: seq<real>, maxIter: nat, scale: real)
    requires WellFormed(G) && maxIter > 0
    ensures var w, out := SignWord(llr, 2 * G.k), Decode(G, llr, maxIter, scale);
            && (out.cleared && out.iters == 1 <==> w == Encode(G, w[..G.k]))
            && (w == Encode(G, w[..G.k]) ==> out == Outcome(w[..G.k], 1, true))
  {
    var w, ch, mcv := SignWord(llr, 2 * G.k), Channel(llr, 2 * G.k), Silence(G);
    FirstHardWord(G, llr);
    CodewordCharacterisation(G, w);
    if !ClearSyndrome(G, w) {
      LaterStop(G, ch, FromChecks(G, ToChecks(G, ch, mcv), scale), scale, maxIter - 1, 1);
    }
  }

  lemma {:induction false} LaterStop(G: Graph, ch: seq<real>, mcv: seq<real>, scale: real, left: nat, it: nat)
    ensures var out := Iterate(G, ch, mcv, scale, left, it); out.cleared ==> out.iters > it
    decreases left
  {
    if left > 0 && !ClearSyndrome(G, Hard(G, ch, mcv)) {
      LaterStop(G, ch, FromChecks(G, ToChecks(G, ch, mcv), scale), scale, left - 1, it + 1);
    }
  }

  /** Correctly signed channel values give the original info bits back in iteration 1. */
  lemma CorrectSignsDecode(G: Graph, info: seq<Bit>, llr: seq<real>, maxIter: nat, scale: real)
    requires WellFormed(G) && maxIter > 0 && |info| == G.k && SignWord(llr, 2 * G.k) == Encode(G, info)
    ensures Decode(G, llr, maxIter, scale) == Outcome(info, 1, true)
  {
    var cw := Encode(G, info);
    assert cw[..G.k] == InfoWord(info, G.k) == info;
    StopsAtOnceIffSignsAreCodeword(G, llr, maxIter, scale);
  }

  // ---- the one-pass minimum ----

  lemma {:induction false} MinMagnitudeIsLeast(m: seq<real>, edges: seq<nat>)
    ensures MinMagnitude(m, edges) <= FLT_MAX
    ensures forall e | e in edges :: MinMagnitude(m, edges) <= Abs(Message(m, e))
    ensures MinMagnitude(m, edges) == FLT_MAX || exists e | e in edges :: MinMagnitude(m, edges) == Abs(Message(m, e))
  {
    if edges != [] {
      var n := |edges| - 1;
      MinMagnitudeIsLeast(m, edges[..n]);
      assert edges == edges[..n] + [edges[n]];
      assert edges[n] in edges;
    }
  }

  lemma {:induction false} WithoutMembers(edges: seq<nat>, e: nat)
    ensures forall f :: f in Without(edges, e) <==> f in edges && f != e
  {
    if edges != [] {
      var n := |edges| - 1;
      WithoutMembers(edges[..n], e);
      assert edges == edges[..n] + [edges[n]];
    }
  }

  lemma {:induction false} WithoutAbsent(edges: seq<nat>, e: nat)
    requires e !in edges
    ensures Without(edges, e) == edges
  {
    if edges != [] {
      var n := |edges| - 1;
      WithoutAbsent(edges[..n], e);
    }
  }

  lemma {:induction false} SignWithout(m: seq<real>, edges: seq<nat>, e: nat)
    requires Distinct(edges) && e in edges
    ensures SignProduct(m, edges) == SignProduct(m, Without(edges, e)) * Sign(Message(m, e))
  {
    var n := |edges| - 1;
    var front, last := edges[..n], edges[n];
    assert edges == front + [last];
    if last == e {
      WithoutAbsent(front, e);
      assert Without(edges, e) == front;
    } else {
      SignWithout(m, front, e);
      var rest := Without(front, e);
      assert Without(edges, e)[..|rest|] == rest;
      SwapFactors(SignProduct(m, rest), Sign(Message(m, e)), Sign(Message(m, last)));
    }
  }

  lemma SwapFactors(a: int, b: int, c: int)
    ensures a * b * c == a * c * b
  {
  }

  /** The two smallest magnitudes seen so far and where the smallest is; -1 while none is below FLT_MAX. */
  ghost predicate TwoMinima(m: seq<real>, edges: seq<nat>, min1: real, min2: real, argmin1: int) {
    && min1 == MinMagnitude(m, edges)
    && (if argmin1 < 0 then min1 == FLT_MAX && min2 == FLT_MAX
        else
          && argmin1 in edges && Abs(Message(m, argmin1)) == min1
          && min2 == MinMagnitude(m, Without(edges, argmin1)))
  }

  lemma WithoutSnoc(edges: seq<nat>, f: nat, e: nat)
    ensures Without(edges + [f], e) == Without(edges, e) + if f == e then [] else [f]
  {
    assert (edges + [f])[..|edges|] == edges;
  }

  lemma MinSnoc(m: seq<real>, edges: seq<nat>, e: nat)
    ensures var a, rest := Abs(Message(m, e)), MinMagnitude(m, edges);
            MinMagnitude(m, edges + [e]) == if a < rest then a else rest
  {
    assert (edges + [e])[..|edges|] == edges;
  }

  lemma NextMinima(m: seq<real>, edges: seq<nat>, min1: real, min2: real, argmin1: int, e: nat, a: real)
    requires TwoMinima(m, edges, min1, min2, argmin1) && e !in edges && a == Abs(Message(m, e))
    ensures a < min1 ==> TwoMinima(m, edges + [e], a, min1, e)
    ensures min1 <= a ==> TwoMinima(m, edges + [e], min1, if a < min2 then a else min2, argmin1)
  {
    MinSnoc(m, edges, e);
    if a < min1 {
      WithoutAbsent(edges, e);
      WithoutSnoc(edges, e, e);
      assert Without(edges + [e], e) == edges;
    } else if argmin1 >= 0 {
      WithoutSnoc(edges, e, argmin1);
      MinSnoc(m, Without(edges, argmin1), e);
    }
  }

  /** The magnitude picked for edge `e` is the least over all other edges, ties included. */
  lemma MinimumOfOthers(m: seq<real>, edges: seq<nat>, min1: real, min2: real, argmin1: int, e: nat)
    requires TwoMinima(m, edges, min1, min2, argmin1) && e in edges
    ensures (if e == argmin1 then min2 else min1) == MinMagnitude(m, Without(edges, e))
  {
    if e != argmin1 {
      var others := Without(edges, e);
      WithoutMembers(edges, e);
      MinMagnitudeIsLeast(m, edges);
      MinMagnitudeIsLeast(m, others);
      if argmin1 >= 0 {
        assert argmin1 in others;
      }
    }
  }

  lemma SignOfOthers(all: int, others: int, x: real)
    requires all == others * Sign(x)
    ensures (if x < 0.0 then -all else all) == others
  {
  }

  /** The sign product without the edge's own sign, and the minimum that is not its own, make its message. */
  lemma PickedMessage(m: seq<real>, edges: seq<nat>, min1: real, min2: real, argmin1: int, e: nat, scale: real,
                      sgn: int, mag: real)
    requires TwoMinima(m, edges, min1, min2, argmin1) && Distinct(edges) && e in edges
    requires sgn == if Message(m, e) < 0.0 then -SignProduct(m, edges) else SignProduct(m, edges)
    requires mag == if e == argmin1 then min2 else min1
    ensures Scaled(scale, sgn, mag) == FromCheck(m, edges, e, scale)
  {
    MinimumOfOthers(m, edges, min1, min2, argmin1, e);
    SignWithout(m, edges, e);
    SignOfOthers(SignProduct(m, edges), SignProduct(m, Without(edges, e)), Message(m, e));
  }
}
