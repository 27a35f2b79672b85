/** Min-sum decoding of erasures: with no wrong sign among the channel values it is the peeling decoder. */
module LdpcPeeling {
  import opened Bits
  import opened Counting
  import opened LdpcGraph
  import opened LdpcMinSum

  // ---- what one update computes, in terms of the incoming messages ----

  /** The clipped value is the nearest one between -20 and 20. */
  lemma ClipIsNearest(x: real, y: real)
    requires -20.0 <= y <= 20.0
    ensures -20.0 <= Clip(x) <= 20.0 && Abs(Clip(x) - x) <= Abs(y - x)
  {
  }

  /** Every variable starts from its channel value, or from zero if there is none, cut off at 20 either way. */
  lemma ChannelIsClipped(llr: seq<real>, n: nat, v: nat, y: real)
    requires v < n && -20.0 <= y <= 20.0
    ensures var x, c := if v < |llr| then llr[v] else 0.0, Channel(llr, n)[v];
            -20.0 <= c <= 20.0 && Abs(c - x) <= Abs(y - x)
  {
    ClipIsNearest(if v < |llr| then llr[v] else 0.0, y);
  }

  lemma {:induction false} SumWithout(m: seq<real>, edges: seq<nat>, e: nat)
    requires Distinct(edges) && e in edges
    ensures SumOver(m, edges) == SumOver(m, Without(edges, e)) + Message(m, e)
  {
    var n := |edges| - 1;
    var front, last := edges[..n], edges[n];
    assert edges == front + [last];
    if last == e {
      WithoutAbsent(front, e);
      assert Without(edges, e) == front;
    } else {
      SumWithout(m, front, e);
      var rest := Without(front, e);
      assert Without(edges, e)[..|rest|] == rest;
    }
  }

  lemma EdgesAt(ends: seq<nat>, x: nat)
    ensures Distinct(Incident(ends, x)) && forall e: nat :: e in Incident(ends, x) <==> e < |ends| && ends[e] == x
  {
    IncidentIff(ends, x);
    IncidentOrdered(ends, x);
  }

  /** A variable tells a check its channel value and what all its other checks told it. */
  lemma ToCheckIsExtrinsic(G: Graph, ch: seq<real>, mcv: seq<real>, e: nat)
    requires e < |Vars(G)|
    ensures var v := Vars(G)[e];
            ToChecks(G, ch, mcv)[e] == Message(ch, v) + SumOver(mcv, Without(Incident(Vars(G), v), e))
  {
    var v := Vars(G)[e];
    EdgesAt(Vars(G), v);
    SumWithout(mcv, Incident(Vars(G), v), e);
  }

  /** The number of negative messages on the edges. */
  function Negatives(m: seq<real>, edges: seq<nat>): nat {
    if edges == [] then 0
    else var n := |edges| - 1; Negatives(m, edges[..n]) + if Message(m, edges[n]) < 0.0 then 1 else 0
  }

  lemma {:induction false} SignProductParity(m: seq<real>, edges: seq<nat>)
    ensures SignProduct(m, edges) == if Negatives(m, edges) % 2 == 1 then -1 else 1
  {
    if edges != [] {
      SignProductParity(m, edges[..|edges| - 1]);
    }
  }

  lemma ScaledSign(scale: real, sgn: int, mag: real)
    requires scale > 0.0 && (sgn == 1 || sgn == -1) && mag >= 0.0
    ensures Abs(Scaled(scale, sgn, mag)) == scale * mag
    ensures Scaled(scale, sgn, mag) < 0.0 <==> sgn == -1 && mag > 0.0
    ensures Scaled(scale, sgn, mag) == 0.0 <==> mag == 0.0
  {
    assert scale * mag >= 0.0;
    assert scale * 1 as real * mag == scale * mag && scale * (-1) as real * mag == -(scale * mag);
    assert mag > 0.0 ==> scale * mag > 0.0;
  }

  /** The sign of a check's message: negative exactly when an odd number of the other messages, all non-zero, are. */
  lemma CheckMessageSign(m: seq<real>, edges: seq<nat>, e: nat, scale: real)
    requires scale > 0.0 && forall f | f in edges && f != e :: Message(m, f) != 0.0
    ensures FromCheck(m, edges, e, scale) < 0.0 <==> Negatives(m, Without(edges, e)) % 2 == 1
  {
    var others := Without(edges, e);
    WithoutMembers(edges, e);
    MinMagnitudeIsLeast(m, others);
    SignProductParity(m, others);
    ScaledSign(scale, SignProduct(m, others), MinMagnitude(m, others));
  }

  /** The value at most `bound` and at most all of the magnitudes on `edges`, which is one of them. */
  ghost predicate IsLeast(m: seq<real>, edges: seq<nat>, mag: real, bound: real) {
    && mag <= bound && (forall f | f in edges :: mag <= Abs(Message(m, f)))
    && (mag == bound || exists f | f in edges :: mag == Abs(Message(m, f)))
  }

  /** Its magnitude: `scale` times the least magnitude of the other messages, but at most the largest float. */
  lemma CheckMessageMagnitude(m: seq<real>, edges: seq<nat>, e: nat, scale: real) returns (mag: real)
    requires scale > 0.0
    ensures Abs(FromCheck(m, edges, e, scale)) == scale * mag && IsLeast(m, Without(edges, e), mag, FLT_MAX)
    ensures forall f :: f in Without(edges, e) <==> f in edges && f != e
  {
    var others := Without(edges, e);
    mag := MinMagnitude(m, others);
    WithoutMembers(edges, e);
    MinMagnitudeIsLeast(m, others);
    SignProductParity(m, others);
    ScaledSign(scale, SignProduct(m, others), mag);
  }

  // ---- which edges know their bit ----

  /** `x` speaks for bit `b`; without knowledge of it, `x` says nothing. */
  ghost predicate Says(x: real, b: Bit, known: bool) {
    if !known then x == 0.0 else if b then x < 0.0 else x > 0.0
  }

  /** After `t` iterations the check of edge `e` has told its variable: all its other variables had told it. */
  ghost predicate Told(G: Graph, given: seq<bool>, t: nat, e: nat)
    decreases t, 0
  {
    && t > 0 && e < |Checks(G)|
    && forall f | f in Incident(Checks(G), Checks(G)[e]) && f != e :: Tells(G, given, t - 1, f)
  }

  /** The variable of edge `f` can tell its check: it is given, or another of its checks has told it. */
  ghost predicate Tells(G: Graph, given: seq<bool>, t: nat, f: nat)
    decreases t, 1
  {
    && f < |Vars(G)|
    && (At(given, Vars(G)[f]) || exists g | g in Incident(Vars(G), Vars(G)[f]) && g != f :: Told(G, given, t, g))
  }

  /** The bit of variable `v` is known after `t` iterations. */
  ghost predicate Settled(G: Graph, given: seq<bool>, t: nat, v: nat) {
    At(given, v) || exists g | g in Incident(Vars(G), v) :: Told(G, given, t, g)
  }

  // ---- messages say what is known ----

  ghost predicate Any(edges: seq<nat>, told: nat -> bool) {
    exists e | e in edges :: told(e)
  }

  lemma {:induction false} SumSays(m: seq<real>, edges: seq<nat>, b: Bit, told: nat -> bool)
    requires forall e | e in edges :: Says(Message(m, e), b, told(e))
    ensures Says(SumOver(m, edges), b, Any(edges, told))
  {
    if edges != [] {
      var n := |edges| - 1;
      assert edges == edges[..n] + [edges[n]];
      SumSays(m, edges[..n], b, told);
    }
  }

  lemma TogetherSay(x: real, y: real, b: Bit, p: bool, q: bool)
    requires Says(x, b, p) && Says(y, b, q)
    ensures Says(x + y, b, p || q)
  {
  }

  lemma {:induction false} ParityOfNegatives(m: seq<real>, c: seq<Bit>, vs: seq<nat>, edges: seq<nat>)
    requires forall f | f in edges :: Says(Message(m, f), At(c, EndOf(vs, f)), true)
    ensures Parity(c, Neighbours(vs, edges)) == (Negatives(m, edges) % 2 == 1)
  {
    if edges != [] {
      var n := |edges| - 1;
      assert edges == edges[..n] + [edges[n]] && Neighbours(vs, edges)[..n] == Neighbours(vs, edges[..n]);
      ParityOfNegatives(m, c, vs, edges[..n]);
    }
  }

  lemma ParitySnoc(c: seq<Bit>, vs: seq<nat>, edges: seq<nat>, f: nat)
    ensures Parity(c, Neighbours(vs, edges + [f])) == (Parity(c, Neighbours(vs, edges)) != At(c, EndOf(vs, f)))
  {
    assert Neighbours(vs, edges + [f])[..|edges|] == Neighbours(vs, edges);
  }

  lemma {:induction false} ParityWithout(c: seq<Bit>, vs: seq<nat>, edges: seq<nat>, e: nat)
    requires Distinct(edges) && e in edges
    ensures Parity(c, Neighbours(vs, edges)) == (Parity(c, Neighbours(vs, Without(edges, e))) != At(c, EndOf(vs, e)))
  {
    var n := |edges| - 1;
    var front, last := edges[..n], edges[n];
    assert edges == front + [last];
    ParitySnoc(c, vs, front, last);
    if last == e {
      WithoutAbsent(front, e);
      assert Without(edges, e) == front;
    } else {
      ParityWithout(c, vs, front, e);
      ParitySnoc(c, vs, Without(front, e), last);
    }
  }

  /** On a satisfied check, the others' bits determine the bit of edge `e`. */
  lemma CheckDetermines(G: Graph, c: seq<Bit>, e: nat)
    requires WellFormed(G) && ClearSyndrome(G, c) && e < |Checks(G)| && Checks(G)[e] < G.k
    ensures At(c, EndOf(Vars(G), e)) == Parity(c, Neighbours(Vars(G), Without(Incident(Checks(G), Checks(G)[e]), e)))
  {
    var r := Checks(G)[e];
    EdgesAt(Checks(G), r);
    ParityWithout(c, Vars(G), Incident(Checks(G), r), e);
    assert !Syndrome(G, c, r);
  }

  /** What a satisfied check tells edge `e` when its other edges say what they know. */
  lemma CheckSays(m: seq<real>, c: seq<Bit>, vs: seq<nat>, edges: seq<nat>, e: nat, scale: real, tells: nat -> bool)
    requires scale > 0.0
    requires At(c, EndOf(vs, e)) == Parity(c, Neighbours(vs, Without(edges, e)))
    requires forall f | f in edges && f != e :: Says(Message(m, f), At(c, EndOf(vs, f)), tells(f))
    ensures Says(FromCheck(m, edges, e, scale), At(c, EndOf(vs, e)), forall f | f in edges && f != e :: tells(f))
  {
    var others := Without(edges, e);
    WithoutMembers(edges, e);
    MinMagnitudeIsLeast(m, others);
    SignProductParity(m, others);
    ScaledSign(scale, SignProduct(m, others), MinMagnitude(m, others));
    if forall f | f in edges && f != e :: tells(f) {
      ParityOfNegatives(m, c, vs, others);
    }
  }

  /** The messages from the checks say exactly what `told` says they have told. */
  ghost predicate ChecksSay(G: Graph, c: seq<Bit>, mcv: seq<real>, told: nat -> bool) {
    |mcv| == |Checks(G)| == |Vars(G)| && forall e: nat | e < |mcv| :: Says(mcv[e], At(c, Vars(G)[e]), told(e))
  }

  ghost predicate ChannelSays(G: Graph, c: seq<Bit>, given: seq<bool>, ch: seq<real>) {
    forall v: nat | v < 2 * G.k :: Says(Message(ch, v), At(c, v), At(given, v))
  }

  lemma EdgeEnds(G: Graph)
    requires WellFormed(G)
    ensures |Vars(G)| == |Checks(G)|
    ensures forall e | 0 <= e < |Vars(G)| :: Vars(G)[e] < 2 * G.k && Checks(G)[e] < G.k
  {
    EndsBelow(G.k, G.k);
  }

  /** A sum of messages to one variable, and its channel value, say what any of them knows. */
  lemma BeliefSays(G: Graph, c: seq<Bit>, mcv: seq<real>, told: nat -> bool, edges: seq<nat>, v: nat, x: real,
                   known: bool)
    requires ChecksSay(G, c, mcv, told) && Says(x, At(c, v), known)
    requires forall e | e in edges :: e < |Vars(G)| && Vars(G)[e] == v
    ensures Says(x + SumOver(mcv, edges), At(c, v), known || Any(edges, told))
  {
    SumSays(mcv, edges, At(c, v), told);
    TogetherSay(x, SumOver(mcv, edges), At(c, v), known, Any(edges, told));
  }

  lemma TotalSays(G: Graph, c: seq<Bit>, given: seq<bool>, ch: seq<real>, mcv: seq<real>, told: nat -> bool, v: nat)
    requires ChannelSays(G, c, given, ch) && ChecksSay(G, c, mcv, told) && v < 2 * G.k
    ensures Says(Total(G, ch, mcv, v), At(c, v), At(given, v) || Any(Incident(Vars(G), v), told))
  {
    EdgesAt(Vars(G), v);
    BeliefSays(G, c, mcv, told, Incident(Vars(G), v), v, Message(ch, v), At(given, v));
  }

  lemma VariableSays(G: Graph, c: seq<Bit>, given: seq<bool>, ch: seq<real>, mcv: seq<real>, told: nat -> bool,
                     f: nat, v: nat, edges: seq<nat>)
    requires ChannelSays(G, c, given, ch) && ChecksSay(G, c, mcv, told)
    requires f < |Vars(G)| && v == Vars(G)[f] < 2 * G.k && edges == Incident(Vars(G), v)
    ensures Says(ToChecks(G, ch, mcv)[f], At(c, v), At(given, v) || Any(Without(edges, f), told))
  {
    EdgesAt(Vars(G), v);
    WithoutMembers(edges, f);
    ToCheckIsExtrinsic(G, ch, mcv, f);
    BeliefSays(G, c, mcv, told, Without(edges, f), v, Message(ch, v), At(given, v));
  }

  /** The messages to the checks say exactly what the variables can tell. */
  ghost predicate VariablesSay(G: Graph, c: seq<Bit>, m: seq<real>, tells: nat -> bool) {
    |m| == |Vars(G)| && forall f: nat | f < |m| :: Says(m[f], At(c, Vars(G)[f]), tells(f))
  }

  lemma OneCheckSays(G: Graph, c: seq<Bit>, m: seq<real>, scale: real, tells: nat -> bool, e: nat, edges: seq<nat>)
    requires WellFormed(G) && ClearSyndrome(G, c) && scale > 0.0 && VariablesSay(G, c, m, tells)
    requires e < |Checks(G)| == |Vars(G)| && Checks(G)[e] < G.k && edges == Incident(Checks(G), Checks(G)[e])
    ensures Says(FromCheck(m, edges, e, scale), At(c, Vars(G)[e]), forall f | f in edges && f != e :: tells(f))
  {
    EdgesAt(Checks(G), Checks(G)[e]);
    CheckDetermines(G, c, e);
    CheckSays(m, c, Vars(G), edges, e, scale, tells);
  }

  lemma TellsIff(G: Graph, given: seq<bool>, t: nat, f: nat, v: nat, others: seq<nat>)
    requires f < |Vars(G)| && v == Vars(G)[f] && others == Without(Incident(Vars(G), v), f)
    ensures Tells(G, given, t, f) <==> At(given, v) || Any(others, (e: nat) => Told(G, given, t, e))
  {
    var told := (e: nat) => Told(G, given, t, e);
    WithoutMembers(Incident(Vars(G), v), f);
    if Any(others, told) {
      var e :| e in others && told(e);
      assert Told(G, given, t, e);
    }
    if Tells(G, given, t, f) && !At(given, v) {
      var g :| g in Incident(Vars(G), v) && g != f && Told(G, given, t, g);
      assert g in others && told(g);
    }
  }

  /** All other variables of check `r` can tell it, by edges other than `e`. */
  ghost predicate OthersTell(G: Graph, given: seq<bool>, t: nat, e: nat, r: nat) {
    forall f | f in Incident(Checks(G), r) && f != e :: Tells(G, given, t, f)
  }

  lemma ToldIff(G: Graph, given: seq<bool>, t: nat, e: nat, r: nat)
    requires e < |Checks(G)| && r == Checks(G)[e]
    ensures Told(G, given, t + 1, e) <==> OthersTell(G, given, t, e, r)
  {
    var s := t + 1;
    if Told(G, given, s, e) {
      assert OthersTell(G, given, s - 1, e, r);
    }
    if OthersTell(G, given, s - 1, e, r) {
      assert Told(G, given, s, e);
    }
  }

  lemma VariablesTell(G: Graph, c: seq<Bit>, given: seq<bool>, ch: seq<real>, mcv: seq<real>, t: nat)
    requires WellFormed(G) && ChannelSays(G, c, given, ch) && ChecksSay(G, c, mcv, (e: nat) => Told(G, given, t, e))
    ensures VariablesSay(G, c, ToChecks(G, ch, mcv), (f: nat) => Tells(G, given, t, f))
  {
    EdgeEnds(G);
    var told := (e: nat) => Told(G, given, t, e);
    forall f: nat | f < |Vars(G)|
      ensures Says(ToChecks(G, ch, mcv)[f], At(c, Vars(G)[f]), Tells(G, given, t, f))
    {
      var v := Vars(G)[f];
      VariableSays(G, c, given, ch, mcv, told, f, v, Incident(Vars(G), v));
      TellsIff(G, given, t, f, v, Without(Incident(Vars(G), v), f));
    }
  }

  lemma ChecksTell(G: Graph, c: seq<Bit>, given: seq<bool>, m: seq<real>, scale: real, t: nat)
    requires WellFormed(G) && ClearSyndrome(G, c) && scale > 0.0
    requires VariablesSay(G, c, m, (f: nat) => Tells(G, given, t, f))
    ensures ChecksSay(G, c, FromChecks(G, m, scale), (e: nat) => Told(G, given, t + 1, e))
  {
    EdgeEnds(G);
    var tells := (f: nat) => Tells(G, given, t, f);
    forall e: nat | e < |Checks(G)|
      ensures Says(FromChecks(G, m, scale)[e], At(c, Vars(G)[e]), Told(G, given, t + 1, e))
    {
      var r := Checks(G)[e];
      OneCheckSays(G, c, m, scale, tells, e, Incident(Checks(G), r));
      ToldIff(G, given, t, e, r);
    }
  }

  lemma {:induction false} MessagesStep(G: Graph, ch: seq<real>, mcv: seq<real>, scale: real, t: nat)
    ensures MessagesAfter(G, ch, mcv, scale, t + 1)
         == FromChecks(G, ToChecks(G, ch, MessagesAfter(G, ch, mcv, scale, t)), scale)
    decreases t
  {
    if t > 0 {
      MessagesStep(G, ch, FromChecks(G, ToChecks(G, ch, mcv), scale), scale, t - 1);
    }
  }

  lemma SilenceTells(G: Graph, c: seq<Bit>, given: seq<bool>)
    requires WellFormed(G)
    ensures ChecksSay(G, c, Silence(G), (e: nat) => Told(G, given, 0, e))
  {
    EdgeEnds(G);
    forall e: nat
      ensures !Told(G, given, 0, e)
    {
    }
  }

  lemma IterationTells(G: Graph, c: seq<Bit>, given: seq<bool>, ch: seq<real>, mcv: seq<real>, scale: real, t: nat,
                       next: seq<real>)
    requires WellFormed(G) && ClearSyndrome(G, c) && scale > 0.0 && ChannelSays(G, c, given, ch)
    requires ChecksSay(G, c, mcv, (e: nat) => Told(G, given, t, e))
    requires next == FromChecks(G, ToChecks(G, ch, mcv), scale)
    ensures ChecksSay(G, c, next, (e: nat) => Told(G, given, t + 1, e))
  {
    VariablesTell(G, c, given, ch, mcv, t);
    ChecksTell(G, c, given, ToChecks(G, ch, mcv), scale, t);
  }

  /** After every iteration the messages say exactly what peeling has found, and nothing wrong. */
  lemma {:induction false} MessagesArePeeled(G: Graph, c: seq<Bit>, given: seq<bool>, ch: seq<real>, scale: real,
                                             t: nat)
    requires WellFormed(G) && ClearSyndrome(G, c) && scale > 0.0 && ChannelSays(G, c, given, ch)
    ensures ChecksSay(G, c, MessagesAfter(G, ch, Silence(G), scale, t), (e: nat) => Told(G, given, t, e))
    decreases t
  {
    if t == 0 {
      SilenceTells(G, c, given);
    } else {
      var s := t - 1;
      MessagesArePeeled(G, c, given, ch, scale, s);
      MessagesStep(G, ch, Silence(G), scale, s);
      IterationTells(G, c, given, ch, MessagesAfter(G, ch, Silence(G), scale, s), scale, s,
                     MessagesAfter(G, ch, Silence(G), scale, t));
    }
  }

  // ---- decoding ----

  /** The channel values that are not zero. */
  function Given(llr: seq<real>, n: nat): (given: seq<bool>)
    ensures |given| == n
  {
    seq(n, v requires 0 <= v < n => Message(llr, v) != 0.0)
  }

  /** No channel value has the wrong sign for `c`; a zero, or a missing one, is an erasure. */
  ghost predicate NoneWrong(llr: seq<real>, c: seq<Bit>) {
    forall v: nat | v < |c| && Message(llr, v) != 0.0 :: Message(llr, v) < 0.0 <==> c[v]
  }

  lemma ChannelOfGiven(G: Graph, c: seq<Bit>, llr: seq<real>)
    requires |c| == 2 * G.k && NoneWrong(llr, c)
    ensures ChannelSays(G, c, Given(llr, 2 * G.k), Channel(llr, 2 * G.k))
  {
  }

  lemma SettledIff(G: Graph, given: seq<bool>, t: nat, v: nat, told: nat -> bool)
    requires forall e: nat :: told(e) == Told(G, given, t, e)
    ensures Settled(G, given, t, v) <==> At(given, v) || Any(Incident(Vars(G), v), told)
  {
  }

  /** After `t` iterations the hard word is the codeword with zeros where peeling has not got yet. */
  lemma HardWordIsPeeled(G: Graph, c: seq<Bit>, llr: seq<real>, scale: real, t: nat, v: nat)
    requires WellFormed(G) && ClearSyndrome(G, c) && |c| == 2 * G.k && scale > 0.0 && NoneWrong(llr, c) && v < 2 * G.k
    ensures HardAfter(G, Channel(llr, 2 * G.k), Silence(G), scale, t)[v]
         == (c[v] && Settled(G, Given(llr, 2 * G.k), t, v))
  {
    var ch, given := Channel(llr, 2 * G.k), Given(llr, 2 * G.k);
    ChannelOfGiven(G, c, llr);
    MessagesArePeeled(G, c, given, ch, scale, t);
    var told := (e: nat) => Told(G, given, t, e);
    TotalSays(G, c, given, ch, MessagesAfter(G, ch, Silence(G), scale, t), told, v);
    SettledIff(G, given, t, v, told);
  }

  /** Two codewords that agree on the given bits agree on all that peeling finds. */
  lemma {:induction false} ToldIsUnique(G: Graph, c: seq<Bit>, w: seq<Bit>, given: seq<bool>, t: nat, e: nat)
    requires WellFormed(G) && ClearSyndrome(G, c) && ClearSyndrome(G, w)
    requires forall v: nat | At(given, v) :: At(c, v) == At(w, v)
    requires Told(G, given, t, e)
    ensures e < |Vars(G)| && At(c, Vars(G)[e]) == At(w, Vars(G)[e])
    decreases t
  {
    EdgeEnds(G);
    var edges := Incident(Checks(G), Checks(G)[e]);
    EdgesAt(Checks(G), Checks(G)[e]);
    forall f | f in edges && f != e
      ensures At(c, EndOf(Vars(G), f)) == At(w, EndOf(Vars(G), f))
    {
      assert Tells(G, given, t - 1, f);
      if !At(given, Vars(G)[f]) {
        var g :| g in Incident(Vars(G), Vars(G)[f]) && g != f && Told(G, given, t - 1, g);
        EdgesAt(Vars(G), Vars(G)[f]);
        ToldIsUnique(G, c, w, given, t - 1, g);
      }
    }
    WithoutMembers(edges, e);
    SameParity(c, w, Vars(G), Without(edges, e));
    CheckDetermines(G, c, e);
    CheckDetermines(G, w, e);
  }

  lemma {:induction false} SameParity(c: seq<Bit>, w: seq<Bit>, vs: seq<nat>, edges: seq<nat>)
    requires forall f | f in edges :: At(c, EndOf(vs, f)) == At(w, EndOf(vs, f))
    ensures Parity(c, Neighbours(vs, edges)) == Parity(w, Neighbours(vs, edges))
  {
    if edges != [] {
      var n := |edges| - 1;
      assert edges == edges[..n] + [edges[n]];
      SameParity(c, w, vs, edges[..n]);
      ParitySnoc(c, vs, edges[..n], edges[n]);
      ParitySnoc(w, vs, edges[..n], edges[n]);
    }
  }

  lemma SettledIsUnique(G: Graph, c: seq<Bit>, w: seq<Bit>, given: seq<bool>, t: nat, v: nat)
    requires WellFormed(G) && ClearSyndrome(G, c) && ClearSyndrome(G, w)
    requires forall u: nat | At(given, u) :: At(c, u) == At(w, u)
    requires Settled(G, given, t, v)
    ensures At(c, v) == At(w, v)
  {
    if !At(given, v) {
      var g :| g in Incident(Vars(G), v) && Told(G, given, t, g);
      EdgesAt(Vars(G), v);
      ToldIsUnique(G, c, w, given, t, g);
    }
  }

  /** Every variable is settled after `t` iterations. */
  ghost predicate Peels(G: Graph, given: seq<bool>, t: nat) {
    forall v: nat | v < 2 * G.k :: Settled(G, given, t, v)
  }

  lemma ClearMeansCodeword(G: Graph, c: seq<Bit>, llr: seq<real>, scale: real, s: nat, t: nat)
    requires WellFormed(G) && ClearSyndrome(G, c) && |c| == 2 * G.k && scale > 0.0 && NoneWrong(llr, c)
    requires Peels(G, Given(llr, 2 * G.k), t)
    requires ClearAfter(G, Channel(llr, 2 * G.k), Silence(G), scale, s)
    ensures HardAfter(G, Channel(llr, 2 * G.k), Silence(G), scale, s) == c
  {
    var hard, given := HardAfter(G, Channel(llr, 2 * G.k), Silence(G), scale, s), Given(llr, 2 * G.k);
    forall u: nat | At(given, u)
      ensures At(c, u) == At(hard, u)
    {
      HardWordIsPeeled(G, c, llr, scale, s, u);
    }
    forall v | 0 <= v < 2 * G.k
      ensures hard[v] == c[v]
    {
      SettledIsUnique(G, c, hard, given, t, v);
    }
  }

  /** Every one of the codeword is settled after `s` iterations. */
  ghost predicate OnesSettled(G: Graph, given: seq<bool>, c: seq<Bit>, s: nat) {
    forall v: nat | v < |c| && c[v] :: Settled(G, given, s, v)
  }

  lemma HardIsCodewordIff(G: Graph, c: seq<Bit>, llr: seq<real>, scale: real, s: nat)
    requires WellFormed(G) && ClearSyndrome(G, c) && |c| == 2 * G.k && scale > 0.0 && NoneWrong(llr, c)
    ensures HardAfter(G, Channel(llr, 2 * G.k), Silence(G), scale, s) == c
       <==> OnesSettled(G, Given(llr, 2 * G.k), c, s)
  {
    var hard := HardAfter(G, Channel(llr, 2 * G.k), Silence(G), scale, s);
    forall v: nat | v < 2 * G.k
      ensures hard[v] == (c[v] && Settled(G, Given(llr, 2 * G.k), s, v))
    {
      HardWordIsPeeled(G, c, llr, scale, s, v);
    }
  }

  lemma InfoOfCodeword(G: Graph, info: seq<Bit>, c: seq<Bit>)
    requires WellFormed(G) && |info| == G.k && c == Encode(G, info)
    ensures ClearSyndrome(G, c) && |c| == 2 * G.k && c[..G.k] == info
  {
    assert c[..G.k] == InfoWord(info, G.k) == info;
    CodewordCharacterisation(G, c);
  }

  lemma ClearIffOnesSettled(G: Graph, c: seq<Bit>, llr: seq<real>, scale: real, s: nat, t: nat)
    requires WellFormed(G) && ClearSyndrome(G, c) && |c| == 2 * G.k && scale > 0.0 && NoneWrong(llr, c)
    requires Peels(G, Given(llr, 2 * G.k), t)
    ensures ClearAfter(G, Channel(llr, 2 * G.k), Silence(G), scale, s) <==> OnesSettled(G, Given(llr, 2 * G.k), c, s)
  {
    HardIsCodewordIff(G, c, llr, scale, s);
    if ClearAfter(G, Channel(llr, 2 * G.k), Silence(G), scale, s) {
      ClearMeansCodeword(G, c, llr, scale, s, t);
    }
  }

  /** The decoder stops at the first `s` for which `ones` holds when that is what a clear syndrome means. */
  lemma StopsWithFirst(G: Graph, ch: seq<real>, mcv: seq<real>, scale: real, maxIter: nat, t: nat, ones: nat -> bool,
                       out: Outcome)
    requires t < maxIter && ones(t) && out == Iterate(G, ch, mcv, scale, maxIter, 0)
    requires forall s: nat :: ClearAfter(G, ch, mcv, scale, s) <==> ones(s)
    ensures out.cleared && 1 <= out.iters <= t + 1 && ones(out.iters - 1)
    ensures forall s: nat | s + 1 < out.iters :: !ones(s)
    ensures out.info == HardAfter(G, ch, mcv, scale, out.iters - 1)[..G.k]
  {
    IterateStops(G, ch, mcv, scale, maxIter, 0);
    assert ClearAfter(G, ch, mcv, scale, t);
  }

  /**
   * When no channel value has the wrong sign and peeling settles every erased bit within the iterations allowed, the
   * decoder returns the info bits, and stops in the first iteration in which peeling has settled all ones.
   */
  lemma PeelingDecodes(G: Graph, info: seq<Bit>, llr: seq<real>, maxIter: nat, scale: real, t: nat)
    requires WellFormed(G) && |info| == G.k && scale > 0.0 && NoneWrong(llr, Encode(G, info))
    requires t < maxIter && Peels(G, Given(llr, 2 * G.k), t)
    ensures var out, given, c := Decode(G, llr, maxIter, scale), Given(llr, 2 * G.k), Encode(G, info);
            && out.cleared && out.info == info && 1 <= out.iters <= t + 1
            && OnesSettled(G, given, c, out.iters - 1)
            && forall s: nat | s + 1 < out.iters :: !OnesSettled(G, given, c, s)
  {
    var ch, c := Channel(llr, 2 * G.k), Encode(G, info);
    InfoOfCodeword(G, info, c);
    var given := Given(llr, 2 * G.k);
    var ones := (s: nat) => OnesSettled(G, given, c, s);
    assert ones(t);
    forall s: nat
      ensures ClearAfter(G, ch, Silence(G), scale, s) <==> ones(s)
    {
      ClearIffOnesSettled(G, c, llr, scale, s, t);
    }
    var out := Decode(G, llr, maxIter, scale);
    StopsWithFirst(G, ch, Silence(G), scale, maxIter, t, ones, out);
    HardIsCodewordIff(G, c, llr, scale, out.iters - 1);
    assert out.info == info;
    forall s: nat | s + 1 < out.iters
      ensures !OnesSettled(G, given, c, s)
    {
      assert !ones(s);
    }
  }

  /** One erased bit that meets some check on a single edge is made good by the second iteration. */
  lemma OneErasureDecodes(G: Graph, info: seq<Bit>, llr: seq<real>, maxIter: nat, scale: real, v: nat, e: nat)
    requires WellFormed(G) && |info| == G.k && scale > 0.0 && NoneWrong(llr, Encode(G, info)) && maxIter >= 2
    requires forall u: nat | u < 2 * G.k && u != v :: Message(llr, u) != 0.0
    requires e < |Vars(G)| == |Checks(G)| && Vars(G)[e] == v
    requires forall f: nat | f < |Vars(G)| && Checks(G)[f] == Checks(G)[e] && f != e :: Vars(G)[f] != v
    ensures var out := Decode(G, llr, maxIter, scale); out.cleared && out.info == info && out.iters <= 2
  {
    var given := Given(llr, 2 * G.k);
    EdgeEnds(G);
    EdgesAt(Checks(G), Checks(G)[e]);
    EdgesAt(Vars(G), v);
    forall f | f in Incident(Checks(G), Checks(G)[e]) && f != e
      ensures Tells(G, given, 0, f)
    {
      assert Vars(G)[f] != v && At(given, Vars(G)[f]);
    }
    ToldIff(G, given, 0, e, Checks(G)[e]);
    assert Peels(G, given, 1);
    PeelingDecodes(G, info, llr, maxIter, scale, 1);
  }
}
