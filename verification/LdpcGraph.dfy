/** The staircase LDPC code: its Tanner graph, its systematic encoder and its codewords. */
module LdpcGraph {
  import opened Bits
  import opened Counting

  /**
   * The edges between info variables and checks, in the order they were added; the parity staircase is implied by `k`.
   * Variables 0..k-1 are info bits, k..2k-1 parity bits; checks are 0..k-1.
   */
  datatype Graph = Graph(k: nat, infoVars: seq<nat>, infoChecks: seq<nat>)

  ghost predicate WellFormed(G: Graph) {
    && G.k > 0
    && |G.infoVars| == |G.infoChecks|
    && (forall e | 0 <= e < |G.infoVars| :: G.infoVars[e] < G.k)
    && (forall e | 0 <= e < |G.infoVars| :: G.infoChecks[e] < G.k)
  }

  /** The variable ends of the parity edges of the first `m` checks: p[r], then p[r-1]. */
  function ParityVars(m: nat, k: nat): (vs: seq<nat>) {
    if m == 0 then [] else ParityVars(m - 1, k) + if m == 1 then [k] else [k + m - 1, k + m - 2]
  }

  function ParityChecks(m: nat): (cs: seq<nat>) {
    if m == 0 then [] else ParityChecks(m - 1) + if m == 1 then [0] else [m - 1, m - 1]
  }

  function Vars(G: Graph): seq<nat> {
    G.infoVars + ParityVars(G.k, G.k)
  }

  function Checks(G: Graph): seq<nat> {
    G.infoChecks + ParityChecks(G.k)
  }

  /** The edges that end at `x`, in order. */
  function Incident(ends: seq<nat>, x: nat): seq<nat> {
    if ends == [] then []
    else var n := |ends| - 1; Incident(ends[..n], x) + if ends[n] == x then [n] else []
  }

  function EndOf(ends: seq<nat>, e: nat): nat {
    if e < |ends| then ends[e] else 0
  }

  /** The other ends of the given edges. */
  function Neighbours(ends: seq<nat>, edges: seq<nat>): (ns: seq<nat>)
    ensures |ns| == |edges|
  {
    seq(|edges|, i requires 0 <= i < |edges| => EndOf(ends, edges[i]))
  }

  function At(c: seq<Bit>, v: nat): Bit {
    v < |c| && c[v]
  }

  /** The exclusive or of the bits of the listed variables. */
  function Parity(c: seq<Bit>, vs: seq<nat>): Bit {
    if vs == [] then false else var n := |vs| - 1; Parity(c, vs[..n]) != At(c, vs[n])
  }

  /** Check `r` of the decoder's syndrome test; false when satisfied. */
  function Syndrome(G: Graph, c: seq<Bit>, r: nat): Bit {
    Parity(c, Neighbours(Vars(G), Incident(Checks(G), r)))
  }

  predicate ClearSyndrome(G: Graph, c: seq<Bit>) {
    forall r | 0 <= r < G.k :: !Syndrome(G, c, r)
  }

  // ---- encoding ----

  /** The info bits of a block: missing bits are zero, bits beyond `k` are ignored. */
  function InfoWord(info: seq<Bit>, k: nat): (w: seq<Bit>)
    ensures |w| == k
  {
    seq(k, i requires 0 <= i < k => At(info, i))
  }

  /** The exclusive or of the info bits that check `r` touches. */
  function CheckSum(G: Graph, w: seq<Bit>, r: nat): Bit {
    Parity(w, Neighbours(G.infoVars, Incident(G.infoChecks, r)))
  }

  /** The accumulator after the first `n` checks. */
  function Running(G: Graph, w: seq<Bit>, n: nat): Bit {
    if n == 0 then false else Running(G, w, n - 1) != CheckSum(G, w, n - 1)
  }

  function Encode(G: Graph, info: seq<Bit>): (cw: seq<Bit>)
    ensures |cw| == 2 * G.k
  {
    var w := InfoWord(info, G.k);
    w + seq(G.k, r requires 0 <= r < G.k => Running(G, w, r + 1))
  }

  // ---- the syndrome is a staircase ----

  lemma {:induction false} IncidentBound(ends: seq<nat>, x: nat, i: nat)
    requires i < |Incident(ends, x)|
    ensures Incident(ends, x)[i] < |ends| && ends[Incident(ends, x)[i]] == x
  {
    var n := |ends| - 1;
    if i < |Incident(ends[..n], x)| {
      IncidentBound(ends[..n], x, i);
    }
  }

  lemma IncidentSnoc(ends: seq<nat>, y: nat, x: nat)
    ensures Incident(ends + [y], x) == Incident(ends, x) + if y == x then [|ends|] else []
  {
    assert (ends + [y])[..|ends|] == ends;
  }

  lemma NeighboursConcat(ends: seq<nat>, a: seq<nat>, b: seq<nat>)
    ensures Neighbours(ends, a + b) == Neighbours(ends, a) + Neighbours(ends, b)
  {
  }

  /** Later edges do not disturb the neighbours found so far. */
  lemma NeighboursExtend(vs: seq<nat>, vs': seq<nat>, cs: seq<nat>, r: nat)
    requires |vs| == |cs|
    ensures Neighbours(vs + vs', Incident(cs, r)) == Neighbours(vs, Incident(cs, r))
  {
    var edges := Incident(cs, r);
    forall i | 0 <= i < |edges|
      ensures EndOf(vs + vs', edges[i]) == EndOf(vs, edges[i])
    {
      IncidentBound(cs, r, i);
    }
  }

  /** The neighbours of a check after one more edge. */
  lemma OneMoreEdge(vs: seq<nat>, cs: seq<nat>, v: nat, c: nat, r: nat)
    requires |vs| == |cs|
    ensures Neighbours(vs + [v], Incident(cs + [c], r)) == Neighbours(vs, Incident(cs, r)) + if c == r then [v] else []
  {
    IncidentSnoc(cs, c, r);
    NeighboursExtend(vs, [v], cs, r);
    NeighboursConcat(vs + [v], Incident(cs, r), if c == r then [|cs|] else []);
  }

  lemma {:induction false} IncidentIff(ends: seq<nat>, x: nat)
    ensures forall e: nat :: e in Incident(ends, x) <==> e < |ends| && ends[e] == x
    ensures forall i | 0 <= i < |Incident(ends, x)| :: Incident(ends, x)[i] < |ends|
  {
    if ends != [] {
      IncidentIff(ends[..|ends| - 1], x);
    }
  }

  lemma {:induction false} IncidentOrdered(ends: seq<nat>, x: nat)
    ensures Distinct(Incident(ends, x))
  {
    if ends != [] {
      var n := |ends| - 1;
      IncidentOrdered(ends[..n], x);
      IncidentIff(ends[..n], x);
      assert n !in Incident(ends[..n], x);
    }
  }

  lemma {:induction false} EndsBelow(m: nat, k: nat)
    requires m <= k
    ensures |ParityVars(m, k)| == |ParityChecks(m)|
    ensures forall e | 0 <= e < |ParityVars(m, k)| :: ParityVars(m, k)[e] < 2 * k && ParityChecks(m)[e] < k
  {
    if m > 0 {
      EndsBelow(m - 1, k);
    }
  }

  lemma {:induction false} SplitNeighbours(vs: seq<nat>, cs: seq<nat>, vs': seq<nat>, cs': seq<nat>, r: nat)
    requires |vs| == |cs| && |vs'| == |cs'|
    ensures Neighbours(vs + vs', Incident(cs + cs', r))
         == Neighbours(vs, Incident(cs, r)) + Neighbours(vs', Incident(cs', r))
    decreases |vs'|
  {
    if vs' == [] {
      assert vs + vs' == vs && cs + cs' == cs;
    } else {
      var n := |vs'| - 1;
      var v, c := vs'[n], cs'[n];
      SplitNeighbours(vs, cs, vs'[..n], cs'[..n], r);
      OneMoreEdge(vs + vs'[..n], cs + cs'[..n], v, c, r);
      OneMoreEdge(vs'[..n], cs'[..n], v, c, r);
      assert vs + vs' == (vs + vs'[..n]) + [v] && cs + cs' == (cs + cs'[..n]) + [c];
      assert vs' == vs'[..n] + [v] && cs' == cs'[..n] + [c];
    }
  }

  lemma {:induction false} ParityLengths(m: nat, k: nat)
    ensures |ParityVars(m, k)| == |ParityChecks(m)| == if m == 0 then 0 else 2 * m - 1
  {
    if m > 0 {
      ParityLengths(m - 1, k);
    }
  }

  function Stair(k: nat, r: nat): seq<nat> {
    if r == 0 then [k] else [k + r, k + r - 1]
  }

  lemma TwoMoreEdges(vs: seq<nat>, cs: seq<nat>, v: nat, w: nat, c: nat, r: nat)
    requires |vs| == |cs|
    ensures Neighbours(vs + [v, w], Incident(cs + [c, c], r))
         == Neighbours(vs, Incident(cs, r)) + if c == r then [v, w] else []
  {
    OneMoreEdge(vs, cs, v, c, r);
    OneMoreEdge(vs + [v], cs + [c], w, c, r);
    assert vs + [v, w] == vs + [v] + [w] && cs + [c, c] == cs + [c] + [c];
  }

  lemma {:induction false} StaircaseNeighbours(m: nat, k: nat, r: nat)
    ensures Neighbours(ParityVars(m, k), Incident(ParityChecks(m), r)) == if r < m then Stair(k, r) else []
    decreases m
  {
    if m > 0 {
      StaircaseNeighbours(m - 1, k, r);
      NextStair(ParityVars(m - 1, k), ParityChecks(m - 1), m, k, r);
    }
  }

  lemma NextStair(vs: seq<nat>, cs: seq<nat>, m: nat, k: nat, r: nat)
    requires m > 0 && vs == ParityVars(m - 1, k) && cs == ParityChecks(m - 1)
    ensures Neighbours(ParityVars(m, k), Incident(ParityChecks(m), r))
         == Neighbours(vs, Incident(cs, r)) + if r == m - 1 then Stair(k, r) else []
  {
    ParityLengths(m - 1, k);
    if m == 1 {
      OneMoreEdge(vs, cs, k, 0, r);
    } else {
      TwoMoreEdges(vs, cs, k + m - 1, k + m - 2, m - 1, r);
    }
  }

  lemma {:induction false} ParityConcat(c: seq<Bit>, a: seq<nat>, b: seq<nat>)
    ensures Parity(c, a + b) == (Parity(c, a) != Parity(c, b))
  {
    if b == [] {
      assert a + b == a;
    } else {
      var n := |b| - 1;
      ParityConcat(c, a, b[..n]);
      assert (a + b)[..|a| + n] == a + b[..n];
    }
  }

  lemma {:induction false} ParityOfPrefix(c: seq<Bit>, k: nat, vs: seq<nat>)
    requires k <= |c| && forall i | 0 <= i < |vs| :: vs[i] < k
    ensures Parity(c, vs) == Parity(c[..k], vs)
  {
    if vs != [] {
      ParityOfPrefix(c, k, vs[..|vs| - 1]);
    }
  }

  lemma InfoNeighboursBelow(G: Graph, r: nat)
    requires WellFormed(G)
    ensures forall v <- Neighbours(G.infoVars, Incident(G.infoChecks, r)) :: v < G.k
  {
    var edges := Incident(G.infoChecks, r);
    forall i | 0 <= i < |edges|
      ensures EndOf(G.infoVars, edges[i]) < G.k
    {
      IncidentBound(G.infoChecks, r, i);
    }
  }

  lemma ParityOfStair(c: seq<Bit>, k: nat, r: nat)
    ensures Parity(c, Stair(k, r)) == (At(c, k + r) != (r > 0 && At(c, k + r - 1)))
  {
    assert Parity(c, [k + r]) == At(c, k + r) by { assert [k + r][..0] == []; }
    assert r > 0 ==> Stair(k, r)[..1] == [k + r];
  }

  /** Check `r` compares its info bits with the step between parity bits r-1 and r. */
  lemma SyndromeIsStep(G: Graph, c: seq<Bit>, r: nat)
    requires WellFormed(G) && |c| == 2 * G.k && r < G.k
    ensures Syndrome(G, c, r) == (CheckSum(G, c[..G.k], r) != (At(c, G.k + r) != (r > 0 && At(c, G.k + r - 1))))
  {
    var k := G.k;
    var info := Neighbours(G.infoVars, Incident(G.infoChecks, r));
    ParityLengths(k, k);
    SplitNeighbours(G.infoVars, G.infoChecks, ParityVars(k, k), ParityChecks(k), r);
    StaircaseNeighbours(k, k, r);
    InfoNeighboursBelow(G, r);
    ParityOfPrefix(c, k, info);
    ParityConcat(c, info, Stair(k, r));
    ParityOfStair(c, k, r);
  }

  /** Parity bit `r` of `c` is the accumulator after check `r`. */
  predicate Solved(G: Graph, c: seq<Bit>, w: seq<Bit>, r: nat) {
    At(c, G.k + r) == Running(G, w, r + 1)
  }

  lemma SolvedStep(G: Graph, c: seq<Bit>, w: seq<Bit>, r: nat)
    requires WellFormed(G) && |c| == 2 * G.k && r < G.k && w == c[..G.k]
    requires r > 0 ==> Solved(G, c, w, r - 1)
    ensures !Syndrome(G, c, r) <==> Solved(G, c, w, r)
  {
    SyndromeIsStep(G, c, r);
    var n := r + 1;
    assert Running(G, w, n) == (Running(G, w, r) != CheckSum(G, w, r));
    assert Running(G, w, 0) == false;
  }

  /** The parity bits up to check `n` are the running sums exactly when the checks up to `n` are satisfied. */
  lemma {:induction false} StaircaseSolved(G: Graph, c: seq<Bit>, w: seq<Bit>, n: nat)
    requires WellFormed(G) && |c| == 2 * G.k && n <= G.k && w == c[..G.k]
    ensures (forall r | 0 <= r < n :: !Syndrome(G, c, r)) ==> (forall r | 0 <= r < n :: Solved(G, c, w, r))
    ensures (forall r | 0 <= r < n :: Solved(G, c, w, r)) ==> (forall r | 0 <= r < n :: !Syndrome(G, c, r))
    decreases n
  {
    if n > 0 {
      StaircaseSolved(G, c, w, n - 1);
      if n == 1 || Solved(G, c, w, n - 2) {
        SolvedStep(G, c, w, n - 1);
      }
    }
  }

  lemma EncodeIsSolved(G: Graph, w: seq<Bit>, cw: seq<Bit>)
    requires |w| == G.k && cw == Encode(G, w)
    ensures cw[..G.k] == w && forall r | 0 <= r < G.k :: Solved(G, cw, w, r)
  {
    assert InfoWord(w, G.k) == w;
    forall r | 0 <= r < G.k
      ensures Solved(G, cw, w, r)
    {
      assert cw[G.k + r] == Running(G, w, r + 1);
    }
  }

  /** A vector passes the syndrome test exactly when it is the encoding of its own first `k` bits. */
  lemma CodewordCharacterisation(G: Graph, c: seq<Bit>)
    requires WellFormed(G) && |c| == 2 * G.k
    ensures ClearSyndrome(G, c) <==> c == Encode(G, c[..G.k])
  {
    var k, w := G.k, c[..G.k];
    assert InfoWord(w, k) == w;
    StaircaseSolved(G, c, w, k);
    var cw := Encode(G, w);
    EncodeIsSolved(G, w, cw);
    if forall r | 0 <= r < k :: Solved(G, c, w, r) {
      forall v | 0 <= v < 2 * k
        ensures c[v] == cw[v]
      {
        if v >= k {
          assert Solved(G, c, w, v - k) && Solved(G, cw, w, v - k);
        }
      }
    }
  }
}
