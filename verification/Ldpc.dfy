/** The LDPC code object: construction, systematic encoding and min-sum decoding. */
module Ldpc {
  import opened Bits
  import opened Counting
  import opened LdpcGraph
  import opened LdpcMinSum
  import opened LdpcPlacement

  // ---- adjacency lists ----

  /** `lists[x]` names the edges that end at `x`, in order. */
  ghost predicate Lists(lists: seq<seq<nat>>, ends: seq<nat>, n: nat) {
    |lists| == n && forall x | 0 <= x < n :: lists[x] == Incident(ends, x)
  }

  lemma ListsSnoc(lists: seq<seq<nat>>, ends: seq<nat>, n: nat, y: nat)
    requires Lists(lists, ends, n) && y < n
    ensures Lists(lists[y := lists[y] + [|ends|]], ends + [y], n)
  {
    forall x | 0 <= x < n
      ensures lists[y := lists[y] + [|ends|]][x] == Incident(ends + [y], x)
    {
      IncidentSnoc(ends, y, x);
    }
  }

  /** `lists[r]` names the variables on the edges of check `r`, in order. */
  ghost predicate VarLists(lists: seq<seq<nat>>, vars: seq<nat>, checks: seq<nat>, n: nat) {
    |lists| == n && forall r | 0 <= r < n :: lists[r] == Neighbours(vars, Incident(checks, r))
  }

  lemma VarListsSnoc(lists: seq<seq<nat>>, vars: seq<nat>, checks: seq<nat>, n: nat, v: nat, c: nat)
    requires VarLists(lists, vars, checks, n) && c < n && |vars| == |checks|
    ensures VarLists(lists[c := lists[c] + [v]], vars + [v], checks + [c], n)
  {
    forall r | 0 <= r < n
      ensures lists[c := lists[c] + [v]][r] == Neighbours(vars + [v], Incident(checks + [c], r))
    {
      OneMoreEdge(vars, checks, v, c, r);
    }
  }

  function Copies(n: nat, c: nat): (s: seq<nat>)
    ensures |s| == n && forall i | 0 <= i < n :: s[i] == c
  {
    if n == 0 then [] else Copies(n - 1, c) + [c]
  }

  /** Column numbers of the info edges: `cw` edges for each of the first `k` columns. */
  function ColumnVars(k: nat, cw: nat): (vs: seq<nat>)
    ensures |vs| == k * cw && forall e | 0 <= e < |vs| :: vs[e] < k
    decreases k
  {
    if k == 0 then []
    else NextColumn(k - 1, cw); ColumnVars(k - 1, cw) + Copies(cw, k - 1)
  }

  /** The graph that construction yields for a given order of the shuffled sockets. */
  function BuiltGraph(k: nat, cw: nat, shuffled: seq<nat>): Graph
    requires |shuffled| == k * cw
  {
    Graph(k, ColumnVars(k, cw), PlaceColumns(shuffled, 0, k, cw, k).sockets)
  }

  class LdpcCode {
    const k: nat
    const m: nat
    const n: nat
    const maxIter: nat
    const scale: real
    var edgeVar: seq<nat>
    var edgeCheck: seq<nat>
    var varEdges: seq<seq<nat>>
    var checkEdges: seq<seq<nat>>
    var checkInfoVars: seq<seq<nat>>
    ghost var graph: Graph

    ghost predicate Sized() {
      k > 0 && m == k && n == 2 * k && maxIter > 0 && scale > 0.0
    }

    ghost predicate Linked()
      reads this
    {
      |edgeVar| == |edgeCheck| && Lists(varEdges, edgeVar, n) && Lists(checkEdges, edgeCheck, m)
    }

    ghost predicate Valid()
      reads this
    {
      && Sized() && Linked() && WellFormed(graph) && graph.k == k
      && edgeVar == Vars(graph) && edgeCheck == Checks(graph)
      && VarLists(checkInfoVars, graph.infoVars, graph.infoChecks, m)
    }

    /** `shuffled` is what the seeded shuffle makes of the balanced sockets. */
    constructor (k0: int, colWeight0: int, shuffled: seq<nat>, maxIter0: int, scale0: real)
      requires var k, cw := if k0 > 1 then k0 else 1, if colWeight0 > 1 then colWeight0 else 1;
               multiset(shuffled) == multiset(Balanced(k * cw, k))
      ensures Valid()
      ensures k == if k0 > 1 then k0 else 1
      ensures maxIter == if maxIter0 > 1 then maxIter0 else 1
      ensures scale == if scale0 > 0.0 then scale0 else 0.75
      ensures var cw := if colWeight0 > 1 then colWeight0 else 1;
              |shuffled| == k * cw && graph == BuiltGraph(k, cw, shuffled) && |edgeVar| == k * cw + 2 * k - 1
    {
      k := if k0 > 1 then k0 else 1;
      m := if k0 > 1 then k0 else 1;
      n := 2 * if k0 > 1 then k0 else 1;
      maxIter := if maxIter0 > 1 then maxIter0 else 1;
      scale := if scale0 > 0.0 then scale0 else 0.75;
      edgeVar, edgeCheck, varEdges, checkEdges, checkInfoVars := [], [], [], [], [];
      graph := Graph(0, [], []);
      new;
      Build(if colWeight0 > 1 then colWeight0 else 1, shuffled);
    }

    method AddEdge(v: nat, c: nat)
      requires Sized() && Linked() && v < n && c < m
      modifies this`edgeVar, this`edgeCheck, this`varEdges, this`checkEdges
      ensures Linked() && edgeVar == old(edgeVar) + [v] && edgeCheck == old(edgeCheck) + [c]
    {
      var e := |edgeVar|;
      ListsSnoc(varEdges, edgeVar, n, v);
      ListsSnoc(checkEdges, edgeCheck, m, c);
      edgeVar := edgeVar + [v];
      edgeCheck := edgeCheck + [c];
      varEdges := varEdges[v := varEdges[v] + [e]];
      checkEdges := checkEdges[c := checkEdges[c] + [e]];
    }

    method Build(colWeight: nat, shuffled: seq<nat>)
      requires Sized() && multiset(shuffled) == multiset(Balanced(k * colWeight, k))
      modifies this
      ensures Valid() && |shuffled| == k * colWeight && graph == BuiltGraph(k, colWeight, shuffled)
      ensures |edgeVar| == k * colWeight + 2 * k - 1
    {
      edgeVar, edgeCheck := [], [];
      varEdges := seq(n, v => []);
      checkEdges := seq(m, r => []);
      checkInfoVars := seq(m, r => []);
      ShuffledRows(shuffled, k * colWeight, k);
      graph := BuiltGraph(k, colWeight, shuffled);
      BuildInfo(colWeight, shuffled);
      BuildParity();
      ParityLengths(k, k);
    }

    /** The state of construction after the columns before `col`, with sockets `s`. */
    ghost predicate MidBuild(col: nat, colWeight: nat, s: seq<nat>)
      reads this
    {
      && Linked() && VarLists(checkInfoVars, edgeVar, edgeCheck, m) && RowsBelow(s, k)
      && |s| == k * colWeight && col * colWeight <= |s|
      && edgeVar == ColumnVars(col, colWeight) && edgeCheck == s[..col * colWeight]
    }

    method BuildInfo(colWeight: nat, shuffled: seq<nat>)
      requires Sized() && MidBuild(0, colWeight, shuffled) && |shuffled| == k * colWeight
      requires graph == BuiltGraph(k, colWeight, shuffled)
      modifies this`edgeVar, this`edgeCheck, this`varEdges, this`checkEdges, this`checkInfoVars
      ensures Linked() && edgeVar == graph.infoVars && edgeCheck == graph.infoChecks
      ensures VarLists(checkInfoVars, edgeVar, edgeCheck, m)
    {
      var sockets := new nat[|shuffled|](i requires 0 <= i < |shuffled| => shuffled[i]);
      assert sockets[..] == shuffled;
      for col := 0 to k
        invariant MidBuild(col, colWeight, sockets[..])
        invariant PlaceColumns(sockets[..], col, k, colWeight, k).sockets == graph.infoChecks
      {
        AddColumn(col, colWeight, sockets);
      }
      assert sockets[..] == sockets[..][..k * colWeight];
    }

    /** One turn of the outer loop. */
    method AddColumn(col: nat, colWeight: nat, sockets: array<nat>)
      requires Sized() && MidBuild(col, colWeight, sockets[..]) && col < k
      modifies this`edgeVar, this`edgeCheck, this`varEdges, this`checkEdges, this`checkInfoVars, sockets
      ensures MidBuild(col + 1, colWeight, sockets[..])
      ensures PlaceColumns(sockets[..], col + 1, k, colWeight, k).sockets
           == PlaceColumns(old(sockets[..]), col, k, colWeight, k).sockets
    {
      ghost var s := sockets[..];
      ColumnFits(col, k, colWeight);
      assert s[..col * colWeight] == sockets[..col * colWeight];
      BuildColumn(col, colWeight, col * colWeight, sockets);
      PlaceColumnsStep(s, sockets[..], col, k, colWeight, col * colWeight);
      assert sockets[..][..(col + 1) * colWeight] == sockets[..col * colWeight + colWeight];
    }

    method AddInfoEdge(col: nat, row: nat)
      requires Sized() && Linked() && VarLists(checkInfoVars, edgeVar, edgeCheck, m) && col < k && row < m
      modifies this`edgeVar, this`edgeCheck, this`varEdges, this`checkEdges, this`checkInfoVars
      ensures Linked() && VarLists(checkInfoVars, edgeVar, edgeCheck, m)
      ensures edgeVar == old(edgeVar) + [col] && edgeCheck == old(edgeCheck) + [row]
    {
      VarListsSnoc(checkInfoVars, edgeVar, edgeCheck, m, col, row);
      AddEdge(col, row);
      checkInfoVars := checkInfoVars[row := checkInfoVars[row] + [col]];
    }

    /** One turn of the inner loop: choose the row of socket `pos` and add its edge. */
    method PlaceEdge(col: nat, start: nat, pos: nat, sockets: array<nat>)
      requires Sized() && Linked() && VarLists(checkInfoVars, edgeVar, edgeCheck, m) && col < k
      requires start <= pos < sockets.Length && RowsBelow(sockets[..], k) && edgeCheck == sockets[..pos]
      modifies this`edgeVar, this`edgeCheck, this`varEdges, this`checkEdges, this`checkInfoVars, sockets
      ensures Linked() && VarLists(checkInfoVars, edgeVar, edgeCheck, m)
      ensures RowsBelow(sockets[..], k) && sockets[..] == Place(old(sockets[..]), start, pos, k).sockets
      ensures edgeVar == old(edgeVar) + [col] && edgeCheck == sockets[..pos + 1]
    {
      var row := PlaceSocket(sockets, start, pos, k);
      assert sockets[..pos + 1] == sockets[..pos] + [row];
      AddInfoEdge(col, row);
    }

    /** The inner loop of one column. */
    method BuildColumn(col: nat, colWeight: nat, start: nat, sockets: array<nat>)
      requires Sized() && Linked() && VarLists(checkInfoVars, edgeVar, edgeCheck, m) && col < k
      requires start + colWeight <= sockets.Length && RowsBelow(sockets[..], k) && edgeCheck == sockets[..start]
      modifies this`edgeVar, this`edgeCheck, this`varEdges, this`checkEdges, this`checkInfoVars, sockets
      ensures Linked() && VarLists(checkInfoVars, edgeVar, edgeCheck, m) && RowsBelow(sockets[..], k)
      ensures sockets[..] == PlaceColumn(old(sockets[..]), start, 0, colWeight, k).sockets
      ensures edgeVar == old(edgeVar) + Copies(colWeight, col) && edgeCheck == sockets[..start + colWeight]
    {
      ghost var before, placed := edgeVar, PlaceColumn(sockets[..], start, 0, colWeight, k).sockets;
      for w := 0 to colWeight
        invariant Linked() && VarLists(checkInfoVars, edgeVar, edgeCheck, m) && RowsBelow(sockets[..], k)
        invariant edgeVar == before + Copies(w, col) && edgeCheck == sockets[..start + w]
        invariant PlaceColumn(sockets[..], start, w, colWeight, k).sockets == placed
      {
        ghost var s := sockets[..];
        PlaceEdge(col, start, start + w, sockets);
        PlaceColumnStep(s, sockets[..], start, w, colWeight, k);
        assert before + Copies(w, col) + [col] == before + Copies(w + 1, col);
      }
    }

    method BuildParity()
      requires Sized() && Linked() && WellFormed(graph) && graph.k == k
      requires edgeVar == graph.infoVars && edgeCheck == graph.infoChecks
      modifies this`edgeVar, this`edgeCheck, this`varEdges, this`checkEdges
      ensures Linked() && edgeVar == Vars(graph) && edgeCheck == Checks(graph)
    {
      for r := 0 to m
        invariant Linked()
        invariant edgeVar == graph.infoVars + ParityVars(r, k) && edgeCheck == graph.infoChecks + ParityChecks(r)
      {
        AddEdge(k + r, r);
        if r > 0 {
          AddEdge(k + r - 1, r);
        }
      }
    }

    /** Systematic encoding: the info bits, then the running parity of the checks. */
    method EncodeBlock(info: seq<Bit>) returns (cw: array<Bit>)
      requires Valid()
      ensures fresh(cw) && cw[..] == Encode(graph, info)
    {
      cw := CopyInfo(info, k, n);
      ghost var w := InfoWord(info, k);
      var s := CheckSums(graph, cw[..k], checkInfoVars, m);
      var running := false;
      for r := 0 to m
        invariant running == Running(graph, w, r) && cw[..k] == w
        invariant forall v | k <= v < k + r :: cw[v] == Running(graph, w, v - k + 1)
      {
        running := running != s[r];
        cw[k + r] := running;
      }
    }

    /** One iteration: beliefs and hard decisions, the syndrome test, and new check messages if it fails. */
    method Iteration(ch: seq<real>, mcv: array<real>, mvc: array<real>, hard: array<Bit>) returns (ok: bool)
      requires Valid() && |ch| == n == hard.Length && mcv.Length == mvc.Length == |edgeVar| && mcv != mvc
      modifies mcv, mvc, hard
      ensures ok <==> ClearSyndrome(graph, Hard(graph, ch, old(mcv[..])))
      ensures mcv[..] == if ok then old(mcv[..])
                         else FromChecks(graph, ToChecks(graph, ch, old(mcv[..])), scale)
    {
      EndsBelow(k, k);
      VariableUpdate(graph, varEdges, ch, mcv, mvc, hard);
      ok := SyndromeIsClear(graph, edgeVar, checkEdges, hard[..]);
      if !ok {
        CheckUpdate(graph, checkEdges, mvc, mcv, scale);
      }
    }

    /** Min-sum decoding with early termination. */
    method DecodeBlock(llr: seq<real>) returns (info: seq<Bit>, iters: nat)
      requires Valid()
      ensures info == Decode(graph, llr, maxIter, scale).info && iters == Decode(graph, llr, maxIter, scale).iters
    {
      var ch := seq(n, v requires 0 <= v < n => Clip(if v < |llr| then llr[v] else 0.0));
      var mvc := new real[|edgeVar|](e => 0.0);
      var mcv := new real[|edgeVar|](e => 0.0);
      var hard := new Bit[n](v => false);
      assert ch == Channel(llr, n) && mcv[..] == Silence(graph);
      ghost var out := Decode(graph, llr, maxIter, scale);
      iters := 0;
      var ok := false;
      while iters < maxIter && !ok
        invariant iters <= maxIter && mcv.Length == |edgeVar|
        invariant out == if ok then Outcome(Hard(graph, ch, mcv[..])[..k], iters, true)
                         else Iterate(graph, ch, mcv[..], scale, maxIter - iters, iters)
      {
        ok := Iteration(ch, mcv, mvc, hard);
        iters := iters + 1;
      }
      info := Decisions(graph, varEdges, ch, mcv, k);
    }
  }

  lemma PlaceColumnStep(s: seq<nat>, t: seq<nat>, start: nat, w: nat, cw: nat, m: nat)
    requires w < cw && start + cw <= |s| && t == Place(s, start, start + w, m).sockets
    ensures PlaceColumn(s, start, w, cw, m).sockets == PlaceColumn(t, start, w + 1, cw, m).sockets
  {
  }

  lemma PlaceColumnsStep(s: seq<nat>, t: seq<nat>, col: nat, k: nat, cw: nat, start: nat)
    requires col < k && |s| == |t| == k * cw && start == col * cw && start + cw <= |s|
    requires t == PlaceColumn(s, start, 0, cw, k).sockets
    ensures PlaceColumns(s, col, k, cw, k).sockets == PlaceColumns(t, col + 1, k, cw, k).sockets
  {
  }

  lemma ShuffledRows(shuffled: seq<nat>, total: nat, m: nat)
    requires m > 0 && multiset(shuffled) == multiset(Balanced(total, m))
    ensures |shuffled| == total && RowsBelow(shuffled, m)
  {
    assert |multiset(shuffled)| == |shuffled| && |multiset(Balanced(total, m))| == total;
    forall e | 0 <= e < |shuffled|
      ensures shuffled[e] < m
    {
      assert shuffled[e] in multiset(shuffled);
      assert shuffled[e] in multiset(Balanced(total, m));
    }
  }

  /** Whether `row` is among the sockets from `start` up to `pos`. */
  method RowUsedInColumn(sockets: array<nat>, start: nat, pos: nat, row: nat) returns (used: bool)
    requires start <= pos <= sockets.Length
    ensures used <==> row in sockets[start..pos]
  {
    for u := start to pos
      invariant row !in sockets[start..u]
    {
      if sockets[u] == row {
        return true;
      }
    }
    return false;
  }

  /** Socket `pos`: keep it, swap in a later one, or overwrite it. */
  method PlaceSocket(sockets: array<nat>, start: nat, pos: nat, m: nat) returns (row: nat)
    requires start <= pos < sockets.Length && RowsBelow(sockets[..], m)
    modifies sockets
    ensures sockets[..] == Place(old(sockets[..]), start, pos, m).sockets
    ensures row == sockets[pos] && row < m && RowsBelow(sockets[..], m)
    ensures sockets[..pos] == old(sockets[..pos])
  {
    ghost var s := sockets[..];
    ghost var used := s[start..pos];
    row := sockets[pos];
    var collides := RowUsedInColumn(sockets, start, pos, row);
    if collides {
      var j := pos + 1;
      while j < sockets.Length
        invariant pos < j <= sockets.Length && sockets[..] == s
        invariant FirstFree(s, pos + 1, used) == FirstFree(s, j, used)
      {
        var taken := RowUsedInColumn(sockets, start, pos, sockets[j]);
        if !taken {
          sockets[pos], sockets[j] := sockets[j], sockets[pos];
          row := sockets[pos];
          break;
        }
        j := j + 1;
      }
      collides := RowUsedInColumn(sockets, start, pos, row);
      if collides {
        var r := 0;
        while r < m
          invariant 0 <= r <= m && sockets[..] == s && FirstRow(0, m, used) == FirstRow(r, m, used)
        {
          var taken := RowUsedInColumn(sockets, start, pos, r);
          if !taken {
            sockets[pos], row := r, r;
            break;
          }
          r := r + 1;
        }
      }
    }
  }

  // ---- encoding loops ----

  method CopyInfo(info: seq<Bit>, k: nat, n: nat) returns (cw: array<Bit>)
    requires k <= n
    ensures fresh(cw) && cw.Length == n && cw[..k] == InfoWord(info, k)
  {
    cw := new Bit[n](i => false);
    for i := 0 to k
      invariant cw[..i] == InfoWord(info, k)[..i]
    {
      cw[i] := i < |info| && info[i];
    }
  }

  method CheckSums(ghost G: Graph, w: seq<Bit>, infoVars: seq<seq<nat>>, m: nat) returns (s: seq<Bit>)
    requires VarLists(infoVars, G.infoVars, G.infoChecks, m)
    ensures |s| == m && forall r | 0 <= r < m :: s[r] == CheckSum(G, w, r)
  {
    s := [];
    for r := 0 to m
      invariant |s| == r && forall j | 0 <= j < r :: s[j] == CheckSum(G, w, j)
    {
      var acc := XorOver(w, infoVars[r]);
      s := s + [acc];
    }
  }

  method XorOver(c: seq<Bit>, vs: seq<nat>) returns (acc: Bit)
    ensures acc == Parity(c, vs)
  {
    acc := false;
    for i := 0 to |vs|
      invariant acc == Parity(c, vs[..i])
    {
      assert vs[..i + 1][..i] == vs[..i];
      acc := acc != At(c, vs[i]);
    }
    assert vs[..|vs|] == vs;
  }

  // ---- decoding loops ----

  method Belief(channel: real, mcv: array<real>, edges: seq<nat>) returns (total: real)
    ensures total == channel + SumOver(mcv[..], edges)
  {
    total := channel;
    for i := 0 to |edges|
      invariant total == channel + SumOver(mcv[..], edges[..i])
    {
      assert edges[..i + 1][..i] == edges[..i];
      total := total + if edges[i] < mcv.Length then mcv[edges[i]] else 0.0;
    }
    assert edges[..|edges|] == edges;
  }

  /** The messages of one variable: its belief less what each check said. */
  method SendBelief(total: real, mcv: array<real>, mvc: array<real>, edges: seq<nat>, ghost vars: seq<nat>,
                    ghost v: nat)
    requires mcv != mvc && mcv.Length == mvc.Length == |vars| && edges == Incident(vars, v)
    modifies mvc
    ensures forall e | 0 <= e < mvc.Length :: mvc[e] == if vars[e] == v then total - mcv[e] else old(mvc[e])
  {
    IncidentIff(vars, v);
    for i := 0 to |edges|
      invariant forall e | 0 <= e < mvc.Length :: mvc[e] == if e in edges[..i] then total - mcv[e] else old(mvc[e])
    {
      assert edges[..i + 1] == edges[..i] + [edges[i]];
      mvc[edges[i]] := total - mcv[edges[i]];
    }
    assert edges[..|edges|] == edges;
  }

  /** One turn of the variable loop. */
  method OneVariable(ghost G: Graph, v: nat, edges: seq<nat>, channel: real,
                     mcv: array<real>, mvc: array<real>,
                     ghost ch: seq<real>, ghost vars: seq<nat>, ghost h: seq<Bit>, ghost wanted: seq<real>)
    returns (hard: Bit)
    requires vars == Vars(G) && edges == Incident(vars, v) && v < |ch| == 2 * G.k && channel == ch[v]
    requires mcv.Length == mvc.Length == |vars| && mcv != mvc
    requires h == Hard(G, ch, mcv[..]) && wanted == ToChecks(G, ch, mcv[..])
    modifies mvc
    ensures hard == h[v]
    ensures forall e | 0 <= e < mvc.Length :: mvc[e] == if vars[e] == v then wanted[e] else old(mvc[e])
  {
    var total := Belief(channel, mcv, edges);
    hard := total < 0.0;
    SendBelief(total, mcv, mvc, edges, vars, v);
  }

  /** Beliefs, hard decisions and the messages to the checks. */
  method VariableUpdate(ghost G: Graph, varEdges: seq<seq<nat>>, ch: seq<real>,
                        mcv: array<real>, mvc: array<real>, hard: array<Bit>)
    requires Lists(varEdges, Vars(G), 2 * G.k) && forall e | 0 <= e < |Vars(G)| :: Vars(G)[e] < 2 * G.k
    requires |ch| == hard.Length == 2 * G.k && mcv.Length == mvc.Length == |Vars(G)| && mcv != mvc
    modifies mvc, hard
    ensures hard[..] == Hard(G, ch, mcv[..]) && mvc[..] == ToChecks(G, ch, mcv[..])
  {
    ghost var vars, h, wanted := Vars(G), Hard(G, ch, mcv[..]), ToChecks(G, ch, mcv[..]);
    for v := 0 to |ch|
      invariant forall u | 0 <= u < v :: hard[u] == h[u]
      invariant forall e | 0 <= e < mvc.Length && vars[e] < v :: mvc[e] == wanted[e]
    {
      hard[v] := OneVariable(G, v, varEdges[v], ch[v], mcv, mvc, ch, vars, h, wanted);
    }
  }

  /** The syndrome test: stops at the first unsatisfied check. */
  method SyndromeIsClear(ghost G: Graph, edgeVar: seq<nat>, checkEdges: seq<seq<nat>>, hard: seq<Bit>)
    returns (ok: bool)
    requires edgeVar == Vars(G) && Lists(checkEdges, Checks(G), G.k)
    ensures ok <==> ClearSyndrome(G, hard)
  {
    for r := 0 to |checkEdges|
      invariant forall q | 0 <= q < r :: !Syndrome(G, hard, q)
    {
      var par := XorOver(hard, Neighbours(edgeVar, checkEdges[r]));
      if par {
        assert Syndrome(G, hard, r);
        return false;
      }
    }
    return true;
  }

  /** One pass over a check: the two least magnitudes, where the least is, and the product of the signs. */
  method ScanCheck(mvc: array<real>, edges: seq<nat>) returns (min1: real, min2: real, argmin1: int, signprod: int)
    requires Distinct(edges) && forall i | 0 <= i < |edges| :: edges[i] < mvc.Length
    ensures TwoMinima(mvc[..], edges, min1, min2, argmin1) && signprod == SignProduct(mvc[..], edges)
  {
    min1, min2, argmin1, signprod := FLT_MAX, FLT_MAX, -1, 1;
    for i := 0 to |edges|
      invariant TwoMinima(mvc[..], edges[..i], min1, min2, argmin1) && signprod == SignProduct(mvc[..], edges[..i])
    {
      var e := edges[i];
      var a := Abs(mvc[e]);
      assert edges[..i + 1] == edges[..i] + [e] && edges[..i + 1][..i] == edges[..i];
      NextMinima(mvc[..], edges[..i], min1, min2, argmin1, e, a);
      if mvc[e] < 0.0 {
        signprod := -signprod;
      }
      if a < min1 {
        min2, min1, argmin1 := min1, a, e;
      } else if a < min2 {
        min2 := a;
      }
    }
    assert edges[..|edges|] == edges;
  }

  /** The messages of one check: each is exactly the scaled sign product and least magnitude of all the other edges. */
  method SendMinimum(mvc: array<real>, mcv: array<real>, edges: seq<nat>, scale: real)
    requires mcv != mvc && mcv.Length == mvc.Length
    requires Distinct(edges) && forall i | 0 <= i < |edges| :: edges[i] < mvc.Length
    modifies mcv
    ensures forall e | 0 <= e < mcv.Length ::
              mcv[e] == if e in edges then FromCheck(mvc[..], edges, e, scale) else old(mcv[e])
  {
    var min1, min2, argmin1, signprod := ScanCheck(mvc, edges);
    for i := 0 to |edges|
      invariant forall e | 0 <= e < mcv.Length ::
                  mcv[e] == if e in edges[..i] then FromCheck(mvc[..], edges, e, scale) else old(mcv[e])
    {
      var e := edges[i];
      assert edges[..i + 1] == edges[..i] + [e];
      var mag := if e == argmin1 then min2 else min1;
      var sgn := signprod;
      if mvc[e] < 0.0 {
        sgn := -sgn;
      }
      PickedMessage(mvc[..], edges, min1, min2, argmin1, e, scale, sgn, mag);
      mcv[e] := Scaled(scale, sgn, mag);
    }
    assert edges[..|edges|] == edges;
  }

  /** The messages from every check. */
  method CheckUpdate(ghost G: Graph, checkEdges: seq<seq<nat>>, mvc: array<real>, mcv: array<real>, scale: real)
    requires Lists(checkEdges, Checks(G), G.k) && forall e | 0 <= e < |Checks(G)| :: Checks(G)[e] < G.k
    requires mvc.Length == mcv.Length == |Checks(G)| && mcv != mvc
    modifies mcv
    ensures mcv[..] == FromChecks(G, mvc[..], scale)
  {
    ghost var checks, wanted := Checks(G), FromChecks(G, mvc[..], scale);
    for r := 0 to |checkEdges|
      invariant forall e | 0 <= e < mcv.Length && checks[e] < r :: mcv[e] == wanted[e]
    {
      IncidentIff(checks, r);
      IncidentOrdered(checks, r);
      SendMinimum(mvc, mcv, checkEdges[r], scale);
    }
  }

  /** The final hard decisions on the info part. */
  method Decisions(ghost G: Graph, varEdges: seq<seq<nat>>, ch: seq<real>, mcv: array<real>, k: nat)
    returns (info: seq<Bit>)
    requires k == G.k && |ch| == 2 * k && Lists(varEdges, Vars(G), 2 * k)
    ensures info == Hard(G, ch, mcv[..])[..k]
  {
    info := [];
    for v := 0 to k
      invariant info == Hard(G, ch, mcv[..])[..v]
    {
      var total := Belief(ch[v], mcv, varEdges[v]);
      info := info + [total < 0.0];
    }
  }

  // ---- what construction yields ----

  lemma {:induction false} IncidentCount(s: seq<nat>, r: nat)
    ensures |Incident(s, r)| == multiset(s)[r]
  {
    if s != [] {
      var n := |s| - 1;
      IncidentCount(s[..n], r);
      assert s == s[..n] + [s[n]];
    }
  }

  /** Edge `e` belongs to column `c` exactly when it is one of that column's `cw` sockets. */
  lemma {:induction false} EdgesOfColumn(k: nat, cw: nat, e: nat, c: nat, start: nat)
    requires e < k * cw && c < k && start == c * cw
    ensures ColumnVars(k, cw)[e] == c <==> start <= e < start + cw
    decreases k
  {
    NextColumn(k - 1, cw);
    ColumnFits(c, k - 1, cw);
    if e < (k - 1) * cw && c < k - 1 {
      EdgesOfColumn(k - 1, cw, e, c, start);
    }
  }

  /**
   * Unless some placement is stuck while its column still lacks a row, every check touches exactly `cw` info edges.
   */
  lemma RowsStayBalanced(k: nat, cw: nat, shuffled: seq<nat>, r: nat)
    requires r < k && |shuffled| == k * cw && multiset(shuffled) == multiset(Balanced(k * cw, k))
    ensures (forall n: nat | cw > 0 && n < |shuffled| :: !MustOverwrite(shuffled, cw, k, n))
            ==> |Incident(BuiltGraph(k, cw, shuffled).infoChecks, r)| == cw
  {
    if forall n: nat | cw > 0 && n < |shuffled| :: !MustOverwrite(shuffled, cw, k, n) {
      NoneOverwritten(shuffled, k, cw);
      BalancedRows(cw, k, k * cw, r);
      RowsKept(shuffled, 0, k, cw, k);
      IncidentCount(PlaceColumns(shuffled, 0, k, cw, k).sockets, r);
    }
  }

  lemma NoneOverwritten(s: seq<nat>, k: nat, cw: nat)
    requires |s| == k * cw && forall n: nat | cw > 0 && n < |s| :: !MustOverwrite(s, cw, k, n)
    ensures !PlaceColumns(s, 0, k, cw, k).overwrote
  {
    if cw > 0 {
      OverwritesIff(s, k, cw, k);
    } else {
      NothingToPlace(s, 0, k, k);
    }
  }

  /** Every info column has `cw` distinct rows exactly when the column weight does not exceed `k`. */
  lemma ColumnsHaveDistinctRows(k: nat, cw: nat, shuffled: seq<nat>, c: nat)
    requires c < k && |shuffled| == k * cw && multiset(shuffled) == multiset(Balanced(k * cw, k))
    ensures var column := Column(BuiltGraph(k, cw, shuffled).infoChecks, c, cw);
            |column| == cw && (Distinct(column) <==> cw <= k)
  {
    ShuffledRows(shuffled, k * cw, k);
    ColumnFits(c, k, cw);
    DistinctIffWeightFits(shuffled, k, cw, c);
  }
}
