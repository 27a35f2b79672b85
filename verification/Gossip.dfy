/** The edge lists of the peer graph. */
module Gossip {
  import opened PeerLink

  /** One comma-separated piece of an explicit edge list: empty, not two numbers, or a pair of node numbers. */
  datatype Part = Blank | Malformed | Pair(i: int, j: int)

  datatype Topology = Ring | Full | Custom(parts: seq<Part>) | Unknown

  datatype Edges =
    | Ok(edges: seq<Edge>)
    | BadEdge
    | OutsideNode
    | SelfLoop
    | EmptyList
    | UnknownTopology

  function RingEdges(n: nat): seq<Edge> {
    if n == 2 then [Edge(0, 1)]
    else seq(n, i requires 0 <= i < n => Edge(i, if i + 1 == n then 0 else i + 1))
  }

  /** Node `i` with every later node. */
  function Later(i: nat, n: nat): seq<Edge> {
    if n <= i + 1 then [] else Later(i, n - 1) + [Edge(i, n - 1)]
  }

  /** Every pair, for the first `m` nodes as the lower end. */
  function FullEdges(m: nat, n: nat): seq<Edge> {
    if m == 0 then [] else FullEdges(m - 1, n) + Later(m - 1, n)
  }

  /** An undirected edge, the lower end first. */
  function Key(i: nat, j: nat): Edge {
    if i <= j then Edge(i, j) else Edge(j, i)
  }

  /** The error that a part raises, or the edge list with the part's edge added unless it is there already. */
  function AddPart(edges: seq<Edge>, part: Part, n: nat): Edges {
    match part
    case Blank => Ok(edges)
    case Malformed => BadEdge
    case Pair(i, j) =>
      if !(0 <= i < n && 0 <= j < n) then OutsideNode
      else if i == j then SelfLoop
      else if Key(i, j) in edges then Ok(edges)
      else Ok(edges + [Key(i, j)])
  }

  /** The list so far, or the first error. */
  function CustomEdges(parts: seq<Part>, n: nat): Edges {
    if parts == [] then Ok([])
    else match CustomEdges(parts[..|parts| - 1], n)
      case Ok(edges) => AddPart(edges, parts[|parts| - 1], n)
      case error => error
  }

  function GossipEdges(n: int, topology: Topology): Edges {
    if n < 2 then Ok([])
    else match topology
      case Full => Ok(FullEdges(n, n))
      case Ring => Ok(RingEdges(n))
      case Custom(parts) => if CustomEdges(parts, n) == Ok([]) then EmptyList else CustomEdges(parts, n)
      case Unknown => UnknownTopology
  }

  /** The loop over an explicit edge list. */
  method ParseEdges(parts: seq<Part>, n: nat) returns (r: Edges)
    requires n >= 2
    ensures r == GossipEdges(n, Custom(parts))
  {
    var edges: seq<Edge> := [];
    var seen: set<Edge> := {};
    for k := 0 to |parts|
      invariant CustomEdges(parts[..k], n) == Ok(edges) && forall e :: e in seen <==> e in edges
    {
      assert parts[..k + 1][..k] == parts[..k];
      match parts[k] {
        case Blank =>
        case Malformed =>
          FirstError(parts, k + 1, n);
          return BadEdge;
        case Pair(i, j) =>
          if !(0 <= i < n && 0 <= j < n) {
            FirstError(parts, k + 1, n);
            return OutsideNode;
          }
          if i == j {
            FirstError(parts, k + 1, n);
            return SelfLoop;
          }
          var key := Key(i, j);
          if key !in seen {
            seen := seen + {key};
            edges := edges + [key];
          }
      }
    }
    assert parts[..|parts|] == parts;
    if edges == [] {
      return EmptyList;
    }
    return Ok(edges);
  }

  /** Nothing after the first error changes it. */
  lemma {:induction false} FirstError(parts: seq<Part>, k: nat, n: nat)
    requires k <= |parts| && !CustomEdges(parts[..k], n).Ok?
    ensures CustomEdges(parts, n) == CustomEdges(parts[..k], n)
    decreases |parts|
  {
    if k == |parts| {
      assert parts[..k] == parts;
    } else {
      var m := |parts| - 1;
      assert parts[..m][..k] == parts[..k];
      FirstError(parts[..m], k, n);
    }
  }

  // ---- every list is a simple graph ----

  /** No edge joins the same two nodes as another. */
  ghost predicate Simple(edges: seq<Edge>) {
    forall x, y | 0 <= x < y < |edges| :: Key(edges[x].a, edges[x].b) != Key(edges[y].a, edges[y].b)
  }

  lemma RingIsSimple(n: nat)
    requires n >= 2
    ensures ValidEdges(RingEdges(n), n) && Simple(RingEdges(n))
    ensures n > 2 ==> |RingEdges(n)| == n
  {
  }

  /** Some edge of the list joins the two nodes. */
  ghost predicate Joined(edges: seq<Edge>, i: nat, j: nat) {
    exists x | 0 <= x < |edges| :: Key(edges[x].a, edges[x].b) == Key(i, j)
  }

  lemma NextOf(i: nat, n: nat)
    requires i < n
    ensures (i + 1) % n == if i + 1 == n then 0 else i + 1
  {
  }

  /** In the ring two nodes are joined exactly when one follows the other, the last one being followed by node 0. */
  lemma RingJoinsNeighbours(n: nat, i: nat, j: nat)
    requires n >= 2 && i < n && j < n
    ensures Joined(RingEdges(n), i, j) <==> j == (i + 1) % n || i == (j + 1) % n
    ensures n > 2 ==> RingEdges(n)[i] == Edge(i, (i + 1) % n)
    ensures n == 2 ==> RingEdges(n) == [Edge(0, 1)]
  {
    NextOf(i, n);
    NextOf(j, n);
    RingJoins(n, i, j, if i + 1 == n then 0 else i + 1, if j + 1 == n then 0 else j + 1);
  }

  lemma RingJoins(n: nat, i: nat, j: nat, i': nat, j': nat)
    requires n >= 2 && i < n && j < n
    requires i' == (if i + 1 == n then 0 else i + 1) && j' == if j + 1 == n then 0 else j + 1
    ensures Joined(RingEdges(n), i, j) <==> j == i' || i == j'
  {
    var edges := RingEdges(n);
    if n == 2 {
      assert edges[0] == Edge(0, 1);
    } else {
      assert edges[i] == Edge(i, i') && edges[j] == Edge(j, j');
    }
  }

  lemma {:induction false} LaterHas(i: nat, n: nat)
    ensures forall e :: e in Later(i, n) <==> e.a == i < e.b < n
    ensures |Later(i, n)| == if n <= i + 1 then 0 else n - i - 1
    ensures forall x, y | 0 <= x < y < |Later(i, n)| :: Later(i, n)[x] != Later(i, n)[y]
  {
    if n > i + 1 {
      LaterHas(i, n - 1);
    }
  }

  /** The full graph has every pair, lower end first, exactly once. */
  lemma {:induction false} FullHasEveryPair(m: nat, n: nat)
    requires m <= n
    ensures forall e :: e in FullEdges(m, n) <==> e.a < m && e.a < e.b < n
    ensures forall x, y | 0 <= x < y < |FullEdges(m, n)| :: FullEdges(m, n)[x] != FullEdges(m, n)[y]
  {
    if m > 0 {
      FullHasEveryPair(m - 1, n);
      LaterHas(m - 1, n);
    }
  }

  lemma {:induction false} LaterOrdered(i: nat, n: nat)
    ensures forall x, y | 0 <= x < y < |Later(i, n)| :: Later(i, n)[x].b < Later(i, n)[y].b
  {
    if n > i + 1 {
      LaterOrdered(i, n - 1);
      LaterHas(i, n - 1);
      var front := Later(i, n - 1);
      assert forall x | 0 <= x < |front| :: front[x] in front;
    }
  }

  predicate Before(e: Edge, f: Edge) {
    e.a < f.a || (e.a == f.a && e.b < f.b)
  }

  /** The pairs come in lexicographic order. */
  lemma {:induction false} FullIsOrdered(m: nat, n: nat)
    ensures forall x, y | 0 <= x < y < |FullEdges(m, n)| :: Before(FullEdges(m, n)[x], FullEdges(m, n)[y])
  {
    if m > 0 {
      var front, last := FullEdges(m - 1, n), Later(m - 1, n);
      FullIsOrdered(m - 1, n);
      FullStartsBelow(m - 1, n);
      LaterHas(m - 1, n);
      LaterOrdered(m - 1, n);
      assert forall x | 0 <= x < |last| :: last[x] in last;
    }
  }

  lemma {:induction false} FullStartsBelow(m: nat, n: nat)
    ensures forall x | 0 <= x < |FullEdges(m, n)| :: FullEdges(m, n)[x].a < m
  {
    if m > 0 {
      FullStartsBelow(m - 1, n);
      LaterHas(m - 1, n);
      var last := Later(m - 1, n);
      assert forall x | 0 <= x < |last| :: last[x] in last;
    }
  }

  lemma {:induction false} FullCount(m: nat, n: nat)
    requires m <= n
    ensures 2 * |FullEdges(m, n)| == m * (2 * n - m - 1)
  {
    if m > 0 {
      FullCount(m - 1, n);
      LaterHas(m - 1, n);
      Triangle(m, n);
    }
  }

  lemma Triangle(m: int, n: int)
    ensures m * (2 * n - m - 1) == (m - 1) * (2 * n - m) + 2 * (n - m)
  {
  }

  lemma FullIsSimple(n: nat)
    ensures ValidEdges(FullEdges(n, n), n) && Simple(FullEdges(n, n))
    ensures 2 * |FullEdges(n, n)| == n * (n - 1)
  {
    FullHasEveryPair(n, n);
    FullCount(n, n);
    assert forall x | 0 <= x < |FullEdges(n, n)| :: FullEdges(n, n)[x] in FullEdges(n, n);
  }

  /** An explicit list: lower ends first, and exactly the pairs that were named. */
  lemma {:induction false} CustomIsSimple(parts: seq<Part>, n: nat)
    requires CustomEdges(parts, n).Ok?
    ensures var edges := CustomEdges(parts, n).edges;
            && ValidEdges(edges, n) && Simple(edges)
            && (forall e | e in edges :: e == Key(e.a, e.b))
            && (forall k | 0 <= k < |parts| && parts[k].Pair? ::
                  0 <= parts[k].i < n && 0 <= parts[k].j < n && Key(parts[k].i, parts[k].j) in edges)
  {
    if parts != [] {
      var m := |parts| - 1;
      CustomIsSimple(parts[..m], n);
      var before, edges := CustomEdges(parts[..m], n).edges, CustomEdges(parts, n).edges;
      assert forall k | 0 <= k < m :: parts[..m][k] == parts[k];
      assert edges == before || (parts[m].Pair? && edges == before + [Key(parts[m].i, parts[m].j)]);
    }
  }

  lemma {:induction false} CustomIsNamed(parts: seq<Part>, n: nat, e: Edge)
    requires CustomEdges(parts, n).Ok? && e in CustomEdges(parts, n).edges
    ensures exists k | 0 <= k < |parts| ::
              parts[k].Pair? && 0 <= parts[k].i && 0 <= parts[k].j && e == Key(parts[k].i, parts[k].j)
  {
    var m := |parts| - 1;
    if parts == [] {
    } else if e in CustomEdges(parts[..m], n).edges {
      CustomIsNamed(parts[..m], n, e);
      var k :| 0 <= k < m && parts[..m][k].Pair? && 0 <= parts[..m][k].i && 0 <= parts[..m][k].j
               && e == Key(parts[..m][k].i, parts[..m][k].j);
      assert parts[k] == parts[..m][k];
    } else {
      assert parts[m].Pair? && e == Key(parts[m].i, parts[m].j);
    }
  }

  /** An accepted list has the edge from `i` to `j` exactly when `i` is the lower and some part names the two. */
  lemma CustomHasEdgeIff(parts: seq<Part>, n: nat, i: nat, j: nat)
    requires CustomEdges(parts, n).Ok?
    ensures Edge(i, j) in CustomEdges(parts, n).edges
       <==> i < j && exists k | 0 <= k < |parts| :: parts[k] == Pair(i, j) || parts[k] == Pair(j, i)
  {
    CustomIsSimple(parts, n);
    CustomAcceptedIff(parts, n);
    if Edge(i, j) in CustomEdges(parts, n).edges {
      CustomIsNamed(parts, n, Edge(i, j));
      var k :| 0 <= k < |parts| && parts[k].Pair? && 0 <= parts[k].i && 0 <= parts[k].j
               && Edge(i, j) == Key(parts[k].i, parts[k].j);
      assert Acceptable(parts[k], n);
    }
  }

  predicate Acceptable(part: Part, n: nat) {
    match part
    case Blank => true
    case Malformed => false
    case Pair(i, j) => 0 <= i < n && 0 <= j < n && i != j
  }

  /** An explicit list is accepted exactly when every part is, and some part names an edge. */
  lemma {:induction false} CustomAcceptedIff(parts: seq<Part>, n: nat)
    ensures CustomEdges(parts, n).Ok? <==> forall k | 0 <= k < |parts| :: Acceptable(parts[k], n)
    ensures CustomEdges(parts, n) == Ok([]) <==> forall k | 0 <= k < |parts| :: parts[k].Blank?
  {
    if parts != [] {
      var m := |parts| - 1;
      CustomAcceptedIff(parts[..m], n);
      assert forall k | 0 <= k < m :: parts[..m][k] == parts[k];
      assert parts == parts[..m] + [parts[m]];
    }
  }

  /** What is wrong with a part that is not acceptable. */
  function Complaint(part: Part, n: nat): Edges
    requires !Acceptable(part, n)
  {
    if part.Malformed? then BadEdge
    else if part.i == part.j && 0 <= part.i < n then SelfLoop
    else OutsideNode
  }

  /** The error of a list is that of its first unacceptable part. */
  lemma FirstBadPartIsReported(parts: seq<Part>, n: nat, k: nat)
    requires k < |parts| && !Acceptable(parts[k], n) && forall i | 0 <= i < k :: Acceptable(parts[i], n)
    ensures CustomEdges(parts, n) == Complaint(parts[k], n)
  {
    var upTo := parts[..k + 1];
    assert upTo[..k] == parts[..k];
    CustomAcceptedIff(parts[..k], n);
    FirstError(parts, k + 1, n);
  }

  /** The place of the first part that names edge `e`, or the number of parts. */
  function FirstMention(parts: seq<Part>, e: Edge): (k: nat)
    ensures k <= |parts|
    ensures k < |parts| ==> parts[k].Pair? && Names(parts[k], e)
    ensures forall i | 0 <= i < k :: !Names(parts[i], e)
  {
    if parts == [] then 0 else if Names(parts[0], e) then 0 else 1 + FirstMention(parts[1..], e)
  }

  predicate Names(part: Part, e: Edge) {
    part.Pair? && 0 <= part.i && 0 <= part.j && e == Key(part.i, part.j)
  }

  lemma MentionedInFront(parts: seq<Part>, front: seq<Part>, e: Edge)
    requires front <= parts && FirstMention(front, e) < |front|
    ensures FirstMention(parts, e) == FirstMention(front, e)
  {
    assert Names(parts[FirstMention(front, e)], e);
    assert forall i | 0 <= i < |front| :: front[i] == parts[i];
  }

  /** An explicit list keeps its edges in the order in which they are first mentioned. */
  lemma {:induction false} CustomInOrderOfMention(parts: seq<Part>, n: nat, x: nat, y: nat)
    requires CustomEdges(parts, n).Ok? && x < y < |CustomEdges(parts, n).edges|
    ensures var edges := CustomEdges(parts, n).edges;
            FirstMention(parts, edges[x]) < FirstMention(parts, edges[y]) < |parts|
  {
    var m := |parts| - 1;
    var front := parts[..m];
    var before, edges := CustomEdges(front, n).edges, CustomEdges(parts, n).edges;
    IsMentioned(front, n, edges[x]);
    MentionedInFront(parts, front, edges[x]);
    if y < |before| {
      CustomInOrderOfMention(front, n, x, y);
      MentionedInFront(parts, front, edges[y]);
    } else {
      IsMentioned(parts, n, edges[y]);
      NotYetMentioned(front, n, edges[y]);
    }
  }

  lemma IsMentioned(parts: seq<Part>, n: nat, e: Edge)
    requires CustomEdges(parts, n).Ok? && e in CustomEdges(parts, n).edges
    ensures FirstMention(parts, e) < |parts|
  {
    CustomIsNamed(parts, n, e);
    var k :| 0 <= k < |parts| && parts[k].Pair? && 0 <= parts[k].i && 0 <= parts[k].j
             && e == Key(parts[k].i, parts[k].j);
    assert Names(parts[k], e);
  }

  /** An edge that is not in the list so far has not been mentioned so far. */
  lemma NotYetMentioned(parts: seq<Part>, n: nat, e: Edge)
    requires CustomEdges(parts, n).Ok? && e !in CustomEdges(parts, n).edges
    ensures FirstMention(parts, e) == |parts|
  {
    CustomIsSimple(parts, n);
    assert FirstMention(parts, e) < |parts| ==> Names(parts[FirstMention(parts, e)], e);
  }

  /** Whatever list comes back is a simple graph on the nodes, empty exactly when there are fewer than two of them. */
  lemma EdgesAreSimple(n: int, topology: Topology)
    requires GossipEdges(n, topology).Ok?
    ensures var edges := GossipEdges(n, topology).edges;
            && Simple(edges) && (edges == [] <==> n < 2)
            && (n >= 0 ==> ValidEdges(edges, n))
  {
    if n >= 2 {
      match topology
      case Ring => RingIsSimple(n);
      case Full => FullIsSimple(n);
        assert n * (n - 1) >= 2;
      case Custom(parts) => CustomIsSimple(parts, n);
      case Unknown =>
    }
  }

  /** Every exchange over such a list ends, and no reachable state is stuck. */
  lemma EveryGossipEnds<P(!new)>(topology: Topology, n: nat, rounds: nat, run: seq<Net<P>>, payload: P)
    requires GossipEdges(n, topology).Ok? && IsRun(Schedule(GossipEdges(n, topology).edges, rounds), n, run)
    ensures var sched, s := Schedule(GossipEdges(n, topology).edges, rounds), run[|run| - 1];
            Finished(sched, s) || SomeNodeCanStep(sched, s)
    ensures |run| - 1 <= n * (6 * (rounds * |GossipEdges(n, topology).edges|) + rounds)
  {
    EdgesAreSimple(n, topology);
    ExchangeTerminates(GossipEdges(n, topology).edges, n, rounds, run, payload);
  }
}
