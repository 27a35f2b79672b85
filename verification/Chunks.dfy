/** Splitting a message into chunks and joining chunks into a message. */
module Chunks {
  import opened Arithmetic

  /** Pieces of `n` elements, the last one possibly shorter; nothing for an empty message. */
  function Split<T>(msg: seq<T>, n: nat): seq<seq<T>>
    requires n > 0
  {
    if msg == [] then []
    else if |msg| <= n then [msg]
    else [msg[..n]] + Split(msg[n..], n)
  }

  /** The elements from index `i` on; none when the index is past the end. */
  function From<T>(s: seq<T>, i: nat): (rest: seq<T>)
    ensures |rest| == if i < |s| then |s| - i else 0
  {
    if i < |s| then s[i..] else []
  }

  lemma FromFrom<T>(s: seq<T>, i: nat, n: nat)
    ensures From(From(s, i), n) == From(s, i + n)
  {
  }

  lemma Regroup<T>(a: seq<T>, b: seq<T>, c: seq<T>)
    ensures a + (b + c) == a + b + c
  {
  }

  function Join<T>(chunks: seq<seq<T>>): seq<T> {
    if chunks == [] then [] else Join(chunks[..|chunks| - 1]) + chunks[|chunks| - 1]
  }

  /** The loop over the message in strides of `n`; a stride of zero would not end. */
  method SplitMessage<T>(msg: seq<T>, n: nat) returns (chunks: seq<seq<T>>)
    requires n > 0
    ensures chunks == Split(msg, n)
  {
    chunks := [];
    var i := 0;
    while i < |msg|
      invariant 0 <= i
      invariant Split(msg, n) == chunks + (if i < |msg| then Split(msg[i..], n) else [])
      decreases |msg| - i
    {
      var end := if i + n <= |msg| then i + n else |msg|;
      if i + n < |msg| {
        assert msg[i..][n..] == msg[i + n..] && msg[i..][..n] == msg[i..end];
      } else {
        assert msg[i..] == msg[i..end];
      }
      chunks := chunks + [msg[i..end]];
      i := i + n;
    }
  }

  /** Piece `i` starts at element `i * n`, if there is one, and takes `n` elements or what is left. */
  lemma {:induction false} PieceAt<T>(msg: seq<T>, n: nat, i: nat, start: nat, chunks: seq<seq<T>>)
    requires n > 0 && start == i * n && chunks == Split(msg, n)
    ensures i < |chunks| <==> start < |msg|
    ensures start < |msg| ==> chunks[i] == msg[start..if start + n <= |msg| then start + n else |msg|]
    decreases i
  {
    if i == 0 {
    } else {
      OneMultipleLess(i, n, start);
      if |msg| > n {
        var rest, later := msg[n..], chunks[1..];
        assert later == Split(rest, n) && |chunks| == |later| + 1;
        PieceAt(rest, n, i - 1, start - n, later);
        if start < |msg| {
          var end := if start + n <= |msg| then start + n else |msg|;
          assert chunks[i] == later[i - 1] == rest[start - n..end - n] == msg[start..end];
        }
      }
    }
  }

  lemma {:induction false} JoinConcat<T>(a: seq<seq<T>>, b: seq<seq<T>>)
    ensures Join(a + b) == Join(a) + Join(b)
  {
    if b == [] {
      assert a + b == a;
    } else {
      var front, last := b[..|b| - 1], b[|b| - 1];
      assert (a + b)[..|a + b| - 1] == a + front && (a + b)[|a + b| - 1] == last;
      JoinConcat(a, front);
      Regroup(Join(a), Join(front), last);
    }
  }

  lemma JoinSingle<T>(m: seq<T>)
    ensures Join([m]) == m
  {
    assert [m][..0] == [];
  }

  lemma {:induction false} SplitSizes<T>(msg: seq<T>, n: nat)
    requires n > 0
    ensures forall i | 0 <= i < |Split(msg, n)| :: 0 < |Split(msg, n)[i]| <= n
  {
    if |msg| > n {
      SplitSizes(msg[n..], n);
    }
  }

  lemma {:induction false} SplitsJoin<T>(msg: seq<T>, n: nat)
    requires n > 0
    ensures Join(Split(msg, n)) == msg
  {
    if |msg| > n {
      var front, rest := msg[..n], Split(msg[n..], n);
      SplitsJoin(msg[n..], n);
      JoinConcat([front], rest);
      JoinSingle(front);
      assert msg == front + msg[n..];
    } else if msg != [] {
      JoinSingle(msg);
    }
  }

  /** Joining undoes splitting, and no chunk is empty or longer than `n`. */
  lemma SplitJoin<T>(msg: seq<T>, n: nat)
    requires n > 0
    ensures Join(Split(msg, n)) == msg
    ensures forall i | 0 <= i < |Split(msg, n)| :: 0 < |Split(msg, n)[i]| <= n
  {
    SplitSizes(msg, n);
    SplitsJoin(msg, n);
  }

  lemma {:induction false} JoinLonger<T>(chunks: seq<seq<T>>, n: nat)
    requires n < |chunks| && forall i | 0 <= i < |chunks| :: chunks[i] != []
    ensures |Join(chunks[..n])| < |Join(chunks)|
  {
    var m := |chunks| - 1;
    if n < m {
      JoinLonger(chunks[..m], n);
      assert chunks[..m][..n] == chunks[..n];
    }
  }

  /** The number of chunks is the length divided by `n`, rounded up. */
  lemma {:induction false} SplitCount<T>(msg: seq<T>, n: nat)
    requires n > 0 && msg != []
    ensures (|Split(msg, n)| - 1) * n < |msg| <= |Split(msg, n)| * n
  {
    if |msg| > n {
      var rest := |Split(msg[n..], n)|;
      SplitCount(msg[n..], n);
      assert |Split(msg, n)| == rest + 1;
      assert rest * n == (rest - 1) * n + n && (rest + 1) * n == rest * n + n;
    }
  }
}
