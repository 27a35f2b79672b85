/** Placing the info edges of the LDPC code: shuffled sockets, repaired so that no column repeats a row. */
module LdpcPlacement {
  import opened Arithmetic
  import opened Counting

  /** The unshuffled sockets: rows 0, 1, ..., m-1 over and over. */
  function Balanced(n: nat, m: nat): (s: seq<nat>)
    requires m > 0
    ensures |s| == n
  {
    seq(n, e requires 0 <= e < n => e % m)
  }

  ghost predicate RowsBelow(s: seq<nat>, m: nat) {
    forall e | 0 <= e < |s| :: s[e] < m
  }

  /** The first index from `j` on whose row is not used. */
  function FirstFree(s: seq<nat>, j: nat, used: seq<nat>): (i: nat)
    requires j <= |s|
    ensures j <= i <= |s| && (i < |s| ==> s[i] !in used) && forall t | j <= t < i :: s[t] in used
    decreases |s| - j
  {
    if j == |s| || s[j] !in used then j else FirstFree(s, j + 1, used)
  }

  /** The first row from `r` on that is not used. */
  function FirstRow(r: nat, m: nat, used: seq<nat>): (i: nat)
    requires r <= m
    ensures r <= i <= m && (i < m ==> i !in used) && forall t | r <= t < i :: t in used
    decreases m - r
  {
    if r == m || r !in used then r else FirstRow(r + 1, m, used)
  }

  /** The sockets after a step, and whether a row had to be overwritten instead of swapped. */
  datatype Placement = Placement(sockets: seq<nat>, overwrote: bool)

  function Swap(s: seq<nat>, i: nat, j: nat): (t: seq<nat>)
    requires i < |s| && j < |s|
  {
    s[i := s[j]][j := s[i]]
  }

  /** Socket `pos` of the column that starts at `start`: keep, swap with a later socket, or take any unused row. */
  function Place(s: seq<nat>, start: nat, pos: nat, m: nat): (p: Placement)
    requires start <= pos < |s|
    ensures |p.sockets| == |s| && p.sockets[..pos] == s[..pos]
    ensures RowsBelow(s, m) ==> RowsBelow(p.sockets, m)
  {
    var used := s[start..pos];
    if s[pos] !in used then Placement(s, false)
    else
      var j := FirstFree(s, pos + 1, used);
      if j < |s| then Placement(Swap(s, pos, j), false)
      else
        var r := FirstRow(0, m, used);
        if r < m then Placement(s[pos := r], true) else Placement(s, false)
  }

  /** The inner loop: sockets `w` to `cw - 1` of the column at `start`. */
  function PlaceColumn(s: seq<nat>, start: nat, w: nat, cw: nat, m: nat): (p: Placement)
    requires start + cw <= |s| && w <= cw
    ensures |p.sockets| == |s| && p.sockets[..start + w] == s[..start + w]
    ensures RowsBelow(s, m) ==> RowsBelow(p.sockets, m)
    decreases cw - w
  {
    if w == cw then Placement(s, false)
    else
      var p := Place(s, start, start + w, m);
      var rest := PlaceColumn(p.sockets, start, w + 1, cw, m);
      assert rest.sockets[..start + w] == rest.sockets[..start + w + 1][..start + w];
      Placement(rest.sockets, p.overwrote || rest.overwrote)
  }

  lemma ColumnFits(col: nat, k: nat, cw: nat)
    ensures col < k ==> col * cw + cw <= k * cw
    ensures col * cw + cw == (col + 1) * cw
  {
    NextColumn(col, cw);
    ColumnOrder(col + 1, k, cw);
  }

  lemma NextColumn(col: nat, cw: nat)
    ensures col * cw + cw == (col + 1) * cw
  {
  }

  lemma ColumnOrder(col: nat, k: nat, cw: nat)
    ensures col <= k ==> col * cw <= k * cw
  {
  }

  /** The outer loop: columns `col` to `k - 1`. */
  function PlaceColumns(s: seq<nat>, col: nat, k: nat, cw: nat, m: nat): (p: Placement)
    requires |s| == k * cw && col <= k
    ensures |p.sockets| == |s| && col * cw <= |s| && p.sockets[..col * cw] == s[..col * cw]
    ensures RowsBelow(s, m) ==> RowsBelow(p.sockets, m)
    decreases k - col
  {
    ColumnFits(col, k, cw);
    if col == k then Placement(s, false)
    else
      var p := PlaceColumn(s, col * cw, 0, cw, m);
      var rest := PlaceColumns(p.sockets, col + 1, k, cw, m);
      assert rest.sockets[..col * cw] == rest.sockets[..(col + 1) * cw][..col * cw];
      Placement(rest.sockets, p.overwrote || rest.overwrote)
  }

  function Column(s: seq<nat>, col: nat, cw: nat): seq<nat> {
    if col * cw + cw <= |s| then s[col * cw..col * cw + cw] else []
  }

  // ---- counting ----

  /** Distinct rows below `m` number at most `m`. */
  lemma PigeonHole(s: seq<nat>, m: nat)
    requires Distinct(s) && RowsBelow(s, m)
    ensures |s| <= m
  {
    ElementsCount(s);
    SmallerSubset(Elements(s), Below(m));
  }

  /** Fewer than `m` sockets leave some row unused. */
  lemma SomeRowIsFree(used: seq<nat>, m: nat)
    requires forall r: nat | r < m :: r in used
    ensures m <= |used|
  {
    ElementsCount(used);
    SmallerSubset(Below(m), Elements(used));
  }

  // ---- what a placement keeps ----

  lemma SwapKeepsRows(s: seq<nat>, i: nat, j: nat)
    requires i < |s| && j < |s|
    ensures multiset(Swap(s, i, j)) == multiset(s)
  {
  }

  lemma PlaceKeepsRows(s: seq<nat>, start: nat, pos: nat, m: nat)
    requires start <= pos < |s|
    ensures var p := Place(s, start, pos, m); !p.overwrote ==> multiset(p.sockets) == multiset(s)
  {
    var used := s[start..pos];
    if s[pos] in used {
      var j := FirstFree(s, pos + 1, used);
      if j < |s| {
        SwapKeepsRows(s, pos, j);
      }
    }
  }

  /** Socket `pos` repeats a row of its column, and so does every socket after it. */
  ghost predicate Stuck(s: seq<nat>, start: nat, pos: nat)
    requires start <= pos < |s|
  {
    s[pos] in s[start..pos] && forall j | pos < j < |s| :: s[j] in s[start..pos]
  }

  /** `t` is `s` with the sockets `pos` and `j` exchanged and all others as they were. */
  ghost predicate Exchanged(s: seq<nat>, t: seq<nat>, pos: nat, j: nat)
    requires pos < |s| == |t| && j < |s|
  {
    t[pos] == s[j] && t[j] == s[pos] && forall e | 0 <= e < |s| && e != pos && e != j :: t[e] == s[e]
  }

  lemma OverwriteChangesRows(s: seq<nat>, pos: nat, r: nat)
    requires pos < |s| && r != s[pos]
    ensures multiset(s[pos := r]) != multiset(s)
  {
    var others := multiset(s[..pos]) + multiset(s[pos + 1..]);
    assert s == s[..pos] + [s[pos]] + s[pos + 1..] && s[pos := r] == s[..pos] + [r] + s[pos + 1..];
    assert multiset(s)[r] == others[r] && multiset(s[pos := r])[r] == others[r] + 1;
  }

  /** A socket with a row new to its column stays; one that repeats a row swaps with the first later one that is new. */
  lemma PlaceExchanges(s: seq<nat>, start: nat, pos: nat, m: nat)
    requires start <= pos < |s|
    ensures var p, used := Place(s, start, pos, m), s[start..pos];
            && (s[pos] !in used ==> p.sockets == s)
            && forall j | pos < j < |s| && s[j] !in used && s[pos] in used && (forall i | pos < i < j :: s[i] in used)
                 :: Exchanged(s, p.sockets, pos, j)
  {
    var used := s[start..pos];
    if s[pos] in used {
      var f := FirstFree(s, pos + 1, used);
      forall j | pos < j < |s| && s[j] !in used && (forall i | pos < i < j :: s[i] in used)
        ensures Exchanged(s, Place(s, start, pos, m).sockets, pos, j)
      {
        assert !(f < j) && !(j < f);
      }
    }
  }

  /**
   * Only when no later socket has a new row either does the row of the socket change, to the least one new to the
   * column, and the row counts with it.
   */
  lemma PlaceOverwrites(s: seq<nat>, start: nat, pos: nat, m: nat, r: nat)
    requires start <= pos < |s| && r <= m
    requires r < m ==> r !in s[start..pos]
    requires forall q: nat | q < r :: q in s[start..pos]
    ensures var p := Place(s, start, pos, m);
            && (p.overwrote <==> Stuck(s, start, pos) && r < m)
            && (p.overwrote <==> multiset(p.sockets) != multiset(s))
            && (p.overwrote ==> p.sockets == s[pos := r])
            && (Stuck(s, start, pos) && r == m ==> p.sockets == s)
  {
    var used := s[start..pos];
    if s[pos] in used {
      var j, row := FirstFree(s, pos + 1, used), FirstRow(0, m, used);
      if j < |s| {
        SwapKeepsRows(s, pos, j);
      } else {
        assert !(row < r) && !(r < row);
        if r < m {
          OverwriteChangesRows(s, pos, r);
        }
      }
    }
  }

  /** The first socket of the column that socket `n` belongs to. */
  function ColumnStart(n: nat, cw: nat): (start: nat)
    requires cw > 0
    ensures start <= n
    decreases n, cw
  {
    if n < cw then 0 else ColumnStart(n - cw, cw) + cw
  }

  lemma {:induction false} StartsColumn(c: nat, cw: nat, w: nat)
    requires w < cw
    ensures ColumnStart(c * cw + w, cw) == c * cw
    decreases c
  {
    if c > 0 {
      NextColumn(c - 1, cw);
      StartsColumn(c - 1, cw, w);
    }
  }

  /** The sockets after the first `n` placements. */
  function SocketsAfter(s: seq<nat>, cw: nat, m: nat, n: nat): (t: seq<nat>)
    requires cw > 0 && n <= |s|
    ensures |t| == |s|
    decreases n, cw
  {
    if n == 0 then s else Place(SocketsAfter(s, cw, m, n - 1), ColumnStart(n - 1, cw), n - 1, m).sockets
  }

  /** Socket `pos` of `t` is stuck, but some row is not used by the column that starts at `start`. */
  ghost predicate LeavesRow(t: seq<nat>, start: nat, pos: nat, m: nat)
    requires start <= pos < |t|
  {
    Stuck(t, start, pos) && exists r: nat | r < m :: r !in t[start..pos]
  }

  /** Placement `n` finds no later socket to exchange with, but a row that its column does not use. */
  ghost predicate MustOverwrite(s: seq<nat>, cw: nat, m: nat, n: nat)
    requires cw > 0 && n < |s|
  {
    LeavesRow(SocketsAfter(s, cw, m, n), ColumnStart(n, cw), n, m)
  }

  lemma OverwritesOne(t: seq<nat>, start: nat, pos: nat, m: nat)
    requires start <= pos < |t|
    ensures Place(t, start, pos, m).overwrote <==> LeavesRow(t, start, pos, m)
  {
    var r := FirstRow(0, m, t[start..pos]);
    PlaceOverwrites(t, start, pos, m, r);
    if LeavesRow(t, start, pos, m) {
      var q: nat :| q < m && q !in t[start..pos];
      assert !(q < r);
    }
  }

  /** Some placement from `i` to `n - 1` must overwrite. */
  predicate SomeOf(must: nat -> bool, i: nat, n: nat)
    requires i <= n
    decreases n - i
  {
    i < n && (must(i) || SomeOf(must, i + 1, n))
  }

  lemma {:induction false} SplitSome(must: nat -> bool, i: nat, j: nat, n: nat)
    requires i <= j <= n
    ensures SomeOf(must, i, n) <==> SomeOf(must, i, j) || SomeOf(must, j, n)
    decreases j - i
  {
    if i < j {
      SplitSome(must, i + 1, j, n);
    }
  }

  lemma {:induction false} SomeOfIff(must: nat -> bool, i: nat, n: nat)
    requires i <= n
    ensures SomeOf(must, i, n) <==> exists j: nat | i <= j < n :: must(j)
    decreases n - i
  {
    if i < n {
      SomeOfIff(must, i + 1, n);
    }
  }

  /** Placement `pos` of the column at `start` turns `t` into `u`, and overwrites a row if `must`. */
  ghost predicate Places(t: seq<nat>, u: seq<nat>, start: nat, pos: nat, m: nat, must: bool) {
    start <= pos < |t| && Place(t, start, pos, m) == Placement(u, must)
  }

  lemma NextPlacement(s: seq<nat>, cw: nat, m: nat, i: nat)
    requires cw > 0 && i < |s|
    ensures Places(SocketsAfter(s, cw, m, i), SocketsAfter(s, cw, m, i + 1), ColumnStart(i, cw), i, m,
                   MustOverwrite(s, cw, m, i))
  {
    OverwritesOne(SocketsAfter(s, cw, m, i), ColumnStart(i, cw), i, m);
  }

  lemma {:induction false} PlaceColumnRuns(n: nat, start: nat, w: nat, cw: nat, m: nat, after: nat -> seq<nat>,
                                           must: nat -> bool)
    requires start + cw <= n && w <= cw && forall i :: |after(i)| == n
    requires forall i: nat {:trigger must(i)} | start <= i < start + cw
               :: Places(after(i), after(i + 1), start, i, m, must(i))
    ensures PlaceColumn(after(start + w), start, w, cw, m)
         == Placement(after(start + cw), SomeOf(must, start + w, start + cw))
    decreases cw - w
  {
    if w < cw {
      var pos := start + w;
      assert Places(after(pos), after(pos + 1), start, pos, m, must(pos));
      PlaceColumnRuns(n, start, w + 1, cw, m, after, must);
    }
  }

  lemma OneColumnRuns(n: nat, col: nat, cw: nat, m: nat, i: nat, after: nat -> seq<nat>, must: nat -> bool)
    requires cw > 0 && i == col * cw && i + cw <= n && forall i :: |after(i)| == n
    requires forall i: nat {:trigger must(i)} | i < n
               :: Places(after(i), after(i + 1), ColumnStart(i, cw), i, m, must(i))
    ensures PlaceColumn(after(i), i, 0, cw, m) == Placement(after(i + cw), SomeOf(must, i, i + cw))
  {
    forall j: nat {:trigger must(j)} | i <= j < i + cw
      ensures Places(after(j), after(j + 1), i, j, m, must(j))
    {
      StartsColumn(col, cw, j - i);
    }
    PlaceColumnRuns(n, i, 0, cw, m, after, must);
  }

  lemma PlaceColumnsUnfolds(t: seq<nat>, col: nat, k: nat, cw: nat, m: nat, i: nat)
    requires |t| == k * cw && col < k && i == col * cw
    ensures i + cw == (col + 1) * cw <= |t|
    ensures var p := PlaceColumn(t, i, 0, cw, m);
            var rest := PlaceColumns(p.sockets, col + 1, k, cw, m);
            PlaceColumns(t, col, k, cw, m) == Placement(rest.sockets, p.overwrote || rest.overwrote)
  {
    ColumnFits(col, k, cw);
  }

  lemma {:induction false} PlaceColumnsRun(n: nat, col: nat, k: nat, cw: nat, m: nat, i: nat, after: nat -> seq<nat>,
                                           must: nat -> bool)
    requires cw > 0 && n == k * cw && col <= k && i == col * cw <= n && forall i :: |after(i)| == n
    requires forall i: nat {:trigger must(i)} | i < n
               :: Places(after(i), after(i + 1), ColumnStart(i, cw), i, m, must(i))
    ensures PlaceColumns(after(i), col, k, cw, m) == Placement(after(n), SomeOf(must, i, n))
    decreases k - col
  {
    if col == k {
      assert PlaceColumns(after(i), col, k, cw, m) == Placement(after(n), false);
    } else {
      PlaceColumnsUnfolds(after(i), col, k, cw, m, i);
      OneColumnRuns(n, col, cw, m, i, after, must);
      PlaceColumnsRun(n, col + 1, k, cw, m, i + cw, after, must);
      SplitSome(must, i, i + cw, n);
    }
  }

  lemma RunOverwritesIff(n: nat, k: nat, cw: nat, m: nat, after: nat -> seq<nat>, must: nat -> bool)
    requires cw > 0 && n == k * cw && forall i :: |after(i)| == n
    requires forall i: nat {:trigger must(i)} | i < n
               :: Places(after(i), after(i + 1), ColumnStart(i, cw), i, m, must(i))
    ensures PlaceColumns(after(0), 0, k, cw, m).sockets == after(n)
    ensures PlaceColumns(after(0), 0, k, cw, m).overwrote <==> exists i: nat | i < n :: must(i)
  {
    PlaceColumnsRun(n, 0, k, cw, m, 0, after, must);
    SomeOfIff(must, 0, n);
  }

  /**
   * Building the columns is placing the sockets one by one; a row is overwritten exactly when some placement is stuck
   * while its column still lacks a row.
   */
  lemma OverwritesIff(s: seq<nat>, k: nat, cw: nat, m: nat)
    requires cw > 0 && |s| == k * cw
    ensures var p := PlaceColumns(s, 0, k, cw, m);
            && p.sockets == SocketsAfter(s, cw, m, |s|)
            && (p.overwrote <==> exists i: nat | i < |s| :: MustOverwrite(s, cw, m, i))
  {
    var n := |s|;
    var after := (i: nat) => if i <= n then SocketsAfter(s, cw, m, i) else s;
    var must := (i: nat) => i < n && MustOverwrite(s, cw, m, i);
    forall i: nat {:trigger must(i)} | i < n
      ensures Places(after(i), after(i + 1), ColumnStart(i, cw), i, m, must(i))
    {
      NextPlacement(s, cw, m, i);
      assert after(i) == SocketsAfter(s, cw, m, i) && after(i + 1) == SocketsAfter(s, cw, m, i + 1);
    }
    RunOverwritesIff(n, k, cw, m, after, must);
    assert after(0) == s && after(n) == SocketsAfter(s, cw, m, n);
    assert (exists i: nat | i < n :: must(i)) <==> exists i: nat | i < n :: MustOverwrite(s, cw, m, i) by {
      if i: nat :| i < n && MustOverwrite(s, cw, m, i) {
        assert must(i);
      }
    }
  }

  lemma {:induction false} PlaceColumnKeepsRows(s: seq<nat>, start: nat, w: nat, cw: nat, m: nat)
    requires start + cw <= |s| && w <= cw
    ensures var p := PlaceColumn(s, start, w, cw, m); !p.overwrote ==> multiset(p.sockets) == multiset(s)
    decreases cw - w
  {
    if w < cw {
      PlaceKeepsRows(s, start, start + w, m);
      PlaceColumnKeepsRows(Place(s, start, start + w, m).sockets, start, w + 1, cw, m);
    }
  }

  /** Until a row is overwritten, every row keeps its sockets. */
  lemma {:induction false} RowsKept(s: seq<nat>, col: nat, k: nat, cw: nat, m: nat)
    requires |s| == k * cw && col <= k
    ensures var p := PlaceColumns(s, col, k, cw, m); !p.overwrote ==> multiset(p.sockets) == multiset(s)
    decreases k - col
  {
    if col < k {
      ColumnFits(col, k, cw);
      PlaceColumnKeepsRows(s, col * cw, 0, cw, m);
      RowsKept(PlaceColumn(s, col * cw, 0, cw, m).sockets, col + 1, k, cw, m);
    }
  }

  lemma {:induction false} NothingToPlace(s: seq<nat>, col: nat, k: nat, m: nat)
    requires s == [] && col <= k
    ensures PlaceColumns(s, col, k, 0, m) == Placement(s, false)
    decreases k - col
  {
    if col < k {
      assert PlaceColumn(s, 0, 0, 0, m) == Placement(s, false);
      NothingToPlace(s, col + 1, k, m);
    }
  }

  lemma PlaceFits(s: seq<nat>, start: nat, pos: nat, m: nat)
    requires start <= pos < |s|
    ensures var used := s[start..pos];
            Place(s, start, pos, m).sockets[pos] in used ==> forall r: nat | r < m :: r in used
  {
  }

  lemma PlaceDistinct(s: seq<nat>, start: nat, pos: nat, m: nat)
    requires start <= pos < |s| && pos - start < m && Distinct(s[start..pos])
    ensures Distinct(Place(s, start, pos, m).sockets[start..pos + 1])
  {
    var used, t := s[start..pos], Place(s, start, pos, m).sockets;
    if t[pos] in used {
      PlaceFits(s, start, pos, m);
      SomeRowIsFree(used, m);
    }
    assert t[start..pos] == t[..pos][start..] == used;
    assert t[start..pos + 1] == used + [t[pos]];
  }

  lemma {:induction false} PlaceColumnDistinct(s: seq<nat>, start: nat, w: nat, cw: nat, m: nat)
    requires start + cw <= |s| && w <= cw <= m && RowsBelow(s, m) && Distinct(s[start..start + w])
    ensures Distinct(PlaceColumn(s, start, w, cw, m).sockets[start..start + cw])
    decreases cw - w
  {
    if w < cw {
      var pos := start + w;
      PlaceDistinct(s, start, pos, m);
      PlaceColumnDistinct(Place(s, start, pos, m).sockets, start, w + 1, cw, m);
    }
  }

  /** Later columns do not disturb a finished one, and every column ends with distinct rows. */
  lemma {:induction false} ColumnsAreDistinct(s: seq<nat>, col: nat, k: nat, cw: nat, m: nat, c: nat)
    requires |s| == k * cw && col <= c < k && cw <= m && RowsBelow(s, m)
    ensures Distinct(Column(PlaceColumns(s, col, k, cw, m).sockets, c, cw))
    decreases k - col
  {
    ColumnFits(col, k, cw);
    ColumnFits(c, k, cw);
    var t := PlaceColumn(s, col * cw, 0, cw, m).sockets;
    var u := PlaceColumns(s, col, k, cw, m).sockets;
    assert u == PlaceColumns(t, col + 1, k, cw, m).sockets;
    if c == col {
      PlaceColumnDistinct(s, col * cw, 0, cw, m);
      var n := (col + 1) * cw;
      assert u[..n][col * cw..] == t[..n][col * cw..];
      assert Column(u, col, cw) == u[..n][col * cw..] && t[col * cw..n] == t[..n][col * cw..];
    } else {
      ColumnsAreDistinct(t, col + 1, k, cw, m, c);
    }
  }

  /** Every column gets distinct rows exactly when the column weight does not exceed the number of rows. */
  lemma DistinctIffWeightFits(s: seq<nat>, k: nat, cw: nat, c: nat)
    requires |s| == k * cw && c < k && RowsBelow(s, k)
    ensures Distinct(Column(PlaceColumns(s, 0, k, cw, k).sockets, c, cw)) <==> cw <= k
  {
    var t := PlaceColumns(s, 0, k, cw, k).sockets;
    ColumnFits(c, k, cw);
    if cw <= k {
      ColumnsAreDistinct(s, 0, k, cw, k, c);
    } else if Distinct(Column(t, c, cw)) {
      PigeonHole(Column(t, c, cw), k);
    }
  }

  // ---- the balanced start ----

  lemma {:induction false} RangeHasRow(n: nat, r: nat)
    ensures multiset(seq(n, i requires 0 <= i < n => i))[r] == if r < n then 1 else 0
  {
    if n > 0 {
      RangeHasRow(n - 1, r);
      assert seq(n, i requires 0 <= i < n => i) == seq(n - 1, i requires 0 <= i < n - 1 => i) + [n - 1];
    }
  }

  /** Every row starts with exactly `cw` sockets. */
  lemma {:induction false} BalancedRows(cw: nat, m: nat, n: nat, r: nat)
    requires r < m && n == cw * m
    ensures multiset(Balanced(n, m))[r] == cw && RowsBelow(Balanced(n, m), m)
    decreases cw
  {
    if cw == 0 {
      assert Balanced(n, m) == [];
    } else {
      NextColumn(cw - 1, m);
      BalancedRows(cw - 1, m, n - m, r);
      RangeHasRow(m, r);
      BalancedSplit(n - m, m, cw - 1);
    }
  }

  lemma BalancedSplit(n: nat, m: nat, q: nat)
    requires m > 0 && n == q * m
    ensures Balanced(n + m, m) == Balanced(n, m) + seq(m, i requires 0 <= i < m => i)
  {
    var all, last := Balanced(n + m, m), seq(m, i requires 0 <= i < m => i);
    forall e | 0 <= e < n + m
      ensures all[e] == (Balanced(n, m) + last)[e]
    {
      if e >= n {
        QuotientAndRest(m, q, e - n, e);
      }
    }
  }
}
