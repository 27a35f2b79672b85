/** The chirp modulator and demodulator, with phases as exponents of a root of unity. */
module Chirp {
  import opened Arithmetic
  import opened BinaryNumbers
  import opened Rings
  import opened Dft
  import Fft

  // ---- phases ----

  /** 2 pi (n^2 / 2N - n / 2) in units of pi / N, modulo the full turn 2N; a down-chirp turns the other way. */
  function Phase(n: nat, N: nat, down: bool): (e: nat)
    requires N > 0
    ensures e < 2 * N
  {
    (if down then N * n - n * n else n * n - N * n) % (2 * N)
  }

  function BaseChirp<T>(R: Ring<T>, zeta: T, N: nat, down: bool): (c: seq<T>)
    requires N > 0
    ensures |c| == N
  {
    seq(N, n requires 0 <= n < N => Pow(R, zeta, Phase(n, N, down)))
  }

  /** The base up-chirp, cyclically shifted by `s`. */
  function Symbol<T>(up: seq<T>, s: nat): (out: seq<T>)
    requires up != []
    ensures |out| == |up|
  {
    seq(|up|, n requires 0 <= n < |up| => up[(n + s) % |up|])
  }

  method GenerateChirp<T>(R: Ring<T>, zeta: T, SF: nat, down: bool) returns (c: seq<T>)
    ensures c == BaseChirp(R, zeta, Pow2(SF), down)
  {
    var N := Power(SF);
    c := [];
    for n := 0 to N
      invariant c == BaseChirp(R, zeta, N, down)[..n]
    {
      var ph := n * n - N * n;
      if down {
        ph := -ph;
      }
      c := c + [Pow(R, zeta, ph % (2 * N))];
    }
  }

  method Power(SF: nat) returns (N: nat)
    ensures N == Pow2(SF)
  {
    N := 1;
    for i := 0 to SF
      invariant N == Pow2(i)
    {
      N := 2 * N;
    }
  }

  method ModSymbol<T>(s: nat, up: seq<T>) returns (out: seq<T>)
    requires up != []
    ensures out == Symbol(up, s)
  {
    out := [];
    for n := 0 to |up|
      invariant out == Symbol(up, s)[..n]
    {
      out := out + [up[(n + s) % |up|]];
    }
  }

  // ---- powers of a root of order 2N ----

  lemma FullTurn<T(!new)>(R: Ring<T>, z: T, N: nat)
    requires IsCommutativeRing(R) && HalfTurn(R, z, N)
    ensures Pow(R, z, 2 * N) == R.one
  {
    PowAdd(R, z, N, N);
    NegSquare(R, R.one);
    MulOne(R, R.one);
  }

  lemma {:induction false} PowTurns<T(!new)>(R: Ring<T>, z: T, N: nat, e: nat, k: nat, f: nat)
    requires IsCommutativeRing(R) && HalfTurn(R, z, N) && f == e + 2 * N * k
    ensures Pow(R, z, f) == Pow(R, z, e)
    decreases k
  {
    if k > 0 {
      var g := f - 2 * N;
      assert g == e + 2 * N * (k - 1);
      PowTurns(R, z, N, e, k - 1, g);
      FullTurn(R, z, N);
      PowAdd(R, z, 2 * N, g);
      MulOne(R, Pow(R, z, g));
    }
  }

  /** Equal phases modulo the full turn. */
  lemma PowCongruent<T(!new)>(R: Ring<T>, z: T, N: nat, e: nat, f: nat, k: int)
    requires IsCommutativeRing(R) && HalfTurn(R, z, N) && f == e + 2 * N * k
    ensures Pow(R, z, f) == Pow(R, z, e)
  {
    if k >= 0 {
      PowTurns(R, z, N, e, k, f);
    } else {
      assert 2 * N * k + 2 * N * (-k) == 0;
      PowTurns(R, z, N, f, -k, e);
    }
  }

  lemma Remainder(x: int, M: nat) returns (q: int)
    requires M > 0
    ensures x == M * q + x % M
  {
    q := x / M;
  }

  lemma FactorOut(M: nat, a: int, b: int, c: int, d: int)
    ensures M * (d + c - a - b) == M * d + M * c - M * a - M * b
  {
  }

  lemma SumModulo(a: int, b: int, c: int, x: int, d: int, M: nat) returns (k: int)
    requires M > 0 && a + b == c + x + M * d
    ensures a % M + b % M == c % M + x + M * k
  {
    var qa := Remainder(a, M);
    var qb := Remainder(b, M);
    var qc := Remainder(c, M);
    k := d + qc - qa - qb;
    FactorOut(M, qa, qb, qc, d);
  }

  lemma SameRest(x: int, y: int, M: nat, k: int)
    requires M > 0 && x - y == M * k
    ensures x % M == y % M
  {
    var qx := Remainder(x, M);
    var qy := Remainder(y, M);
    FactorOut(M, qy, k, qx, 0);
    Between(M, qy + k - qx, x % M - y % M);
  }

  lemma Between(M: nat, d: int, r: int)
    requires 0 < r + M && r < M && r == M * d
    ensures r == 0
  {
    AtLeast(M, d);
  }

  /**
   * An up-chirp starts at phase 0, and its phase advances by 2n + 1 - N units from sample n to the next: the frequency
   * rises evenly from half the bandwidth below the centre to half above. A down-chirp undoes the phase.
   */
  lemma PhaseSweeps(n: nat, N: nat)
    requires N > 0
    ensures Phase(0, N, false) == 0
    ensures (Phase(n + 1, N, false) - Phase(n, N, false)) % (2 * N) == (2 * n + 1 - N) % (2 * N)
    ensures (Phase(n, N, false) + Phase(n, N, true)) % (2 * N) == 0
  {
    StartsAtZero(N);
    var a, b, c := n * n - N * n, (n + 1) * (n + 1) - N * (n + 1), N * n - n * n;
    assert Phase(n, N, false) == a % (2 * N) && Phase(n + 1, N, false) == b % (2 * N);
    assert Phase(n, N, true) == c % (2 * N);
    NextSquare(n, N);
    DifferenceOfRests(a, b, 2 * n + 1 - N, 2 * N);
    RestsCancel(a, c, 2 * N);
  }

  lemma DifferenceOfRests(a: int, b: int, c: int, M: nat)
    requires M > 0 && b == a + c
    ensures (b % M - a % M) % M == c % M
  {
    var qa := Remainder(a, M);
    var qb := Remainder(b, M);
    FactorOut(M, qb, 0, qa, 0);
    SameRest(b % M - a % M, c, M, qa - qb);
  }

  lemma RestsCancel(a: int, b: int, M: nat)
    requires M > 0 && a + b == 0
    ensures (a % M + b % M) % M == 0
  {
    var qa := Remainder(a, M);
    var qb := Remainder(b, M);
    FactorOut(M, qa, qb, 0, 0);
    SameRest(a % M + b % M, 0, M, -qa - qb);
  }

  lemma StartsAtZero(N: nat)
    requires N > 0
    ensures Phase(0, N, false) == 0
  {
    assert 0 * 0 - N * 0 == 0;
    QuotientAndRest(2 * N, 0, 0, 0);
  }

  lemma NextSquare(n: nat, N: nat)
    ensures (n + 1) * (n + 1) - N * (n + 1) == n * n - N * n + (2 * n + 1 - N)
  {
  }

  lemma PhaseSum(n: nat, N: nat, s: nat, m: nat) returns (k: int)
    requires n < N && s < N && m == (n + s) % N
    ensures Phase(m, N, false) + Phase(n, N, true) == Phase(s, N, false) + 2 * (n * s) + 2 * N * k
  {
    var t := Remainder(n + s, N);
    ShiftedSquare(n, N, s, m, t);
    k := SumModulo(m * m - N * m, N * n - n * n, s * s - N * s, 2 * (n * s), t * N - t * (n + s), 2 * N);
  }

  lemma ScaledOrder(N: nat, a: int, b: int)
    ensures a <= b ==> N * a <= N * b
  {
  }

  /** (n + s - N t)^2 - N (n + s - N t) in terms of n, s and whole turns, for t = 0 or 1. */
  lemma ShiftedSquare(n: nat, N: nat, s: nat, m: nat, t: int)
    requires n < N && s < N && m < N && n + s == N * t + m
    ensures m * m - N * m + (N * n - n * n) == s * s - N * s + 2 * (n * s) + 2 * N * (t * N - t * (n + s))
  {
    ScaledOrder(N, 2, t);
    ScaledOrder(N, t, -1);
    if t == 1 {
      assert m == n + s - N;
      assert m * m == n * n + s * s + N * N + 2 * (n * s) - 2 * (N * n) - 2 * (N * s);
    } else {
      assert m == n + s;
      assert m * m == n * n + s * s + 2 * (n * s);
    }
  }

  /** Multiplying by the down-chirp leaves a pure tone: a constant times the (n s)-th power of the N-th root. */
  lemma DechirpIsTone<T(!new)>(R: Ring<T>, zeta: T, N: nat, s: nat, n: nat, x: nat)
    requires IsCommutativeRing(R) && HalfTurn(R, zeta, N) && s < N && n < N && x == n * s
    ensures R.mul(Symbol(BaseChirp(R, zeta, N, false), s)[n], BaseChirp(R, zeta, N, true)[n])
         == R.mul(BaseChirp(R, zeta, N, false)[s], Pow(R, R.mul(zeta, zeta), x))
  {
    var m := (n + s) % N;
    var k := PhaseSum(n, N, s, m);
    PhasesAdd(R, zeta, N, Phase(m, N, false), Phase(n, N, true), Phase(s, N, false), x, k);
  }

  lemma PowSum<T(!new)>(R: Ring<T>, z: T, a: nat, b: nat, c: nat)
    requires IsCommutativeRing(R) && c == a + b
    ensures R.mul(Pow(R, z, a), Pow(R, z, b)) == Pow(R, z, c)
  {
    PowAdd(R, z, a, b);
  }

  lemma PhasesAdd<T(!new)>(R: Ring<T>, z: T, N: nat, a: nat, b: nat, c: nat, x: nat, k: int)
    requires IsCommutativeRing(R) && HalfTurn(R, z, N) && a + b == c + 2 * x + 2 * N * k
    ensures R.mul(Pow(R, z, a), Pow(R, z, b)) == R.mul(Pow(R, z, c), Pow(R, R.mul(z, z), x))
  {
    calc {
      R.mul(Pow(R, z, a), Pow(R, z, b));
    == { PowSum(R, z, a, b, a + b); }
      Pow(R, z, a + b);
    == { PowCongruent(R, z, N, c + 2 * x, a + b, k); }
      Pow(R, z, c + 2 * x);
    == { PowSum(R, z, c, 2 * x, c + 2 * x); }
      R.mul(Pow(R, z, c), Pow(R, z, 2 * x));
    == { PowSum(R, z, x, x, 2 * x); PowMulBase(R, z, z, x); }
      R.mul(Pow(R, z, c), Pow(R, R.mul(z, z), x));
    }
  }

  // ---- the transform of a tone ----

  /** One at index `s`, zero elsewhere. */
  function Delta<T>(R: Ring<T>, n: nat, s: nat): (d: seq<T>)
    ensures |d| == n
  {
    seq(n, k => if k == s then R.one else R.zero)
  }

  lemma {:induction false} EvalZeros<T(!new)>(R: Ring<T>, x: seq<T>, z: T)
    requires IsCommutativeRing(R) && forall k | 0 <= k < |x| :: x[k] == R.zero
    ensures Eval(R, x, z) == R.zero
  {
    if x != [] {
      EvalZeros(R, x[1..], z);
      MulZero(R, z);
      AddZero(R, R.zero);
    }
  }

  lemma {:induction false} EvalDelta<T(!new)>(R: Ring<T>, n: nat, s: nat, z: T)
    requires IsCommutativeRing(R) && s < n
    ensures Eval(R, Delta(R, n, s), z) == Pow(R, z, s)
    decreases n
  {
    var d := Delta(R, n, s);
    if s == 0 {
      EvalZeros(R, d[1..], z);
      MulZero(R, z);
      AddZero(R, R.one);
    } else {
      assert d[1..] == Delta(R, n - 1, s - 1);
      EvalDelta(R, n - 1, s - 1, z);
      var p := Pow(R, z, s - 1);
      AddZero(R, R.mul(z, p));
      MulComm(R, z, p);
    }
  }

  lemma {:induction false} PowPow<T(!new)>(R: Ring<T>, w: T, a: nat, b: nat, c: nat)
    requires IsCommutativeRing(R) && c == a * b
    ensures Pow(R, Pow(R, w, a), b) == Pow(R, w, c)
    decreases b
  {
    if b > 0 {
      assert c - a == a * (b - 1);
      PowPow(R, w, a, b - 1, c - a);
      PowAdd(R, w, c - a, a);
    }
  }

  lemma TransformScaled<T(!new)>(R: Ring<T>, w: T, c: T, x: seq<T>)
    requires IsCommutativeRing(R)
    ensures Transform(R, w, ScaleSeq(R, c, x)) == ScaleSeq(R, c, Transform(R, w, x))
  {
    forall k | 0 <= k < |x|
      ensures Eval(R, ScaleSeq(R, c, x), Pow(R, w, k)) == R.mul(c, Eval(R, x, Pow(R, w, k)))
    {
      EvalScaleSeq(R, c, x, Pow(R, w, k));
    }
  }

  /** A tone at bin `s` is the transform, at the inverse root, of the unit impulse at `s`. */
  lemma ToneTransform<T(!new)>(R: Ring<T>, w: T, omega: T, m: nat, N: nat, s: nat, c: T, d: seq<T>)
    requires IsCommutativeRing(R) && N == Pow2(m) && RootPair(R, omega, w, m) && s < N && |d| == N
    requires forall n | 0 <= n < N :: d[n] == R.mul(c, Pow(R, Pow(R, omega, n), s))
    ensures Transform(R, w, d) == ScaleSeq(R, c, ScaleSeq(R, Times(R, N, R.one), Delta(R, N, s)))
  {
    var delta := Delta(R, N, s);
    forall n | 0 <= n < N
      ensures d[n] == R.mul(c, Eval(R, delta, Pow(R, omega, n)))
    {
      EvalDelta(R, N, s, Pow(R, omega, n));
    }
    assert d == ScaleSeq(R, c, Transform(R, omega, delta));
    TransformScaled(R, w, c, Transform(R, omega, delta));
    InverseTransform(R, omega, w, m, delta);
  }

  // ---- demodulation ----

  function Dechirped<T>(R: Ring<T>, r: seq<T>, ref: seq<T>): (d: seq<T>)
    requires |ref| <= |r|
    ensures |d| == |ref|
  {
    seq(|ref|, n requires 0 <= n < |ref| => R.mul(r[n], ref[n]))
  }

  /** The squared magnitude: zero exactly at zero. */
  ghost predicate IsNorm<T(!new)>(R: Ring<T>, norm: T -> real) {
    forall x :: norm(x) >= 0.0 && (norm(x) == 0.0 <==> x == R.zero)
  }

  function Norms<T>(norm: T -> real, bins: seq<T>): (ms: seq<real>)
    ensures |ms| == |bins|
  {
    seq(|bins|, k requires 0 <= k < |bins| => norm(bins[k]))
  }

  function Sum(ms: seq<real>): real {
    if ms == [] then 0.0 else Sum(ms[..|ms| - 1]) + ms[|ms| - 1]
  }

  /** The first of the largest entries. */
  predicate FirstPeak(ms: seq<real>, best: nat) {
    && best < |ms|
    && (forall k | 0 <= k < |ms| :: ms[k] <= ms[best])
    && (forall k | 0 <= k < best :: ms[k] < ms[best])
  }

  lemma PeakSoFar(ms: seq<real>, k: nat, best: nat, bm: real)
    requires k < |ms| && ms[k] >= 0.0
    requires if k == 0 then best == 0 && bm == -1.0 else FirstPeak(ms[..k], best) && bm == ms[best]
    ensures FirstPeak(ms[..k + 1], if ms[k] > bm then k else best)
    ensures Sum(ms[..k + 1]) == Sum(ms[..k]) + ms[k]
  {
    assert ms[..k + 1][..k] == ms[..k];
  }

  /** The search for the peak bin and the peak-to-average ratio. */
  method FindPeak<T(!new)>(R: Ring<T>, norm: T -> real, d: seq<T>) returns (best: nat, q: real)
    requires IsNorm(R, norm) && d != []
    ensures var ms := Norms(norm, d);
            FirstPeak(ms, best) && q == if Sum(ms) > 0.0 then ms[best] / (Sum(ms) / |d| as real) else 0.0
  {
    ghost var ms := Norms(norm, d);
    best := 0;
    var bm, sum := -1.0, 0.0;
    for k := 0 to |d|
      invariant sum == Sum(ms[..k])
      invariant if k == 0 then best == 0 && bm == -1.0 else FirstPeak(ms[..k], best) && bm == ms[best]
    {
      PeakSoFar(ms, k, best, bm);
      var m := norm(d[k]);
      sum := sum + m;
      if m > bm {
        bm, best := m, k;
      }
    }
    assert ms[..|d|] == ms;
    q := if sum > 0.0 then bm / (sum / |d| as real) else 0.0;
  }

  method DemodSymbol<T(!new)>(R: Ring<T>, root: bool -> nat -> T, ninv: T, norm: T -> real,
                              r: seq<T>, SF: nat, ref: seq<T>) returns (best: nat, q: real)
    requires IsCommutativeRing(R) && IsNorm(R, norm)
    requires |ref| == Pow2(SF) <= |r| && Fft.Roots(R, root(false), SF)
    ensures var ms := Norms(norm, Transform(R, root(false)(|ref|), Dechirped(R, r, ref)));
            FirstPeak(ms, best) && q == if Sum(ms) > 0.0 then ms[best] / (Sum(ms) / |ref| as real) else 0.0
  {
    var d := new T[|ref|](n requires 0 <= n < |ref| && |ref| <= |r| => R.mul(r[n], ref[n]));
    assert d[..] == Dechirped(R, r, ref);
    Fft.Run(R, root, ninv, d, false, SF);
    best, q := FindPeak(R, norm, d[..]);
  }

  // ---- every symbol is recovered ----

  /** One sample of a dechirped symbol received with gain `g`. */
  lemma DechirpedSample<T(!new)>(R: Ring<T>, zeta: T, N: nat, s: nat, g: T, n: nat, x: nat,
                                 sample: T, ref: T, c: T, omega: T)
    requires IsCommutativeRing(R) && HalfTurn(R, zeta, N) && s < N && n < N && x == n * s && omega == R.mul(zeta, zeta)
    requires sample == R.mul(g, Symbol(BaseChirp(R, zeta, N, false), s)[n])
    requires ref == BaseChirp(R, zeta, N, true)[n] && c == BaseChirp(R, zeta, N, false)[s]
    ensures R.mul(sample, ref) == R.mul(R.mul(g, c), Pow(R, Pow(R, omega, n), s))
  {
    var chip, tone := Symbol(BaseChirp(R, zeta, N, false), s)[n], Pow(R, omega, x);
    DechirpIsTone(R, zeta, N, s, n, x);
    PowPow(R, omega, n, s, x);
    MulAssoc(R, g, chip, ref);
    MulAssoc(R, g, c, tone);
  }

  lemma UnitFactor<T(!new)>(R: Ring<T>, g: T, c: T, ci: T, n: T)
    requires IsCommutativeRing(R) && R.mul(c, ci) == R.one && R.mul(R.mul(g, c), n) == R.zero
    ensures R.mul(g, n) == R.zero
  {
    MulAssoc(R, R.mul(g, c), n, ci);
    MulZero(R, ci);
    MulSwap(R, g, c, n, ci);
    MulOne(R, R.mul(g, n));
  }

  /** No chirp sample is a zero divisor. */
  lemma ChirpIsUnit<T(!new)>(R: Ring<T>, zeta: T, N: nat, s: nat, g: T, n: T)
    requires IsCommutativeRing(R) && HalfTurn(R, zeta, N) && s < N && R.mul(g, n) != R.zero
    ensures R.mul(R.mul(g, BaseChirp(R, zeta, N, false)[s]), n) != R.zero
  {
    var e := Phase(s, N, false);
    var c, ci := Pow(R, zeta, e), Pow(R, zeta, 2 * N - e);
    PowSum(R, zeta, e, 2 * N - e, 2 * N);
    FullTurn(R, zeta, N);
    if R.mul(R.mul(g, c), n) == R.zero {
      UnitFactor(R, g, c, ci, n);
    }
  }

  lemma {:induction false} SumOfOne(ms: seq<real>, s: nat)
    requires s < |ms| && forall k | 0 <= k < |ms| && k != s :: ms[k] == 0.0
    ensures Sum(ms) == ms[s]
  {
    var n := |ms| - 1;
    if s < n {
      SumOfOne(ms[..n], s);
    } else {
      SumOfZeros(ms[..n]);
    }
  }

  lemma {:induction false} SumOfZeros(ms: seq<real>)
    requires forall k | 0 <= k < |ms| :: ms[k] == 0.0
    ensures Sum(ms) == 0.0
  {
    if ms != [] {
      SumOfZeros(ms[..|ms| - 1]);
    }
  }

  /** The bins of a clean symbol: all zero except bin `s`. */
  lemma SymbolBins<T(!new)>(R: Ring<T>, zeta: T, w: T, m: nat, N: nat, s: nat, g: T, r: seq<T>, bins: seq<T>)
    requires IsCommutativeRing(R) && N == Pow2(m) && s < N && HalfTurn(R, zeta, N)
    requires R.mul(R.mul(zeta, zeta), w) == R.one && (m > 0 ==> HalfTurn(R, w, Pow2(m - 1)))
    requires r == ScaleSeq(R, g, Symbol(BaseChirp(R, zeta, N, false), s))
    requires bins == Transform(R, w, Dechirped(R, r, BaseChirp(R, zeta, N, true)))
    ensures forall k | 0 <= k < N && k != s :: bins[k] == R.zero
    ensures bins[s] == R.mul(R.mul(g, BaseChirp(R, zeta, N, false)[s]), Times(R, N, R.one))
  {
    var omega, c, ref := R.mul(zeta, zeta), BaseChirp(R, zeta, N, false)[s], BaseChirp(R, zeta, N, true);
    var d, gc, nn := Dechirped(R, r, ref), R.mul(g, c), Times(R, N, R.one);
    forall n | 0 <= n < N
      ensures d[n] == R.mul(gc, Pow(R, Pow(R, omega, n), s))
    {
      DechirpedSample(R, zeta, N, s, g, n, n * s, r[n], ref[n], c, omega);
    }
    if m > 0 {
      HalfTurnSquare(R, zeta, Pow2(m - 1));
    }
    ToneTransform(R, w, omega, m, N, s, gc, d);
    MulZero(R, nn);
    MulZero(R, gc);
    MulOne(R, nn);
  }

  /**
   * A symbol received with any gain that does not vanish over N samples: its own bin is the only peak, and the
   * peak-to-average ratio is N.
   */
  lemma EverySymbolIsRecovered<T(!new)>(R: Ring<T>, zeta: T, root: nat -> T, norm: T -> real, m: nat, N: nat, s: nat,
                                        g: T, r: seq<T>, best: nat)
    requires IsCommutativeRing(R) && IsNorm(R, norm) && N == Pow2(m) && s < N
    requires HalfTurn(R, zeta, N) && Fft.Roots(R, root, m) && R.mul(R.mul(zeta, zeta), root(N)) == R.one
    requires R.mul(g, Times(R, N, R.one)) != R.zero
    requires r == ScaleSeq(R, g, Symbol(BaseChirp(R, zeta, N, false), s))
    ensures var ms := Norms(norm, Transform(R, root(N), Dechirped(R, r, BaseChirp(R, zeta, N, true))));
            && (FirstPeak(ms, best) <==> best == s)
            && Sum(ms) > 0.0 && ms[s] / (Sum(ms) / N as real) == N as real
  {
    if m > 0 {
      Fft.RootHalfTurn(R, root, m, m);
    }
    var bins := Transform(R, root(N), Dechirped(R, r, BaseChirp(R, zeta, N, true)));
    SymbolBins(R, zeta, root(N), m, N, s, g, r, bins);
    ChirpIsUnit(R, zeta, N, s, g, Times(R, N, R.one));
    var ms := Norms(norm, bins);
    assert ms[s] > 0.0 && forall k | 0 <= k < N && k != s :: ms[k] == 0.0;
    SumOfOne(ms, s);
    PeakToAverage(ms[s], N as real);
  }

  lemma PeakToAverage(x: real, n: real)
    requires x > 0.0 && n > 0.0
    ensures x / (x / n) == n
  {
  }
}
