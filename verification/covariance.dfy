/**
 The benchmark's factor-model covariance, `B B' + D`: three factors' loadings and a
 positive diagonal, over exact reals.
 */
module FactorCovariance {

  const SCALE: real := 0.0001
  const FACTORS: nat := 3

  /** The loading of asset `i` on factor `f`. */
  function Loading(i: nat, f: nat): real {
    ((((i + 1) * (f + 3) * 37) % 100) as real) / 100.0 - 0.3
  }

  /** Asset `i`'s own variance. */
  function Specific(i: nat): real { SCALE * (1.0 + ((i % 7) as real) / 7.0) }

  /** A factor model: loadings `[asset][factor]`, and each asset's own variance. */
  datatype Model = Model(loading: (nat, nat) -> real, specific: nat -> real)

  const BENCHMARK: Model := Model(Loading, Specific)

  /** `sum(loadings[i][f] * loadings[j][f] for f in range(n))`. */
  function Shared(m: Model, i: nat, j: nat, n: nat): real {
    if n == 0 then 0.0 else Shared(m, i, j, n - 1) + m.loading(i, n - 1) * m.loading(j, n - 1)
  }

  function Entry(m: Model, i: nat, j: nat): real {
    SCALE * Shared(m, i, j, FACTORS) + if i == j then m.specific(i) else 0.0
  }

  /** The rows `B B' + D` come to. */
  function Rows(m: Model, size: nat): (rows: seq<seq<real>>)
    ensures |rows| == size && forall i | 0 <= i < size :: |rows[i]| == size
  {
    seq(size, i requires 0 <= i < size => seq(size, j requires 0 <= j < size => Entry(m, i, j)))
  }

  function Covariance(size: nat): (rows: seq<seq<real>>)
    ensures |rows| == size && forall i | 0 <= i < size :: |rows[i]| == size
  {
    Rows(BENCHMARK, size)
  }

  /** `sum(a[k] * b[k] for k in range(n))`. */
  function Dot(a: seq<real>, b: seq<real>, n: nat): real
    requires n <= |a| && n <= |b|
  {
    if n == 0 then 0.0 else Dot(a, b, n - 1) + a[n - 1] * b[n - 1]
  }

  /** `A x`. */
  function Products(rows: seq<seq<real>>, x: seq<real>): (y: seq<real>)
    requires |rows| == |x| && forall i | 0 <= i < |rows| :: |rows[i]| == |x|
    ensures |y| == |x|
  {
    seq(|x|, i requires 0 <= i < |x| => Dot(rows[i], x, |x|))
  }

  /** `x' A x`. */
  function Quadratic(rows: seq<seq<real>>, x: seq<real>): real
    requires |rows| == |x| && forall i | 0 <= i < |rows| :: |rows[i]| == |x|
  {
    Dot(Products(rows, x), x, |x|)
  }

  /** One figure per factor. */
  datatype Factors = Factors(first: real, second: real, third: real)

  function Loadings(m: Model, i: nat): Factors { Factors(m.loading(i, 0), m.loading(i, 1), m.loading(i, 2)) }

  function Across(a: Factors, b: Factors): real { a.first * b.first + a.second * b.second + a.third * b.third }

  /** `a`, moved `w` times along `b`. */
  function Moved(a: Factors, b: Factors, w: real): Factors {
    Factors(a.first + b.first * w, a.second + b.second * w, a.third + b.third * w)
  }

  /** What `x` puts on each factor, through the first `n` assets. */
  function Exposures(m: Model, x: seq<real>, n: nat): Factors
    requires n <= |x|
  {
    if n == 0 then Factors(0.0, 0.0, 0.0) else Moved(Exposures(m, x, n - 1), Loadings(m, n - 1), x[n - 1])
  }

  /** `D x`. */
  function OwnProducts(m: Model, x: seq<real>): (y: seq<real>)
    ensures |y| == |x|
  {
    seq(|x|, i requires 0 <= i < |x| => m.specific(i) * x[i])
  }

  // ---------------------------------------------------------------- the entries

  /** A loading is a number of hundredths above -0.3: the remainder of `37 (i + 1) (f + 3)` by a hundred. */
  lemma LoadingExactly(i: nat, f: nat) returns (q: nat, r: nat)
    ensures (i + 1) * (f + 3) * 37 == 100 * q + r && r < 100
    ensures Loading(i, f) == r as real / 100.0 - 0.3
  {
    var n := (i + 1) * (f + 3) * 37;
    q, r := n / 100, n % 100;
  }

  /** A variance is 1e-4 and as many sevenths of it as `i` leaves by seven. */
  lemma SpecificExactly(i: nat) returns (q: nat, r: nat)
    ensures i == 7 * q + r && r < 7
    ensures Specific(i) == 0.0001 * (1.0 + r as real / 7.0)
  {
    q, r := i / 7, i % 7;
  }

  /** What the matrix holds: three products of loadings, scaled, and the asset's own variance on the diagonal. */
  lemma EntriesExactly(m: Model, size: nat, i: nat, j: nat, x: real, y: real, z: real)
    requires i < size && j < size
    requires x == m.loading(i, 0) * m.loading(j, 0) && y == m.loading(i, 1) * m.loading(j, 1)
    requires z == m.loading(i, 2) * m.loading(j, 2)
    ensures Rows(m, size)[i][j] == 0.0001 * (x + y + z) + if i == j then m.specific(i) else 0.0
  {
    assert Shared(m, i, j, 1) == x;
    assert Shared(m, i, j, 2) == x + y;
    assert Shared(m, i, j, FACTORS) == x + y + z;
  }

  lemma BenchmarkIs(size: nat, i: nat, f: nat)
    ensures BENCHMARK.loading(i, f) == Loading(i, f) && BENCHMARK.specific(i) == Specific(i)
    ensures Covariance(size) == Rows(BENCHMARK, size)
  {
  }

  lemma LoadingRepeats(i: nat)
    ensures Loading(i + 100, 0) == Loading(i, 0)
    ensures Loading(i + 100, 1) == Loading(i, 1)
    ensures Loading(i + 100, 2) == Loading(i, 2)
  {
    SameRemainder((i + 1) * 111, 111);
    SameRemainder((i + 1) * 148, 148);
    SameRemainder((i + 1) * 185, 185);
  }

  lemma SameRemainder(n: nat, m: nat)
    ensures (n + 100 * m) % 100 == n % 100
  {
    var q := n / 100;
    assert n + 100 * m == 100 * (q + m) + n % 100;
  }

  lemma SameRow(m: Model, size: nat, i: nat, i': nat, j: nat)
    requires i < size && i' < size && j < size && i != j && i' != j
    requires m.loading(i, 0) == m.loading(i', 0) && m.loading(i, 1) == m.loading(i', 1)
    requires m.loading(i, 2) == m.loading(i', 2)
    ensures Rows(m, size)[i][j] == Rows(m, size)[i'][j]
  {
    var x, y := m.loading(i, 0) * m.loading(j, 0), m.loading(i, 1) * m.loading(j, 1);
    var z := m.loading(i, 2) * m.loading(j, 2);
    EntriesExactly(m, size, i, j, x, y, z);
    EntriesExactly(m, size, i', j, x, y, z);
  }

  /** The loadings come round every hundred assets: off the diagonal, a row is the one a hundred before it. */
  lemma RowsRepeat(size: nat, i: nat, j: nat, i': nat)
    requires i' == i + 100 && i' < size && j < size && i != j && i' != j
    ensures Covariance(size)[i'][j] == Covariance(size)[i][j]
  {
    LoadingRepeats(i);
    BenchmarkIs(size, i, 0);
    SameRow(BENCHMARK, size, i, i', j);
  }

  // ------------------------------------------------------------------ symmetry

  lemma {:induction false} SharedSymmetric(m: Model, i: nat, j: nat, n: nat)
    ensures Shared(m, i, j, n) == Shared(m, j, i, n)
  {
    if n > 0 {
      SharedSymmetric(m, i, j, n - 1);
    }
  }

  lemma CovarianceIsSymmetric(size: nat, i: nat, j: nat)
    requires i < size && j < size
    ensures Covariance(size)[i][j] == Covariance(size)[j][i]
  {
    SharedSymmetric(BENCHMARK, i, j, FACTORS);
  }

  // ------------------------------------------------------------- sum exchange

  lemma AcrossMoved(a: Factors, p: Factors, b: Factors, w: real)
    ensures Across(a, Moved(p, b, w)) == Across(a, p) + Across(a, b) * w
  {
    assert a.first * (p.first + b.first * w) == a.first * p.first + a.first * b.first * w;
    assert a.second * (p.second + b.second * w) == a.second * p.second + a.second * b.second * w;
    assert a.third * (p.third + b.third * w) == a.third * p.third + a.third * b.third * w;
  }

  /** A weighted sum against `t` of every asset's loadings is `t` against the exposures. */
  lemma {:induction false} Exchange(m: Model, x: seq<real>, v: seq<real>, t: Factors, n: nat)
    requires |v| == |x| && n <= |x| && forall i | 0 <= i < n :: v[i] == Across(t, Loadings(m, i))
    ensures Dot(v, x, n) == Across(t, Exposures(m, x, n))
  {
    if n > 0 {
      Exchange(m, x, v, t, n - 1);
      AcrossMoved(t, Exposures(m, x, n - 1), Loadings(m, n - 1), x[n - 1]);
    }
  }

  /** A product splits where its rows do. */
  lemma {:induction false} DotSplits(r: seq<real>, s: seq<real>, o: seq<real>, x: seq<real>, n: nat)
    requires |r| == |s| == |o| == |x| && n <= |x| && forall k | 0 <= k < n :: r[k] == SCALE * s[k] + o[k]
    ensures Dot(r, x, n) == SCALE * Dot(s, x, n) + Dot(o, x, n)
  {
    if n > 0 {
      DotSplits(r, s, o, x, n - 1);
      assert r[n - 1] * x[n - 1] == SCALE * (s[n - 1] * x[n - 1]) + o[n - 1] * x[n - 1];
    }
  }

  lemma {:induction false} DotOfOne(o: seq<real>, x: seq<real>, i: nat, n: nat)
    requires |o| == |x| && n <= |x| && i < |x| && forall k | 0 <= k < n && k != i :: o[k] == 0.0
    ensures Dot(o, x, n) == if i < n then o[i] * x[i] else 0.0
  {
    if n > 0 {
      DotOfOne(o, x, i, n - 1);
    }
  }

  lemma SharedIsAcross(m: Model, i: nat, j: nat)
    ensures Shared(m, i, j, FACTORS) == Across(Loadings(m, i), Loadings(m, j))
  {
    assert Shared(m, i, j, 1) == m.loading(i, 0) * m.loading(j, 0);
  }

  /** What the factors alone put in a row. */
  function SharedRow(m: Model, i: nat, size: nat): (row: seq<real>)
    ensures |row| == size
  {
    seq(size, j requires 0 <= j < size => Shared(m, i, j, FACTORS))
  }

  /** What the diagonal puts in a row. */
  function OwnRow(m: Model, i: nat, size: nat): (row: seq<real>)
    ensures |row| == size
  {
    seq(size, j requires 0 <= j < size => if i == j then m.specific(i) else 0.0)
  }

  /** A row's product with `x`: the factors' part of it, and its own variance. */
  lemma {:induction false} RowSplits(m: Model, x: seq<real>, i: nat)
    requires i < |x|
    ensures Products(Rows(m, |x|), x)[i] == SCALE * Dot(SharedRow(m, i, |x|), x, |x|) + OwnProducts(m, x)[i]
  {
    DotSplits(Rows(m, |x|)[i], SharedRow(m, i, |x|), OwnRow(m, i, |x|), x, |x|);
    OwnRowProduct(m, x, i);
  }

  lemma OwnRowProduct(m: Model, x: seq<real>, i: nat)
    requires i < |x|
    ensures Dot(OwnRow(m, i, |x|), x, |x|) == OwnProducts(m, x)[i]
  {
    DotOfOne(OwnRow(m, i, |x|), x, i, |x|);
  }

  lemma RowExchange(m: Model, x: seq<real>, i: nat)
    requires i < |x|
    ensures Dot(SharedRow(m, i, |x|), x, |x|) == Across(Loadings(m, i), Exposures(m, x, |x|))
  {
    forall j | 0 <= j < |x| ensures SharedRow(m, i, |x|)[j] == Across(Loadings(m, i), Loadings(m, j)) {
      SharedIsAcross(m, i, j);
    }
    Exchange(m, x, SharedRow(m, i, |x|), Loadings(m, i), |x|);
  }

  /** The quadratic form: the exposures against themselves, and the specific variance. */
  lemma {:induction false} QuadraticExchange(m: Model, x: seq<real>)
    ensures var t := Exposures(m, x, |x|);
            Quadratic(Rows(m, |x|), x) == SCALE * Across(t, t) + Dot(OwnProducts(m, x), x, |x|)
  {
    var t := Exposures(m, x, |x|);
    var shared := seq(|x|, i requires 0 <= i < |x| => Across(t, Loadings(m, i)));
    Exchange(m, x, shared, t, |x|);
    forall i | 0 <= i < |x| ensures Products(Rows(m, |x|), x)[i] == SCALE * shared[i] + OwnProducts(m, x)[i] {
      RowSplits(m, x, i);
      RowExchange(m, x, i);
      AcrossSymmetric(Loadings(m, i), t);
    }
    DotSplits(Products(Rows(m, |x|), x), shared, OwnProducts(m, x), x, |x|);
  }

  lemma AcrossSymmetric(a: Factors, b: Factors)
    ensures Across(a, b) == Across(b, a)
  {
  }

  // ---------------------------------------------------------- positive definite

  lemma SquareNonNegative(a: real)
    ensures a * a >= 0.0
    ensures a != 0.0 ==> a * a > 0.0
  {
  }

  /** No asset's own variance is below the scale, 1e-4. */
  ghost predicate Floored(m: Model) {
    forall i: nat :: m.specific(i) >= SCALE
  }

  lemma {:induction false} SpecificVarianceAtLeast(m: Model, x: seq<real>, n: nat)
    requires n <= |x| && Floored(m)
    ensures Dot(OwnProducts(m, x), x, n) >= SCALE * Dot(x, x, n)
  {
    if n > 0 {
      SpecificVarianceAtLeast(m, x, n - 1);
      FloorTerm(m.specific(n - 1), x[n - 1], Dot(OwnProducts(m, x), x, n - 1), Dot(OwnProducts(m, x), x, n),
                Dot(x, x, n - 1), Dot(x, x, n));
    }
  }

  lemma FloorTerm(d: real, w: real, own: real, own': real, length: real, length': real)
    requires d >= SCALE && own >= SCALE * length
    requires own' == own + d * w * w && length' == length + w * w
    ensures own' >= SCALE * length'
  {
    SquareNonNegative(w);
    assert (d - SCALE) * (w * w) >= 0.0;
  }

  lemma {:induction false} LengthPositive(x: seq<real>, n: nat)
    requires n <= |x|
    ensures Dot(x, x, n) >= 0.0
    ensures Dot(x, x, n) > 0.0 <==> exists i :: 0 <= i < n && x[i] != 0.0
  {
    if n > 0 {
      LengthPositive(x, n - 1);
      LongerPositive(Dot(x, x, n - 1), Dot(x, x, n), x[n - 1], x[n - 1] * x[n - 1]);
      assert (exists i :: 0 <= i < n && x[i] != 0.0) <==>
        x[n - 1] != 0.0 || exists i :: 0 <= i < n - 1 && x[i] != 0.0;
    }
  }

  lemma LongerPositive(length: real, longer: real, w: real, square: real)
    requires length >= 0.0 && square == w * w && longer == length + square
    ensures longer >= 0.0
    ensures longer > 0.0 <==> length > 0.0 || w != 0.0
  {
    SquareSign(w, square);
  }

  lemma SquareSign(w: real, square: real)
    requires square == w * w
    ensures square >= 0.0 && (square > 0.0 <==> w != 0.0)
  {
    if w > 0.0 {
      ProductPositive(w, w, square);
    } else if w < 0.0 {
      ProductPositive(-w, -w, square);
    }
  }

  lemma ProductPositive(a: real, b: real, product: real)
    requires a > 0.0 && b > 0.0 && product == a * b
    ensures product > 0.0
  {
  }

  /**
   Any three-factor model whose specific variances are so bounded: its quadratic form is its
   exposures against themselves plus the specific variance, so never below 1e-4 times the
   squared length.
   */
  lemma QuadraticAtLeast(m: Model, x: seq<real>)
    requires Floored(m)
    ensures Quadratic(Rows(m, |x|), x) >= SCALE * Dot(x, x, |x|)
  {
    QuadraticExchange(m, x);
    SpecificVarianceAtLeast(m, x, |x|);
    var t := Exposures(m, x, |x|);
    AcrossItself(t);
    AtLeastTheRest(Quadratic(Rows(m, |x|), x), Across(t, t), Dot(OwnProducts(m, x), x, |x|));
  }

  lemma AtLeastTheRest(form: real, across: real, rest: real)
    requires form == SCALE * across + rest && across >= 0.0
    ensures form >= rest
  {
  }

  lemma AcrossItself(a: Factors)
    ensures Across(a, a) >= 0.0
  {
    SquareNonNegative(a.first);
    SquareNonNegative(a.second);
    SquareNonNegative(a.third);
  }

  lemma BenchmarkFloored()
    ensures Floored(BENCHMARK)
  {
    forall i: nat ensures BENCHMARK.specific(i) >= SCALE {
      assert BENCHMARK.specific(i) == Specific(i);
    }
  }

  /** For every size and vector, `x' A x` is at least 1e-4 times the squared length, and positive unless `x` is zero. */
  lemma {:induction false} CovarianceIsPositiveDefinite(x: seq<real>)
    ensures Quadratic(Covariance(|x|), x) >= SCALE * Dot(x, x, |x|)
    ensures Quadratic(Covariance(|x|), x) > 0.0 <==> exists i :: 0 <= i < |x| && x[i] != 0.0
  {
    BenchmarkFloored();
    QuadraticAtLeast(BENCHMARK, x);
    LengthPositive(x, |x|);
    if forall i | 0 <= i < |x| :: x[i] == 0.0 {
      DotZero(Products(Covariance(|x|), x), x, |x|);
    }
  }

  lemma {:induction false} DotZero(a: seq<real>, x: seq<real>, n: nat)
    requires n <= |a| == |x| && forall i | 0 <= i < |x| :: x[i] == 0.0
    ensures Dot(a, x, n) == 0.0
  {
    if n > 0 {
      DotZero(a, x, n - 1);
    }
  }
}
