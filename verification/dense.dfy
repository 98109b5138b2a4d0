/** The dense field containers of the fluid grid: a 3-D block of values stored
    in one flat sequence with the x index varying fastest, and a variant that
    stores four coefficients per cell. Values are `real`; the single/double
    precision split of `Array3f` and `Array3d` becomes one exact number type. */
module Dense {

  /** A dense nx-by-ny-by-nz block; element (i, j, k) lives at `Index`. */
  datatype Array3<T> = Array3(nx: nat, ny: nat, nz: nat, data: seq<T>)

  /** Four coefficients per cell, stored cell-major: cell c, slot l lives at 4*c + l. */
  datatype Array3x4 = Array3x4(nx: nat, ny: nat, nz: nat, data: seq<real>)

  /** Linear address of cell (i, j, k) in an nx-by-ny block. */
  function Index(nx: int, ny: int, i: int, j: int, k: int): int
  {
    i + nx * (j + ny * k)
  }

  predicate InBounds(nx: int, ny: int, nz: int, i: int, j: int, k: int)
  {
    0 <= i < nx && 0 <= j < ny && 0 <= k < nz
  }

  /** The buffer holds exactly one element per cell. */
  predicate Valid<T>(a: Array3<T>)
  {
    |a.data| == a.nx * a.ny * a.nz
  }

  predicate HasShape<T>(a: Array3<T>, nx: int, ny: int, nz: int)
  {
    Valid(a) && a.nx == nx && a.ny == ny && a.nz == nz
  }

  predicate SameShape<T, U>(a: Array3<T>, b: Array3<U>)
  {
    a.nx == b.nx && a.ny == b.ny && a.nz == b.nz && |a.data| == |b.data|
  }

  // Coordinates of a linear address (the inverse of Index).
  function CoordI(nx: int, t: int): int
  {
    if nx <= 0 then 0 else t % nx
  }

  function CoordJ(nx: int, ny: int, t: int): int
  {
    if nx <= 0 || ny <= 0 then 0 else (t / nx) % ny
  }

  function CoordK(nx: int, ny: int, t: int): int
  {
    if nx <= 0 || ny <= 0 then 0 else (t / nx) / ny
  }

  // ---------------------------------------------------------------- arithmetic

  lemma MulAtLeastOne(a: int, n: int)
    requires a >= 1 && n >= 0
    ensures a * n >= n
  {
    assert a * n == (a - 1) * n + n;
    assert (a - 1) * n >= 0;
  }

  lemma MulMonotone(a: int, b: int, n: int)
    requires a <= b && n >= 0
    ensures a * n <= b * n
  {
    assert b * n - a * n == (b - a) * n;
  }

  lemma ProductPositive(nx: int, ny: int, nz: int)
    requires 0 <= nx && 0 <= ny && 0 <= nz && nx * ny * nz > 0
    ensures nx > 0 && ny > 0 && nz > 0
  {
  }

  /** Quotient and remainder are unique. */
  lemma DivModUnique(t: int, n: int, q: int, r: int)
    requires n > 0 && 0 <= r < n && t == q * n + r
    ensures t / n == q && t % n == r
  {
    var q', r' := t / n, t % n;
    assert t == q' * n + r';
    assert (q - q') * n == r' - r;
    if q > q' {
      MulAtLeastOne(q - q', n);
    } else if q < q' {
      MulAtLeastOne(q' - q, n);
    }
  }

  lemma MulStrictBound(a: int, b: int, n: int)
    requires 0 <= a < b && n > 0
    ensures 0 <= n * a && n * a + n <= n * b
  {
    assert n * b - n * a == n * (b - a);
    MulAtLeastOne(b - a, n);
    assert (b - a) * n == n * (b - a);
  }

  // ------------------------------------------------------------ addressing

  /** Every in-bounds cell has an address inside the buffer. */
  lemma IndexInRange(nx: int, ny: int, nz: int, i: int, j: int, k: int)
    requires InBounds(nx, ny, nz, i, j, k)
    ensures 0 <= Index(nx, ny, i, j, k) < nx * ny * nz
  {
    MulStrictBound(k, nz, ny);
    var m := j + ny * k;
    assert 0 <= m < ny * nz;
    MulStrictBound(m, ny * nz, nx);
    MulAssociates(nx, ny, nz);
  }

  lemma MulAssociates(a: int, b: int, c: int)
    ensures a * (b * c) == a * b * c
  {
  }

  /** Decoding the address of an in-bounds cell gives the cell back. */
  lemma CoordsOfIndex(nx: int, ny: int, nz: int, i: int, j: int, k: int)
    requires InBounds(nx, ny, nz, i, j, k)
    ensures CoordI(nx, Index(nx, ny, i, j, k)) == i
    ensures CoordJ(nx, ny, Index(nx, ny, i, j, k)) == j
    ensures CoordK(nx, ny, Index(nx, ny, i, j, k)) == k
  {
    var m := j + ny * k;
    DivModUnique(Index(nx, ny, i, j, k), nx, m, i);
    DivModUnique(m, ny, k, j);
  }

  /** The quotient of an address inside n * b blocks of n names one of the b blocks. */
  lemma DivBelow(t: int, n: int, b: int)
    requires n > 0 && 0 <= t < n * b
    ensures 0 <= t / n < b
  {
    var q := t / n;
    assert t == n * q + t % n;
    if q >= b {
      MulMonotone(b, q, n);
    }
  }

  /** Every address inside the buffer is the address of an in-bounds cell. */
  lemma IndexOfCoords(nx: int, ny: int, nz: int, t: int)
    requires 0 <= nx && 0 <= ny && 0 <= nz
    requires 0 <= t < nx * ny * nz
    ensures InBounds(nx, ny, nz, CoordI(nx, t), CoordJ(nx, ny, t), CoordK(nx, ny, t))
    ensures Index(nx, ny, CoordI(nx, t), CoordJ(nx, ny, t), CoordK(nx, ny, t)) == t
  {
    ProductPositive(nx, ny, nz);
    MulAssociates(nx, ny, nz);
    DivBelow(t, nx, ny * nz);
    var q := t / nx;
    DivBelow(q, ny, nz);
    assert q == ny * (q / ny) + q % ny;
    assert t == nx * q + t % nx;
  }

  /** Distinct in-bounds cells have distinct addresses. */
  lemma IndexInjective(nx: int, ny: int, nz: int, i: int, j: int, k: int, i': int, j': int, k': int)
    requires InBounds(nx, ny, nz, i, j, k) && InBounds(nx, ny, nz, i', j', k')
    requires (i, j, k) != (i', j', k')
    ensures Index(nx, ny, i, j, k) != Index(nx, ny, i', j', k')
  {
    CoordsOfIndex(nx, ny, nz, i, j, k);
    CoordsOfIndex(nx, ny, nz, i', j', k');
  }

  lemma CoordsOfIndexAll(nx: int, ny: int, nz: int)
    ensures forall i, j, k | InBounds(nx, ny, nz, i, j, k) ::
      && 0 <= Index(nx, ny, i, j, k) < nx * ny * nz
      && CoordI(nx, Index(nx, ny, i, j, k)) == i
      && CoordJ(nx, ny, Index(nx, ny, i, j, k)) == j
      && CoordK(nx, ny, Index(nx, ny, i, j, k)) == k
  {
    forall i, j, k | InBounds(nx, ny, nz, i, j, k)
      ensures 0 <= Index(nx, ny, i, j, k) < nx * ny * nz
      ensures CoordI(nx, Index(nx, ny, i, j, k)) == i
      ensures CoordJ(nx, ny, Index(nx, ny, i, j, k)) == j
      ensures CoordK(nx, ny, Index(nx, ny, i, j, k)) == k
    {
      IndexInRange(nx, ny, nz, i, j, k);
      CoordsOfIndex(nx, ny, nz, i, j, k);
    }
  }

  // ---------------------------------------------------------- element access

  /** `a(i, j, k)`: the caller guarantees the cell is inside the block. */
  function At<T>(a: Array3<T>, i: int, j: int, k: int): T
    requires Valid(a) && InBounds(a.nx, a.ny, a.nz, i, j, k)
  {
    IndexInRange(a.nx, a.ny, a.nz, i, j, k);
    a.data[Index(a.nx, a.ny, i, j, k)]
  }

  /** `a(i, j, k) = x`: only that cell changes. */
  function Set<T>(a: Array3<T>, i: int, j: int, k: int, x: T): (r: Array3<T>)
    requires Valid(a) && InBounds(a.nx, a.ny, a.nz, i, j, k)
    ensures Valid(r) && SameShape(r, a)
    ensures At(r, i, j, k) == x
    ensures forall i', j', k' | InBounds(a.nx, a.ny, a.nz, i', j', k') && (i', j', k') != (i, j, k) ::
      At(r, i', j', k') == At(a, i', j', k')
  {
    IndexInRange(a.nx, a.ny, a.nz, i, j, k);
    var n := Index(a.nx, a.ny, i, j, k);
    var r := a.(data := a.data[n := x]);
    assert forall i', j', k' | InBounds(a.nx, a.ny, a.nz, i', j', k') && (i', j', k') != (i, j, k) ::
      At(r, i', j', k') == At(a, i', j', k') by {
      forall i', j', k' | InBounds(a.nx, a.ny, a.nz, i', j', k') && (i', j', k') != (i, j, k)
        ensures At(r, i', j', k') == At(a, i', j', k')
      {
        IndexInjective(a.nx, a.ny, a.nz, i, j, k, i', j', k');
        IndexInRange(a.nx, a.ny, a.nz, i', j', k');
        assert r.data[Index(a.nx, a.ny, i', j', k')] == a.data[Index(a.nx, a.ny, i', j', k')];
      }
    }
    r
  }

  /** A block whose every cell holds `f` of its coordinates. */
  function Build<T>(nx: nat, ny: nat, nz: nat, f: (int, int, int) --> T): (a: Array3<T>)
    requires forall i, j, k | InBounds(nx, ny, nz, i, j, k) :: f.requires(i, j, k)
    ensures HasShape(a, nx, ny, nz)
    ensures forall i, j, k | InBounds(nx, ny, nz, i, j, k) :: At(a, i, j, k) == f(i, j, k)
  {
    CoordsOfIndexAll(nx, ny, nz);
    var a := Array3(nx, ny, nz, seq(nx * ny * nz, t requires 0 <= t < nx * ny * nz =>
      IndexOfCoords(nx, ny, nz, t);
      f(CoordI(nx, t), CoordJ(nx, ny, t), CoordK(nx, ny, t))));
    a
  }

  /** Two blocks of one shape that agree on every cell are equal. */
  lemma Extensional<T>(a: Array3<T>, b: Array3<T>)
    requires Valid(a) && Valid(b) && a.nx == b.nx && a.ny == b.ny && a.nz == b.nz
    requires forall i, j, k | InBounds(a.nx, a.ny, a.nz, i, j, k) :: At(a, i, j, k) == At(b, i, j, k)
    ensures a == b
  {
    forall t | 0 <= t < |a.data|
      ensures a.data[t] == b.data[t]
    {
      IndexOfCoords(a.nx, a.ny, a.nz, t);
      var i, j, k := CoordI(a.nx, t), CoordJ(a.nx, a.ny, t), CoordK(a.nx, a.ny, t);
      assert At(a, i, j, k) == At(b, i, j, k);
    }
  }

  // ------------------------------------------------------------ lifecycle

  /** A freshly allocated block in which every cell holds `x`. */
  function Filled<T>(nx: nat, ny: nat, nz: nat, x: T): (a: Array3<T>)
    ensures HasShape(a, nx, ny, nz)
    ensures forall t | 0 <= t < |a.data| :: a.data[t] == x
  {
    Array3(nx, ny, nz, seq(nx * ny * nz, _ => x))
  }

  /** `init(nx, ny, nz)`: reallocate with the given dimensions and zero-fill. */
  function Init(nx: nat, ny: nat, nz: nat): (a: Array3<real>)
    ensures HasShape(a, nx, ny, nz)
    ensures forall i, j, k | InBounds(nx, ny, nz, i, j, k) :: At(a, i, j, k) == 0.0
  {
    CoordsOfIndexAll(nx, ny, nz);
    Filled(nx, ny, nz, 0.0)
  }

  /** `zero()`: every element becomes 0; shape and size are kept. */
  function Zero(a: Array3<real>): (r: Array3<real>)
    ensures SameShape(r, a)
    ensures forall t | 0 <= t < |r.data| :: r.data[t] == 0.0
  {
    a.(data := seq(|a.data|, _ => 0.0))
  }

  /** `copy_to(b)`: the target takes the source's elements and keeps its own shape. */
  function CopyTo<T>(src: Array3<T>, dst: Array3<T>): (r: Array3<T>)
    requires |src.data| == |dst.data|
    ensures SameShape(r, dst)
    ensures forall t | 0 <= t < |r.data| :: r.data[t] == src.data[t]
  {
    dst.(data := src.data)
  }

  // ---------------------------------------------------------- norms, products

  function Abs(x: real): real
  {
    if x < 0.0 then -x else x
  }

  /** `n` is the largest magnitude in `s` (0 for an empty sequence). */
  predicate IsInfNorm(s: seq<real>, n: real)
  {
    && n >= 0.0
    && (forall t | 0 <= t < |s| :: Abs(s[t]) <= n)
    && (|s| == 0 ==> n == 0.0)
    && (|s| > 0 ==> exists t | 0 <= t < |s| :: n == Abs(s[t]))
  }

  /** A sequence has only one largest magnitude. */
  lemma InfNormUnique(s: seq<real>, n: real, m: real)
    requires IsInfNorm(s, n) && IsInfNorm(s, m)
    ensures n == m
  {
    if |s| > 0 {
      var t :| 0 <= t < |s| && n == Abs(s[t]);
      var u :| 0 <= u < |s| && m == Abs(s[u]);
      assert n <= m && m <= n;
    }
  }

  /** `infnorm()`: the largest magnitude, seeded at 0 and raised whenever an element
      is not bounded by the running maximum. */
  method InfNorm(s: seq<real>) returns (r: real)
    ensures r >= 0.0
    ensures forall t | 0 <= t < |s| :: Abs(s[t]) <= r
    ensures |s| > 0 ==> exists t | 0 <= t < |s| :: r == Abs(s[t])
    ensures r == 0.0 <==> forall t | 0 <= t < |s| :: s[t] == 0.0
    ensures IsInfNorm(s, r)
  {
    r := 0.0;
    var n := 0;
    while n < |s|
      invariant 0 <= n <= |s|
      invariant r >= 0.0
      invariant forall t | 0 <= t < n :: Abs(s[t]) <= r
      invariant r == 0.0 || exists t | 0 <= t < n :: r == Abs(s[t])
    {
      if !(Abs(s[n]) <= r) {
        r := Abs(s[n]);
      }
      n := n + 1;
    }
    if |s| > 0 && r == 0.0 {
      assert Abs(s[0]) <= 0.0;
    }
  }

  /** Sum of elementwise products of two equally long sequences, accumulated from the front. */
  function SumProducts(x: seq<real>, y: seq<real>): real
    requires |x| == |y|
  {
    if |x| == 0 then 0.0 else SumProducts(x[..|x| - 1], y[..|y| - 1]) + x[|x| - 1] * y[|y| - 1]
  }

  /** `dot(a)`: the accumulated sum of products over this block's size. */
  method Dot(a: Array3<real>, b: Array3<real>) returns (r: real)
    requires |a.data| <= |b.data|
    ensures r == SumProducts(a.data, b.data[..|a.data|])
  {
    r := 0.0;
    var n := 0;
    while n < |a.data|
      invariant 0 <= n <= |a.data|
      invariant r == SumProducts(a.data[..n], b.data[..n])
    {
      assert a.data[..n + 1][..n] == a.data[..n];
      assert b.data[..n + 1][..n] == b.data[..n];
      r := r + a.data[n] * b.data[n];
      n := n + 1;
    }
    assert a.data[..n] == a.data;
  }

  /** The inner product is symmetric. */
  lemma {:induction false} DotSymmetric(x: seq<real>, y: seq<real>)
    requires |x| == |y|
    ensures SumProducts(x, y) == SumProducts(y, x)
  {
    if |x| > 0 {
      DotSymmetric(x[..|x| - 1], y[..|y| - 1]);
    }
  }

  /** The inner product of a block with itself is never negative. */
  lemma {:induction false} DotSelfNonNegative(x: seq<real>)
    ensures SumProducts(x, x) >= 0.0
  {
    if |x| > 0 {
      DotSelfNonNegative(x[..|x| - 1]);
      assert x[|x| - 1] * x[|x| - 1] >= 0.0;
    }
  }

  // ------------------------------------------------------------- axpy updates

  /** `increment(s, b)`: every element gains s times the matching element of b. */
  function Increment(a: Array3<real>, scale: real, b: Array3<real>): (r: Array3<real>)
    requires |a.data| <= |b.data|
    ensures SameShape(r, a)
    ensures forall t | 0 <= t < |r.data| :: r.data[t] == a.data[t] + scale * b.data[t]
  {
    a.(data := seq(|a.data|, t requires 0 <= t < |a.data| => a.data[t] + scale * b.data[t]))
  }

  /** `scale_and_increment(s, b)`: every element becomes s times itself plus b's element. */
  function ScaleAndIncrement(a: Array3<real>, scale: real, b: Array3<real>): (r: Array3<real>)
    requires |a.data| <= |b.data|
    ensures SameShape(r, a)
    ensures forall t | 0 <= t < |r.data| :: r.data[t] == scale * a.data[t] + b.data[t]
  {
    a.(data := seq(|a.data|, t requires 0 <= t < |a.data| => scale * a.data[t] + b.data[t]))
  }

  /** Incrementing by -s undoes incrementing by s. */
  lemma IncrementUndone(a: Array3<real>, scale: real, b: Array3<real>)
    requires |a.data| <= |b.data|
    ensures Increment(Increment(a, scale, b), -scale, b) == a
  {
    var r := Increment(Increment(a, scale, b), -scale, b);
    assert r.data == a.data;
  }

  /** The search-direction update s := beta*s + z is z incremented by beta times s. */
  lemma ScaleAndIncrementIsIncrement(a: Array3<real>, scale: real, b: Array3<real>)
    requires |a.data| == |b.data|
    ensures ScaleAndIncrement(a, scale, b).data == Increment(b, scale, a).data
  {
    var l, r := ScaleAndIncrement(a, scale, b), Increment(b, scale, a);
    assert |l.data| == |r.data|;
    forall t | 0 <= t < |l.data| ensures l.data[t] == r.data[t] { }
  }

  // -------------------------------------------------------------- trilinear

  function Lerp(a: real, b: real, f: real): real
  {
    (1.0 - f) * a + f * b
  }

  /** The eight cells (i..i+1, j..j+1, k..k+1) lie inside the block. */
  predicate CornersInside<T>(a: Array3<T>, i: int, j: int, k: int)
  {
    0 <= i && i + 1 < a.nx && 0 <= j && j + 1 < a.ny && 0 <= k && k + 1 < a.nz
  }

  /** `trilerp(i, j, k, fx, fy, fz)`: blend along x, then y, then z. With all
      fractions 0 the blend is the base corner; with all 1 it is the far corner. */
  function Trilerp(a: Array3<real>, i: int, j: int, k: int, fx: real, fy: real, fz: real): (r: real)
    requires Valid(a) && CornersInside(a, i, j, k)
    ensures fx == 0.0 && fy == 0.0 && fz == 0.0 ==> r == At(a, i, j, k)
    ensures fx == 1.0 && fy == 1.0 && fz == 1.0 ==> r == At(a, i + 1, j + 1, k + 1)
  {
    Lerp(Lerp(Lerp(At(a, i, j, k), At(a, i + 1, j, k), fx),
              Lerp(At(a, i, j + 1, k), At(a, i + 1, j + 1, k), fx), fy),
         Lerp(Lerp(At(a, i, j, k + 1), At(a, i + 1, j, k + 1), fx),
              Lerp(At(a, i, j + 1, k + 1), At(a, i + 1, j + 1, k + 1), fx), fy), fz)
  }

  lemma LerpWithin(a: real, b: real, f: real, lo: real, hi: real)
    requires lo <= a <= hi && lo <= b <= hi && 0.0 <= f <= 1.0
    ensures lo <= Lerp(a, b, f) <= hi
  {
    assert Lerp(a, b, f) - lo == (1.0 - f) * (a - lo) + f * (b - lo);
    assert hi - Lerp(a, b, f) == (1.0 - f) * (hi - a) + f * (hi - b);
    MulNonNegative(1.0 - f, a - lo);
    MulNonNegative(f, b - lo);
    MulNonNegative(1.0 - f, hi - a);
    MulNonNegative(f, hi - b);
  }

  lemma MulNonNegative(x: real, y: real)
    requires x >= 0.0 && y >= 0.0
    ensures x * y >= 0.0
  {
  }

  /** For fractions in [0, 1] the blend never leaves the range of its eight corners. */
  lemma TrilerpWithinCorners(a: Array3<real>, i: int, j: int, k: int,
                             fx: real, fy: real, fz: real, lo: real, hi: real)
    requires Valid(a) && CornersInside(a, i, j, k)
    requires 0.0 <= fx <= 1.0 && 0.0 <= fy <= 1.0 && 0.0 <= fz <= 1.0
    requires forall i', j', k' | i <= i' <= i + 1 && j <= j' <= j + 1 && k <= k' <= k + 1 ::
      lo <= At(a, i', j', k') <= hi
    ensures lo <= Trilerp(a, i, j, k, fx, fy, fz) <= hi
  {
    var c000, c100 := At(a, i, j, k), At(a, i + 1, j, k);
    var c010, c110 := At(a, i, j + 1, k), At(a, i + 1, j + 1, k);
    var c001, c101 := At(a, i, j, k + 1), At(a, i + 1, j, k + 1);
    var c011, c111 := At(a, i, j + 1, k + 1), At(a, i + 1, j + 1, k + 1);
    LerpWithin(c000, c100, fx, lo, hi);
    LerpWithin(c010, c110, fx, lo, hi);
    LerpWithin(c001, c101, fx, lo, hi);
    LerpWithin(c011, c111, fx, lo, hi);
    var y0 := Lerp(Lerp(c000, c100, fx), Lerp(c010, c110, fx), fy);
    var y1 := Lerp(Lerp(c001, c101, fx), Lerp(c011, c111, fx), fy);
    LerpWithin(Lerp(c000, c100, fx), Lerp(c010, c110, fx), fy, lo, hi);
    LerpWithin(Lerp(c001, c101, fx), Lerp(c011, c111, fx), fy, lo, hi);
    LerpWithin(y0, y1, fz, lo, hi);
  }

  // ------------------------------------------------- four coefficients per cell

  /** Address of slot l of cell (i, j, k). */
  function Index4(nx: int, ny: int, i: int, j: int, k: int, l: int): int
  {
    Index(nx, ny, i, j, k) * 4 + l
  }

  predicate Valid4(p: Array3x4)
  {
    |p.data| == 4 * (p.nx * p.ny * p.nz)
  }

  /** `Array3x4::init` as written: it allocates three slots per cell although the
      accessor addresses four. */
  function Init4AsWritten(nx: nat, ny: nat, nz: nat): (p: Array3x4)
    ensures p.nx == nx && p.ny == ny && p.nz == nz
    ensures |p.data| == 3 * (nx * ny * nz)
    ensures forall t | 0 <= t < |p.data| :: p.data[t] == 0.0
  {
    Array3x4(nx, ny, nz, seq(3 * (nx * ny * nz), _ => 0.0))
  }

  /** With the allocation as written, slot 3 of the last cell is addressed past the
      end of the buffer for every non-empty block. */
  lemma Init4AsWrittenOverruns(nx: nat, ny: nat, nz: nat)
    requires nx >= 1 && ny >= 1 && nz >= 1
    ensures Index4(nx, ny, nx - 1, ny - 1, nz - 1, 3) >= |Init4AsWritten(nx, ny, nz).data|
  {
    var n := nx * ny * nz;
    assert Index(nx, ny, nx - 1, ny - 1, nz - 1) == n - 1 by {
      assert nx * (ny - 1 + ny * (nz - 1)) == nx * ny * nz - nx;
    }
    assert n >= 1 by { MulAtLeastOne(nx, 1); MulAtLeastOne(nx * ny, 1); }
  }

  /** The overrun is reached by `form_poisson` itself, at an interior cell and on
      its diagonal slot: on a 10x10x10 grid, a FLUID cell (8, 8, 8) with a
      non-SOLID neighbour gets slot 0 incremented, at address 3552 of the 3000
      slots the allocation as written provides. The cells around it stay interior
      after the SOLID shell is marked. */
  lemma Init4AsWrittenPoissonOverrun()
    ensures Index4(10, 10, 8, 8, 8, 0) == 3552 && |Init4AsWritten(10, 10, 10).data| == 3000
    ensures Index4(10, 10, 8, 8, 8, 0) >= |Init4AsWritten(10, 10, 10).data|
  {
    assert Index(10, 10, 8, 8, 8) == 888;
  }

  /** `Array3x4::init` with four slots per cell, every slot zero. */
  function Init4(nx: nat, ny: nat, nz: nat): (p: Array3x4)
    ensures Valid4(p) && p.nx == nx && p.ny == ny && p.nz == nz
    ensures forall t | 0 <= t < |p.data| :: p.data[t] == 0.0
  {
    Array3x4(nx, ny, nz, seq(4 * (nx * ny * nz), _ => 0.0))
  }

  /** With four slots per cell every (cell, slot) pair has its own address in the buffer. */
  lemma Index4InRange(nx: int, ny: int, nz: int, i: int, j: int, k: int, l: int)
    requires InBounds(nx, ny, nz, i, j, k) && 0 <= l < 4
    ensures 0 <= Index4(nx, ny, i, j, k, l) < 4 * (nx * ny * nz)
    ensures Index4(nx, ny, i, j, k, l) / 4 == Index(nx, ny, i, j, k)
    ensures Index4(nx, ny, i, j, k, l) % 4 == l
  {
    IndexInRange(nx, ny, nz, i, j, k);
    DivModUnique(Index4(nx, ny, i, j, k, l), 4, Index(nx, ny, i, j, k), l);
  }

  /** `p(i, j, k, l)` */
  function At4(p: Array3x4, i: int, j: int, k: int, l: int): real
    requires Valid4(p) && InBounds(p.nx, p.ny, p.nz, i, j, k) && 0 <= l < 4
  {
    Index4InRange(p.nx, p.ny, p.nz, i, j, k, l);
    p.data[Index4(p.nx, p.ny, i, j, k, l)]
  }

  lemma Index4InRangeAll(nx: int, ny: int, nz: int)
    ensures forall i, j, k, l | InBounds(nx, ny, nz, i, j, k) && 0 <= l < 4 ::
      && 0 <= Index4(nx, ny, i, j, k, l) < 4 * (nx * ny * nz)
      && Index4(nx, ny, i, j, k, l) / 4 == Index(nx, ny, i, j, k)
      && Index4(nx, ny, i, j, k, l) % 4 == l
  {
    forall i, j, k, l | InBounds(nx, ny, nz, i, j, k) && 0 <= l < 4
      ensures 0 <= Index4(nx, ny, i, j, k, l) < 4 * (nx * ny * nz)
      ensures Index4(nx, ny, i, j, k, l) / 4 == Index(nx, ny, i, j, k)
      ensures Index4(nx, ny, i, j, k, l) % 4 == l
    {
      Index4InRange(nx, ny, nz, i, j, k, l);
    }
  }

  /** A coefficient block whose slot l of cell (i, j, k) holds `f(i, j, k, l)`. */
  function Build4(nx: nat, ny: nat, nz: nat, f: (int, int, int, int) --> real): (p: Array3x4)
    requires forall i, j, k, l | InBounds(nx, ny, nz, i, j, k) && 0 <= l < 4 :: f.requires(i, j, k, l)
    ensures Valid4(p) && p.nx == nx && p.ny == ny && p.nz == nz
    ensures forall i, j, k, l | InBounds(nx, ny, nz, i, j, k) && 0 <= l < 4 :: At4(p, i, j, k, l) == f(i, j, k, l)
  {
    Index4InRangeAll(nx, ny, nz);
    CoordsOfIndexAll(nx, ny, nz);
    Array3x4(nx, ny, nz, seq(4 * (nx * ny * nz), t requires 0 <= t < 4 * (nx * ny * nz) =>
      assert 0 <= t / 4 < nx * ny * nz;
      IndexOfCoords(nx, ny, nz, t / 4);
      f(CoordI(nx, t / 4), CoordJ(nx, ny, t / 4), CoordK(nx, ny, t / 4), t % 4)))
  }

  /** `zero()` of the coefficient block. */
  function Zero4(p: Array3x4): (r: Array3x4)
    ensures r.nx == p.nx && r.ny == p.ny && r.nz == p.nz && |r.data| == |p.data|
    ensures forall t | 0 <= t < |r.data| :: r.data[t] == 0.0
  {
    p.(data := seq(|p.data|, _ => 0.0))
  }
}
