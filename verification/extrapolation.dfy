/** The boundary half of `sweep_velocity`: after the interior sweeps, each
    velocity component copies its second layer onto its outermost layer on all
    six sides, so that later interpolation near the walls reads the extrapolated
    values. The barycentric weighting of the sweeps themselves is not modelled. */
module Extrapolation {
  import opened Dense
  import opened MacGrid

  /** The layer a coordinate of an n-long axis takes its value from once both
      copies along that axis are done: layer 0 from layer 1, layer n-1 from
      layer n-2. With n == 2 the second copy reads the layer the first one just
      wrote, so both layers end with the value of layer 1. */
  function Inner(c: int, n: int): int
  {
    if c == 0 then 1 else if c == n - 1 && n >= 3 then n - 2 else c
  }

  /** The value at (i, j, k) after its coordinate along `axis` is replaced by `c`. */
  function AtAlong<T>(a: Array3<T>, axis: Axis, i: int, j: int, k: int, c: int): T
    requires Valid(a) && InBounds(a.nx, a.ny, a.nz, i, j, k) && 0 <= c < Extent(a, axis)
  {
    match axis
    case X => At(a, c, j, k)
    case Y => At(a, i, c, k)
    case Z => At(a, i, j, c)
  }

  /** Every cell of layer `dst` along `axis` takes the value of the matching cell
      of layer `src`; every other cell keeps its value. */
  function CopyLayer<T>(a: Array3<T>, axis: Axis, dst: int, src: int): (r: Array3<T>)
    requires Valid(a) && 0 <= src < Extent(a, axis)
    ensures HasShape(r, a.nx, a.ny, a.nz)
    ensures forall i, j, k | InBounds(a.nx, a.ny, a.nz, i, j, k) ::
      At(r, i, j, k) == if Along(axis, i, j, k) == dst then AtAlong(a, axis, i, j, k, src) else At(a, i, j, k)
  {
    Build(a.nx, a.ny, a.nz, (i, j, k) requires InBounds(a.nx, a.ny, a.nz, i, j, k) =>
      if Along(axis, i, j, k) == dst then AtAlong(a, axis, i, j, k, src) else At(a, i, j, k))
  }

  /** The two boundary copies along one axis, in the order `sweep_velocity` makes them: first
      layer 0 from layer 1, then layer n-1 from layer n-2. Every cell ends with
      the value its `Inner` layer held before. */
  function ReplicateLayers<T>(a: Array3<T>, axis: Axis): (r: Array3<T>)
    requires Valid(a) && Extent(a, axis) >= 2
    ensures HasShape(r, a.nx, a.ny, a.nz)
    ensures forall i, j, k {:trigger At(r, i, j, k)} | InBounds(a.nx, a.ny, a.nz, i, j, k) ::
      0 <= Inner(Along(axis, i, j, k), Extent(a, axis)) < Extent(a, axis) &&
      At(r, i, j, k) == AtAlong(a, axis, i, j, k, Inner(Along(axis, i, j, k), Extent(a, axis)))
  {
    var n := Extent(a, axis);
    var r := CopyLayer(CopyLayer(a, axis, 0, 1), axis, n - 1, n - 2);
    forall i, j, k | InBounds(a.nx, a.ny, a.nz, i, j, k)
      ensures At(r, i, j, k) == AtAlong(a, axis, i, j, k, Inner(Along(axis, i, j, k), n))
    {
      ReplicatedCell(a, axis, i, j, k);
    }
    r
  }

  /** One cell through the two copies of `ReplicateLayers`. */
  lemma ReplicatedCell<T>(a: Array3<T>, axis: Axis, i: int, j: int, k: int)
    requires Valid(a) && Extent(a, axis) >= 2 && InBounds(a.nx, a.ny, a.nz, i, j, k)
    ensures var n := Extent(a, axis);
      At(CopyLayer(CopyLayer(a, axis, 0, 1), axis, n - 1, n - 2), i, j, k) ==
      AtAlong(a, axis, i, j, k, Inner(Along(axis, i, j, k), n))
  {
    var n := Extent(a, axis);
    var low := CopyLayer(a, axis, 0, 1);
    var r := CopyLayer(low, axis, n - 1, n - 2);
    match axis
    case X =>
      if i == n - 1 {
        assert At(r, i, j, k) == At(low, n - 2, j, k);
      } else {
        assert At(r, i, j, k) == At(low, i, j, k);
      }
    case Y =>
      if j == n - 1 {
        assert At(r, i, j, k) == At(low, i, n - 2, k);
      } else {
        assert At(r, i, j, k) == At(low, i, j, k);
      }
    case Z =>
      if k == n - 1 {
        assert At(r, i, j, k) == At(low, i, j, n - 2);
      } else {
        assert At(r, i, j, k) == At(low, i, j, k);
      }
  }

  /** r is `ReplicateLayers(a, axis)` as far as its cells are concerned. */
  ghost predicate LayersReplicated(a: Field, r: Field, axis: Axis)
  {
    && Valid(a) && Extent(a, axis) >= 2 && HasShape(r, a.nx, a.ny, a.nz)
    && forall i, j, k {:trigger At(r, i, j, k)} | InBounds(a.nx, a.ny, a.nz, i, j, k) ::
         0 <= Inner(Along(axis, i, j, k), Extent(a, axis)) < Extent(a, axis) &&
         At(r, i, j, k) == AtAlong(a, axis, i, j, k, Inner(Along(axis, i, j, k), Extent(a, axis)))
  }

  /** One face after the y, x and z copies, traced back through the three steps. */
  lemma ReplicatedFace(a: Field, ys: Field, xs: Field, zs: Field, i: int, j: int, k: int)
    requires LayersReplicated(a, ys, Y) && LayersReplicated(ys, xs, X) && LayersReplicated(xs, zs, Z)
    requires a.nx >= 2 && a.nz >= 2 && InBounds(a.nx, a.ny, a.nz, i, j, k)
    ensures InBounds(a.nx, a.ny, a.nz, Inner(i, a.nx), Inner(j, a.ny), Inner(k, a.nz))
    ensures At(zs, i, j, k) == At(a, Inner(i, a.nx), Inner(j, a.ny), Inner(k, a.nz))
  {
    InnerIdempotent(i, a.nx);
    InnerIdempotent(j, a.ny);
    InnerIdempotent(k, a.nz);
    var i', j', k' := Inner(i, a.nx), Inner(j, a.ny), Inner(k, a.nz);
    assert At(zs, i, j, k) == At(xs, i, j, k') by { assert AtAlong(xs, Z, i, j, k, k') == At(xs, i, j, k'); }
    assert At(xs, i, j, k') == At(ys, i', j, k') by { assert AtAlong(ys, X, i, j, k', i') == At(ys, i', j, k'); }
    assert At(ys, i', j, k') == At(a, i', j', k') by { assert AtAlong(a, Y, i', j, k', j') == At(a, i', j', k'); }
  }

  /** The copies of one component: y layers, then x layers, then z layers. Every
      face ends with the value the face at its `Inner` position held before. */
  function ExtendBoundary(a: Field): (r: Field)
    requires Valid(a) && a.nx >= 2 && a.ny >= 2 && a.nz >= 2
    ensures HasShape(r, a.nx, a.ny, a.nz)
    ensures forall i, j, k {:trigger At(r, i, j, k)} | InBounds(a.nx, a.ny, a.nz, i, j, k) ::
      InBounds(a.nx, a.ny, a.nz, Inner(i, a.nx), Inner(j, a.ny), Inner(k, a.nz)) &&
      At(r, i, j, k) == At(a, Inner(i, a.nx), Inner(j, a.ny), Inner(k, a.nz))
  {
    var ys := ReplicateLayers(a, Y);
    var xs := ReplicateLayers(ys, X);
    var zs := ReplicateLayers(xs, Z);
    assert LayersReplicated(a, ys, Y) && LayersReplicated(ys, xs, X) && LayersReplicated(xs, zs, Z);
    forall i, j, k | InBounds(a.nx, a.ny, a.nz, i, j, k)
      ensures InBounds(a.nx, a.ny, a.nz, Inner(i, a.nx), Inner(j, a.ny), Inner(k, a.nz))
      ensures At(zs, i, j, k) == At(a, Inner(i, a.nx), Inner(j, a.ny), Inner(k, a.nz))
    {
      ReplicatedFace(a, ys, xs, zs, i, j, k);
    }
    zs
  }

  /** The boundary part of `sweep_velocity` on the whole grid: u, v and w each
      get their boundary copies; nothing else changes. */
  function SweepVelocityBoundary(g: Grid): (r: Grid)
    requires WellShaped(g) && Nx(g) >= 2 && Ny(g) >= 2 && Nz(g) >= 2
    ensures WellShaped(r) && r == g.(u := r.u, v := r.v, w := r.w)
    ensures forall i, j, k {:trigger At(r.u, i, j, k)} | InBounds(g.u.nx, g.u.ny, g.u.nz, i, j, k) ::
      At(r.u, i, j, k) == At(g.u, Inner(i, g.u.nx), Inner(j, g.u.ny), Inner(k, g.u.nz))
    ensures forall i, j, k {:trigger At(r.v, i, j, k)} | InBounds(g.v.nx, g.v.ny, g.v.nz, i, j, k) ::
      At(r.v, i, j, k) == At(g.v, Inner(i, g.v.nx), Inner(j, g.v.ny), Inner(k, g.v.nz))
    ensures forall i, j, k {:trigger At(r.w, i, j, k)} | InBounds(g.w.nx, g.w.ny, g.w.nz, i, j, k) ::
      At(r.w, i, j, k) == At(g.w, Inner(i, g.w.nx), Inner(j, g.w.ny), Inner(k, g.w.nz))
  {
    g.(u := ExtendBoundary(g.u), v := ExtendBoundary(g.v), w := ExtendBoundary(g.w))
  }

  /** Taking the inner layer twice is taking it once. */
  lemma InnerIdempotent(c: int, n: int)
    requires n >= 2 && 0 <= c < n
    ensures 0 <= Inner(c, n) < n && Inner(Inner(c, n), n) == Inner(c, n)
    ensures c == 0 ==> Inner(1, n) == Inner(c, n)
    ensures c == n - 1 ==> Inner(n - 2, n) == Inner(c, n)
  {
  }

  /** A block whose every face holds the value of the face at its `Inner`
      position in `a`. */
  ghost predicate Replicated(a: Field, r: Field)
    requires Valid(a) && a.nx >= 2 && a.ny >= 2 && a.nz >= 2
  {
    && HasShape(r, a.nx, a.ny, a.nz)
    && forall i, j, k {:trigger At(r, i, j, k)} | InBounds(a.nx, a.ny, a.nz, i, j, k) ::
         InBounds(a.nx, a.ny, a.nz, Inner(i, a.nx), Inner(j, a.ny), Inner(k, a.nz)) &&
         At(r, i, j, k) == At(a, Inner(i, a.nx), Inner(j, a.ny), Inner(k, a.nz))
  }

  lemma ReplicatedMatchesNeighbours(a: Field, r: Field, i: int, j: int, k: int)
    requires Valid(a) && a.nx >= 2 && a.ny >= 2 && a.nz >= 2 && Replicated(a, r)
    requires InBounds(a.nx, a.ny, a.nz, i, j, k)
    ensures i == 0 ==> At(r, i, j, k) == At(r, 1, j, k)
    ensures i == a.nx - 1 ==> At(r, i, j, k) == At(r, a.nx - 2, j, k)
    ensures j == 0 ==> At(r, i, j, k) == At(r, i, 1, k)
    ensures j == a.ny - 1 ==> At(r, i, j, k) == At(r, i, a.ny - 2, k)
    ensures k == 0 ==> At(r, i, j, k) == At(r, i, j, 1)
    ensures k == a.nz - 1 ==> At(r, i, j, k) == At(r, i, j, a.nz - 2)
    ensures 1 <= i <= a.nx - 2 && 1 <= j <= a.ny - 2 && 1 <= k <= a.nz - 2 ==> At(r, i, j, k) == At(a, i, j, k)
  {
    InnerIdempotent(i, a.nx);
    InnerIdempotent(j, a.ny);
    InnerIdempotent(k, a.nz);
    assert At(r, i, j, k) == At(a, Inner(i, a.nx), Inner(j, a.ny), Inner(k, a.nz));
    if i == 0 {
      assert At(r, 1, j, k) == At(a, Inner(1, a.nx), Inner(j, a.ny), Inner(k, a.nz));
    }
    if i == a.nx - 1 {
      assert At(r, a.nx - 2, j, k) == At(a, Inner(a.nx - 2, a.nx), Inner(j, a.ny), Inner(k, a.nz));
    }
    if j == 0 {
      assert At(r, i, 1, k) == At(a, Inner(i, a.nx), Inner(1, a.ny), Inner(k, a.nz));
    }
    if j == a.ny - 1 {
      assert At(r, i, a.ny - 2, k) == At(a, Inner(i, a.nx), Inner(a.ny - 2, a.ny), Inner(k, a.nz));
    }
    if k == 0 {
      assert At(r, i, j, 1) == At(a, Inner(i, a.nx), Inner(j, a.ny), Inner(1, a.nz));
    }
    if k == a.nz - 1 {
      assert At(r, i, j, a.nz - 2) == At(a, Inner(i, a.nx), Inner(j, a.ny), Inner(a.nz - 2, a.nz));
    }
  }

  /** After the copies every boundary face equals its inner neighbour, and a face
      off the outer layers keeps its value. */
  lemma ExtendBoundaryMatchesNeighbours(a: Field, i: int, j: int, k: int)
    requires Valid(a) && a.nx >= 2 && a.ny >= 2 && a.nz >= 2
    requires InBounds(a.nx, a.ny, a.nz, i, j, k)
    ensures var r := ExtendBoundary(a);
      && (i == 0 ==> At(r, i, j, k) == At(r, 1, j, k))
      && (i == a.nx - 1 ==> At(r, i, j, k) == At(r, a.nx - 2, j, k))
      && (j == 0 ==> At(r, i, j, k) == At(r, i, 1, k))
      && (j == a.ny - 1 ==> At(r, i, j, k) == At(r, i, a.ny - 2, k))
      && (k == 0 ==> At(r, i, j, k) == At(r, i, j, 1))
      && (k == a.nz - 1 ==> At(r, i, j, k) == At(r, i, j, a.nz - 2))
      && (1 <= i <= a.nx - 2 && 1 <= j <= a.ny - 2 && 1 <= k <= a.nz - 2 ==> At(r, i, j, k) == At(a, i, j, k))
  {
    ReplicatedMatchesNeighbours(a, ExtendBoundary(a), i, j, k);
  }

  /** A second round of boundary copies changes nothing. */
  lemma ExtendBoundaryIdempotent(a: Field)
    requires Valid(a) && a.nx >= 2 && a.ny >= 2 && a.nz >= 2
    ensures ExtendBoundary(ExtendBoundary(a)) == ExtendBoundary(a)
  {
    var once := ExtendBoundary(a);
    var twice := ExtendBoundary(once);
    forall i, j, k | InBounds(a.nx, a.ny, a.nz, i, j, k)
      ensures At(twice, i, j, k) == At(once, i, j, k)
    {
      InnerIdempotent(i, a.nx);
      InnerIdempotent(j, a.ny);
      InnerIdempotent(k, a.nz);
    }
    Extensional(twice, once);
  }

  // ------------------------------------------------------ the loops as written

  /** One assignment `a(dst) = a(src)` of the copy loops. */
  datatype Copy = Copy(dst: (int, int, int), src: (int, int, int))

  /** The loop that copies along `axis` runs its outer variable over this range:
      i for the y and z copies, j for the x copies. */
  function OuterCount(axis: Axis, nx: int, ny: int): int
  {
    if axis == X then ny else nx
  }

  /** The inner variable: k for the y and x copies, j for the z copies. */
  function InnerCount(axis: Axis, ny: int, nz: int): int
  {
    if axis == Z then ny else nz
  }

  /** The first assignment of the loop body, at outer value o and inner value m. */
  function LowCopy(axis: Axis, o: int, m: int): Copy
  {
    match axis
    case Y => Copy((o, 0, m), (o, 1, m))
    case X => Copy((0, o, m), (1, o, m))
    case Z => Copy((o, m, 0), (o, m, 1))
  }

  /** The second assignment, at outer value o and inner value m. */
  function HighCopy(axis: Axis, nx: int, ny: int, nz: int, o: int, m: int): Copy
  {
    match axis
    case Y => Copy((o, ny - 1, m), (o, ny - 2, m))
    case X => Copy((nx - 1, o, m), (nx - 2, o, m))
    case Z => Copy((o, m, nz - 1), (o, m, nz - 2))
  }

  /** One outer iteration as written: without braces only the first assignment
      is the inner loop's body; the second runs once afterwards, with the inner
      variable at its exit value. */
  function IterationAsWritten(axis: Axis, nx: int, ny: int, nz: int, o: int): (r: seq<Copy>)
    ensures |r| == (if InnerCount(axis, ny, nz) < 0 then 0 else InnerCount(axis, ny, nz)) + 1
    ensures forall n | 0 <= n < |r| - 1 :: r[n] == LowCopy(axis, o, n)
    ensures r[|r| - 1] == HighCopy(axis, nx, ny, nz, o, InnerCount(axis, ny, nz))
  {
    var m := InnerCount(axis, ny, nz);
    seq(if m < 0 then 0 else m, n => LowCopy(axis, o, n)) + [HighCopy(axis, nx, ny, nz, o, m)]
  }

  /** The assignments of the whole copy loop along `axis`, in execution order, for
      outer values from `o` on. */
  function CopiesAsWritten(axis: Axis, nx: int, ny: int, nz: int, o: int): (r: seq<Copy>)
    decreases OuterCount(axis, nx, ny) - o
  {
    if o >= OuterCount(axis, nx, ny) then []
    else IterationAsWritten(axis, nx, ny, nz, o) + CopiesAsWritten(axis, nx, ny, nz, o + 1)
  }

  /** The same loop with the evidently intended braces: both assignments are
      made for every inner value. */
  function Iteration(axis: Axis, nx: int, ny: int, nz: int, o: int, m: int): (r: seq<Copy>)
    ensures |r| == (if m < InnerCount(axis, ny, nz) then 2 * (InnerCount(axis, ny, nz) - m) else 0)
    ensures forall n | 0 <= n < |r| ::
      r[n] == if n % 2 == 0 then LowCopy(axis, o, m + n / 2) else HighCopy(axis, nx, ny, nz, o, m + n / 2)
    decreases InnerCount(axis, ny, nz) - m
  {
    if m >= InnerCount(axis, ny, nz) then []
    else
      var rest := Iteration(axis, nx, ny, nz, o, m + 1);
      var r := [LowCopy(axis, o, m), HighCopy(axis, nx, ny, nz, o, m)] + rest;
      assert forall n | 2 <= n < |r| :: r[n] == rest[n - 2] && (n - 2) % 2 == n % 2 && (n - 2) / 2 == n / 2 - 1;
      r
  }

  function Copies(axis: Axis, nx: int, ny: int, nz: int, o: int): seq<Copy>
    decreases OuterCount(axis, nx, ny) - o
  {
    if o >= OuterCount(axis, nx, ny) then []
    else Iteration(axis, nx, ny, nz, o, 0) + Copies(axis, nx, ny, nz, o + 1)
  }

  /** Both cells of a copy lie in the block. */
  predicate CopyInBounds(nx: int, ny: int, nz: int, c: Copy)
  {
    InBounds(nx, ny, nz, c.dst.0, c.dst.1, c.dst.2) && InBounds(nx, ny, nz, c.src.0, c.src.1, c.src.2)
  }

  lemma {:induction false} IterationInBounds(axis: Axis, nx: int, ny: int, nz: int, o: int, m: int)
    requires nx >= 2 && ny >= 2 && nz >= 2
    requires 0 <= o < OuterCount(axis, nx, ny) && 0 <= m
    ensures forall t | 0 <= t < |Iteration(axis, nx, ny, nz, o, m)| ::
      CopyInBounds(nx, ny, nz, Iteration(axis, nx, ny, nz, o, m)[t])
    decreases InnerCount(axis, ny, nz) - m
  {
    if m < InnerCount(axis, ny, nz) {
      IterationInBounds(axis, nx, ny, nz, o, m + 1);
    }
  }

  /** With the braces every copy of every axis stays inside an nx-by-ny-by-nz
      block of at least two cells per axis. */
  lemma {:induction false} CopiesInBounds(axis: Axis, nx: int, ny: int, nz: int, o: int)
    requires nx >= 2 && ny >= 2 && nz >= 2 && 0 <= o
    ensures forall t | 0 <= t < |Copies(axis, nx, ny, nz, o)| ::
      CopyInBounds(nx, ny, nz, Copies(axis, nx, ny, nz, o)[t])
    decreases OuterCount(axis, nx, ny) - o
  {
    if o < OuterCount(axis, nx, ny) {
      IterationInBounds(axis, nx, ny, nz, o, 0);
      CopiesInBounds(axis, nx, ny, nz, o + 1);
    }
  }

  /** As written, the first outer iteration's trailing assignment writes past the
      end of the buffer, for every axis and every block of at least two cells per
      axis. */
  lemma CopiesAsWrittenOverrun(axis: Axis, nx: int, ny: int, nz: int)
    requires nx >= 2 && ny >= 2 && nz >= 2
    ensures InnerCount(axis, ny, nz) < |CopiesAsWritten(axis, nx, ny, nz, 0)|
    ensures var c := CopiesAsWritten(axis, nx, ny, nz, 0)[InnerCount(axis, ny, nz)];
      !InBounds(nx, ny, nz, c.dst.0, c.dst.1, c.dst.2) &&
      Index(nx, ny, c.dst.0, c.dst.1, c.dst.2) >= nx * ny * nz
  {
    var m := InnerCount(axis, ny, nz);
    var first := IterationAsWritten(axis, nx, ny, nz, 0);
    assert CopiesAsWritten(axis, nx, ny, nz, 0) == first + CopiesAsWritten(axis, nx, ny, nz, 1);
    assert first[m] == HighCopy(axis, nx, ny, nz, 0, m);
    TrailingCopyOverruns(axis, nx, ny, nz);
  }

  /** The trailing assignment, with the inner variable at its exit value, names a
      cell outside the block whose address is past the end of the buffer. */
  lemma TrailingCopyOverruns(axis: Axis, nx: int, ny: int, nz: int)
    requires nx >= 2 && ny >= 2 && nz >= 2
    ensures var c := HighCopy(axis, nx, ny, nz, 0, InnerCount(axis, ny, nz));
      !InBounds(nx, ny, nz, c.dst.0, c.dst.1, c.dst.2) &&
      Index(nx, ny, c.dst.0, c.dst.1, c.dst.2) >= nx * ny * nz
  {
    MulAssociates(nx, ny, nz);
    match axis
    case Y =>
      assert nx * (ny - 1 + ny * nz) == nx * (ny - 1) + nx * (ny * nz);
      assert nx * (ny - 1) >= 0;
    case X =>
    case Z =>
      assert ny + ny * (nz - 1) == ny * nz;
  }
}
