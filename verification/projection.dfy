/** The pressure projection around the linear solver: the divergence of the
    velocity at FLUID cells, the seven-point Poisson matrix assembled from the
    markers, its application to a field, the early exit of the solve, and the
    pressure-gradient update of the face velocities. The preconditioned
    conjugate-gradient iteration itself is not modelled. */
module Projection {
  import opened Dense
  import opened MacGrid

  // ------------------------------------------------------------ divergence

  /** The net outflow through the six faces of cell (i, j, k). */
  function NetOutflow(g: Grid, i: int, j: int, k: int): real
    requires WellShaped(g) && InBounds(Nx(g), Ny(g), Nz(g), i, j, k)
  {
    At(g.u, i + 1, j, k) - At(g.u, i, j, k)
    + At(g.v, i, j + 1, k) - At(g.v, i, j, k)
    + At(g.w, i, j, k + 1) - At(g.w, i, j, k)
  }

  /** `find_divergence`: the residual is cleared, then every FLUID cell receives
      its net outflow. Each cell is written independently, so the loop visits
      the cells in storage order. Nothing but the residual changes. */
  method FindDivergence(g: Grid) returns (out: Grid)
    requires WellShaped(g)
    ensures WellShaped(out) && out == g.(r := out.r)
    ensures forall i, j, k | InBounds(Nx(g), Ny(g), Nz(g), i, j, k) && At(g.marker, i, j, k) == Fluid ::
      At(out.r, i, j, k) == NetOutflow(g, i, j, k)
    ensures forall i, j, k | InBounds(Nx(g), Ny(g), Nz(g), i, j, k) && At(g.marker, i, j, k) != Fluid ::
      At(out.r, i, j, k) == 0.0
  {
    var nx, ny, nz := Nx(g), Ny(g), Nz(g);
    var data: seq<real> := [];
    while |data| < nx * ny * nz
      invariant |data| <= nx * ny * nz
      invariant forall t | 0 <= t < |data| ::
        InBounds(nx, ny, nz, CoordI(nx, t), CoordJ(nx, ny, t), CoordK(nx, ny, t)) &&
        data[t] == (if At(g.marker, CoordI(nx, t), CoordJ(nx, ny, t), CoordK(nx, ny, t)) == Fluid
                    then NetOutflow(g, CoordI(nx, t), CoordJ(nx, ny, t), CoordK(nx, ny, t)) else 0.0)
    {
      var t := |data|;
      IndexOfCoords(nx, ny, nz, t);
      var i, j, k := CoordI(nx, t), CoordJ(nx, ny, t), CoordK(nx, ny, t);
      data := data + [if At(g.marker, i, j, k) == Fluid then NetOutflow(g, i, j, k) else 0.0];
    }
    var div := Array3(nx, ny, nz, data);
    forall i, j, k | InBounds(nx, ny, nz, i, j, k)
      ensures At(div, i, j, k) == (if At(g.marker, i, j, k) == Fluid then NetOutflow(g, i, j, k) else 0.0)
    {
      IndexInRange(nx, ny, nz, i, j, k);
      CoordsOfIndex(nx, ny, nz, i, j, k);
    }
    out := g.(r := div);
  }

  /** A uniform flow has no divergence: whatever the markers, constant u, v and w
      give every cell zero net outflow. */
  lemma UniformFlowIsDivergenceFree(g: Grid, cu: real, cv: real, cw: real, i: int, j: int, k: int)
    requires WellShaped(g) && InBounds(Nx(g), Ny(g), Nz(g), i, j, k)
    requires forall t | 0 <= t < |g.u.data| :: g.u.data[t] == cu
    requires forall t | 0 <= t < |g.v.data| :: g.v.data[t] == cv
    requires forall t | 0 <= t < |g.w.data| :: g.w.data[t] == cw
    ensures NetOutflow(g, i, j, k) == 0.0
  {
    IndexInRange(g.u.nx, g.u.ny, g.u.nz, i, j, k);
    IndexInRange(g.u.nx, g.u.ny, g.u.nz, i + 1, j, k);
    IndexInRange(g.v.nx, g.v.ny, g.v.nz, i, j, k);
    IndexInRange(g.v.nx, g.v.ny, g.v.nz, i, j + 1, k);
    IndexInRange(g.w.nx, g.w.ny, g.w.nz, i, j, k);
    IndexInRange(g.w.nx, g.w.ny, g.w.nz, i, j, k + 1);
  }

  // -------------------------------------------------------- Poisson matrix

  /** The cells the assembly and application loops visit: no outer layer. */
  predicate Interior(nx: int, ny: int, nz: int, i: int, j: int, k: int)
  {
    1 <= i < nx - 1 && 1 <= j < ny - 1 && 1 <= k < nz - 1
  }

  /** An interior FLUID cell: the only cells that get a matrix row. */
  predicate Active(mk: Markers, i: int, j: int, k: int)
    requires Valid(mk)
  {
    Interior(mk.nx, mk.ny, mk.nz, i, j, k) && At(mk, i, j, k) == Fluid
  }

  /** The six neighbours of an interior cell, -x, +x, -y, +y, -z, +z. */
  function Neighbours(mk: Markers, i: int, j: int, k: int): (ns: seq<Cell>)
    requires Valid(mk) && Interior(mk.nx, mk.ny, mk.nz, i, j, k)
    ensures |ns| == 6
  {
    [At(mk, i - 1, j, k), At(mk, i + 1, j, k),
     At(mk, i, j - 1, k), At(mk, i, j + 1, k),
     At(mk, i, j, k - 1), At(mk, i, j, k + 1)]
  }

  /** How many of the cells are not SOLID. */
  function CountNonSolid(cs: seq<Cell>): (n: nat)
    ensures n <= |cs|
  {
    if |cs| == 0 then 0 else (if cs[0] != Solid then 1 else 0) + CountNonSolid(cs[1..])
  }

  /** 1 for a cell that is not SOLID: one `+= 1` of the diagonal. */
  function Open(c: Cell): real
  {
    if c != Solid then 1.0 else 0.0
  }

  /** The neighbour in the positive direction of slot l (1: +x, 2: +y, 3: +z). */
  function Ahead(mk: Markers, i: int, j: int, k: int, l: int): Cell
    requires Valid(mk) && Interior(mk.nx, mk.ny, mk.nz, i, j, k) && 1 <= l <= 3
  {
    if l == 1 then At(mk, i + 1, j, k) else if l == 2 then At(mk, i, j + 1, k) else At(mk, i, j, k + 1)
  }

  /** Slot l of cell (i, j, k) after the assembly loop: the diagonal is bumped once
      per non-SOLID neighbour in the loop's order, and a coupling becomes -1 when
      the neighbour ahead is FLUID. */
  function Coefficient(mk: Markers, i: int, j: int, k: int, l: int): real
    requires Valid(mk) && InBounds(mk.nx, mk.ny, mk.nz, i, j, k) && 0 <= l < 4
  {
    if !Active(mk, i, j, k) then 0.0
    else if l == 0 then
      Open(At(mk, i - 1, j, k)) + Open(At(mk, i + 1, j, k))
      + Open(At(mk, i, j - 1, k)) + Open(At(mk, i, j + 1, k))
      + Open(At(mk, i, j, k - 1)) + Open(At(mk, i, j, k + 1))
    else if Ahead(mk, i, j, k, l) == Fluid then -1.0
    else 0.0
  }

  lemma {:induction false} OpenSumCounts(a: Cell, b: Cell, c: Cell, d: Cell, e: Cell, f: Cell)
    ensures Open(a) + Open(b) + Open(c) + Open(d) + Open(e) + Open(f) ==
            CountNonSolid([a, b, c, d, e, f]) as real
  {
    CountSix([a, b, c, d, e, f]);
  }

  lemma {:induction false} CountSix(cs: seq<Cell>)
    requires |cs| == 6
    ensures CountNonSolid(cs) as real == Open(cs[0]) + Open(cs[1]) + Open(cs[2]) + Open(cs[3]) + Open(cs[4]) + Open(cs[5])
  {
    CountHead(cs);
    CountHead(cs[1..]);
    CountHead(cs[2..]);
    CountHead(cs[3..]);
    CountHead(cs[4..]);
    CountHead(cs[5..]);
    assert cs[1..][1..] == cs[2..] && cs[2..][1..] == cs[3..] && cs[3..][1..] == cs[4..];
    assert cs[4..][1..] == cs[5..] && cs[5..][1..] == [];
  }

  lemma CountHead(cs: seq<Cell>)
    requires |cs| > 0
    ensures CountNonSolid(cs) as real == Open(cs[0]) + CountNonSolid(cs[1..]) as real
  {
  }



  /** `form_poisson`: an interior FLUID cell's diagonal is the number of its six
      neighbours that are not SOLID, its coupling l is -1 exactly when the
      neighbour ahead along axis l is FLUID and 0 otherwise, and every other cell
      has four zero slots. Nothing but the matrix changes. */
  function FormPoisson(g: Grid): (out: Grid)
    requires WellShaped(g)
    ensures WellShaped(out) && out == g.(poisson := out.poisson)
    ensures forall i, j, k | InBounds(Nx(g), Ny(g), Nz(g), i, j, k) && Active(g.marker, i, j, k) ::
      At4(out.poisson, i, j, k, 0) == CountNonSolid(Neighbours(g.marker, i, j, k)) as real
    ensures forall i, j, k, l | InBounds(Nx(g), Ny(g), Nz(g), i, j, k) && Active(g.marker, i, j, k) && 1 <= l <= 3 ::
      (At4(out.poisson, i, j, k, l) == -1.0 <==> Ahead(g.marker, i, j, k, l) == Fluid) &&
      (At4(out.poisson, i, j, k, l) == -1.0 || At4(out.poisson, i, j, k, l) == 0.0)
    ensures forall i, j, k, l | InBounds(Nx(g), Ny(g), Nz(g), i, j, k) && !Active(g.marker, i, j, k) && 0 <= l < 4 ::
      At4(out.poisson, i, j, k, l) == 0.0
  {
    var mk := g.marker;
    var p := Build4(mk.nx, mk.ny, mk.nz, (i, j, k, l) requires InBounds(mk.nx, mk.ny, mk.nz, i, j, k) && 0 <= l < 4 =>
      Coefficient(mk, i, j, k, l));
    forall i, j, k | InBounds(mk.nx, mk.ny, mk.nz, i, j, k) && Active(mk, i, j, k)
      ensures At4(p, i, j, k, 0) == CountNonSolid(Neighbours(mk, i, j, k)) as real
    {
      OpenSumCounts(At(mk, i - 1, j, k), At(mk, i + 1, j, k), At(mk, i, j - 1, k),
                    At(mk, i, j + 1, k), At(mk, i, j, k - 1), At(mk, i, j, k + 1));
    }
    g.(poisson := p)
  }

  /** The row of an interior FLUID cell is weakly diagonally dominant: its six
      couplings (three stored at the cell, three at its lower neighbours) add up
      in magnitude to at most its diagonal. */
  lemma {:induction false} PoissonDiagonallyDominant(g: Grid, i: int, j: int, k: int)
    requires WellShaped(g) && InBounds(Nx(g), Ny(g), Nz(g), i, j, k) && Active(g.marker, i, j, k)
    ensures var p := FormPoisson(g).poisson;
      Abs(At4(p, i - 1, j, k, 1)) + Abs(At4(p, i, j, k, 1))
      + Abs(At4(p, i, j - 1, k, 2)) + Abs(At4(p, i, j, k, 2))
      + Abs(At4(p, i, j, k - 1, 3)) + Abs(At4(p, i, j, k, 3)) <= At4(p, i, j, k, 0)
  {
    var mk := g.marker;
    var p := FormPoisson(g).poisson;
    assert At4(p, i, j, k, 0) == Coefficient(mk, i, j, k, 0);
    assert Abs(At4(p, i, j, k, 1)) <= Open(At(mk, i + 1, j, k)) by {
      assert At4(p, i, j, k, 1) == Coefficient(mk, i, j, k, 1);
    }
    assert Abs(At4(p, i, j, k, 2)) <= Open(At(mk, i, j + 1, k)) by {
      assert At4(p, i, j, k, 2) == Coefficient(mk, i, j, k, 2);
    }
    assert Abs(At4(p, i, j, k, 3)) <= Open(At(mk, i, j, k + 1)) by {
      assert At4(p, i, j, k, 3) == Coefficient(mk, i, j, k, 3);
    }
    assert Abs(At4(p, i - 1, j, k, 1)) <= Open(At(mk, i - 1, j, k)) by {
      assert At4(p, i - 1, j, k, 1) == Coefficient(mk, i - 1, j, k, 1);
    }
    assert Abs(At4(p, i, j - 1, k, 2)) <= Open(At(mk, i, j - 1, k)) by {
      assert At4(p, i, j - 1, k, 2) == Coefficient(mk, i, j - 1, k, 2);
    }
    assert Abs(At4(p, i, j, k - 1, 3)) <= Open(At(mk, i, j, k - 1)) by {
      assert At4(p, i, j, k - 1, 3) == Coefficient(mk, i, j, k - 1, 3);
    }
  }

  // -------------------------------------------------------- matrix action

  /** The seven coefficients of row (i, j, k): the diagonal, then the -x, +x, -y,
      +y, -z and +z couplings, the lower ones read from the neighbour's slot. */
  function Couplings(p: Array3x4, i: int, j: int, k: int): (c: seq<real>)
    requires Valid4(p) && Interior(p.nx, p.ny, p.nz, i, j, k)
    ensures |c| == 7
  {
    [At4(p, i, j, k, 0), At4(p, i - 1, j, k, 1), At4(p, i, j, k, 1), At4(p, i, j - 1, k, 2),
     At4(p, i, j, k, 2), At4(p, i, j, k - 1, 3), At4(p, i, j, k, 3)]
  }

  // Offsets of the seven cells a row touches, in the order of `Couplings`.
  function DI(t: int): int { if t == 1 then -1 else if t == 2 then 1 else 0 }
  function DJ(t: int): int { if t == 3 then -1 else if t == 4 then 1 else 0 }
  function DK(t: int): int { if t == 5 then -1 else if t == 6 then 1 else 0 }

  /** The seven values of x the row multiplies, in the same order. */
  function Gather(x: Field, i: int, j: int, k: int): (v: seq<real>)
    requires Valid(x) && Interior(x.nx, x.ny, x.nz, i, j, k)
    ensures |v| == 7
  {
    seq(7, t requires 0 <= t < 7 => At(x, i + DI(t), j + DJ(t), k + DK(t)))
  }

  /** Row (i, j, k) of the matrix applied to x. */
  function Row(g: Grid, x: Field, i: int, j: int, k: int): real
    requires WellShaped(g) && HasShape(x, Nx(g), Ny(g), Nz(g)) && Interior(Nx(g), Ny(g), Nz(g), i, j, k)
  {
    SumProducts(Couplings(g.poisson, i, j, k), Gather(x, i, j, k))
  }

  /** `apply_poisson(x, y)`: y is cleared, then each interior FLUID cell gets its
      row applied to x; y is 0 everywhere else. */
  function ApplyPoisson(g: Grid, x: Field): (y: Field)
    requires WellShaped(g) && HasShape(x, Nx(g), Ny(g), Nz(g))
    ensures HasShape(y, Nx(g), Ny(g), Nz(g))
    ensures forall i, j, k | InBounds(Nx(g), Ny(g), Nz(g), i, j, k) ::
      At(y, i, j, k) == if Active(g.marker, i, j, k) then Row(g, x, i, j, k) else 0.0
  {
    Build(Nx(g), Ny(g), Nz(g), (i, j, k) requires InBounds(Nx(g), Ny(g), Nz(g), i, j, k) =>
      if Active(g.marker, i, j, k) then Row(g, x, i, j, k) else 0.0)
  }

  /** A sum of products is linear in its second argument. */
  lemma {:induction false} SumProductsLinear(c: seq<real>, x: seq<real>, z: seq<real>, y: seq<real>, s: real)
    requires |c| == |x| == |z| == |y|
    requires forall t | 0 <= t < |y| :: y[t] == x[t] + s * z[t]
    ensures SumProducts(c, y) == SumProducts(c, x) + s * SumProducts(c, z)
  {
    if |c| > 0 {
      var n := |c| - 1;
      SumProductsLinear(c[..n], x[..n], z[..n], y[..n], s);
      assert c[n] * y[n] == c[n] * x[n] + s * (c[n] * z[n]);
    }
  }

  /** y holds x + s*z in every cell. */
  ghost predicate Combined(y: Field, x: Field, s: real, z: Field)
    requires Valid(x) && SameShape(y, x) && SameShape(z, x)
  {
    forall i, j, k | InBounds(x.nx, x.ny, x.nz, i, j, k) :: At(y, i, j, k) == At(x, i, j, k) + s * At(z, i, j, k)
  }

  /** The values a row gathers from a combination are the same combination of
      the values it gathers from each part. */
  lemma GatherCombined(x: Field, s: real, z: Field, y: Field, i: int, j: int, k: int)
    requires Valid(x) && SameShape(y, x) && SameShape(z, x) && Combined(y, x, s, z)
    requires Interior(x.nx, x.ny, x.nz, i, j, k)
    ensures var gx, gz, gy := Gather(x, i, j, k), Gather(z, i, j, k), Gather(y, i, j, k);
      forall t | 0 <= t < 7 :: gy[t] == gx[t] + s * gz[t]
  {
    forall t | 0 <= t < 7
      ensures Gather(y, i, j, k)[t] == Gather(x, i, j, k)[t] + s * Gather(z, i, j, k)[t]
    {
      assert InBounds(x.nx, x.ny, x.nz, i + DI(t), j + DJ(t), k + DK(t));
    }
  }

  /** One row, with coefficients c, applied to x + s*z. */
  lemma {:induction false} RowLinear(c: seq<real>, x: Field, s: real, z: Field, y: Field, i: int, j: int, k: int)
    requires |c| == 7 && Valid(x) && SameShape(y, x) && SameShape(z, x) && Combined(y, x, s, z)
    requires Interior(x.nx, x.ny, x.nz, i, j, k)
    ensures SumProducts(c, Gather(y, i, j, k)) == SumProducts(c, Gather(x, i, j, k)) + s * SumProducts(c, Gather(z, i, j, k))
  {
    GatherCombined(x, s, z, y, i, j, k);
    SumProductsLinear(c, Gather(x, i, j, k), Gather(z, i, j, k), Gather(y, i, j, k), s);
  }

  /** Row (i, j, k) of the assembled matrix, applied to x + s*z. */
  lemma RowLinearAt(g: Grid, x: Field, s: real, z: Field, y: Field, i: int, j: int, k: int)
    requires WellShaped(g) && HasShape(x, Nx(g), Ny(g), Nz(g)) && HasShape(z, Nx(g), Ny(g), Nz(g))
    requires HasShape(y, Nx(g), Ny(g), Nz(g)) && Combined(y, x, s, z)
    requires Interior(Nx(g), Ny(g), Nz(g), i, j, k)
    ensures Row(g, y, i, j, k) == Row(g, x, i, j, k) + s * Row(g, z, i, j, k)
  {
    RowLinear(Couplings(g.poisson, i, j, k), x, s, z, y, i, j, k);
  }

  /** An interior FLUID cell of the matrix applied to x + s*z. */
  lemma CellLinearActive(g: Grid, x: Field, s: real, z: Field, y: Field, i: int, j: int, k: int)
    requires WellShaped(g) && HasShape(x, Nx(g), Ny(g), Nz(g)) && HasShape(z, Nx(g), Ny(g), Nz(g))
    requires HasShape(y, Nx(g), Ny(g), Nz(g)) && Combined(y, x, s, z)
    requires InBounds(Nx(g), Ny(g), Nz(g), i, j, k) && Active(g.marker, i, j, k)
    ensures At(ApplyPoisson(g, y), i, j, k) == At(ApplyPoisson(g, x), i, j, k) + s * At(ApplyPoisson(g, z), i, j, k)
  {
    var ry, rx, rz := Row(g, y, i, j, k), Row(g, x, i, j, k), Row(g, z, i, j, k);
    RowLinearAt(g, x, s, z, y, i, j, k);
    assert At(ApplyPoisson(g, y), i, j, k) == ry;
    assert At(ApplyPoisson(g, x), i, j, k) == rx;
    assert At(ApplyPoisson(g, z), i, j, k) == rz;
  }

  /** Any cell of the matrix applied to x + s*z. */
  lemma CellLinear(g: Grid, x: Field, s: real, z: Field, y: Field, i: int, j: int, k: int)
    requires WellShaped(g) && HasShape(x, Nx(g), Ny(g), Nz(g)) && HasShape(z, Nx(g), Ny(g), Nz(g))
    requires HasShape(y, Nx(g), Ny(g), Nz(g)) && Combined(y, x, s, z)
    requires InBounds(Nx(g), Ny(g), Nz(g), i, j, k)
    ensures At(ApplyPoisson(g, y), i, j, k) == At(ApplyPoisson(g, x), i, j, k) + s * At(ApplyPoisson(g, z), i, j, k)
  {
    if Active(g.marker, i, j, k) {
      CellLinearActive(g, x, s, z, y, i, j, k);
    }
  }

  /** The matrix acts linearly: applied to x + s*z it gives A x + s * A z. */
  lemma {:induction false} ApplyPoissonLinear(g: Grid, x: Field, s: real, z: Field, y: Field)
    requires WellShaped(g) && HasShape(x, Nx(g), Ny(g), Nz(g)) && HasShape(z, Nx(g), Ny(g), Nz(g))
    requires HasShape(y, Nx(g), Ny(g), Nz(g)) && Combined(y, x, s, z)
    ensures Combined(ApplyPoisson(g, y), ApplyPoisson(g, x), s, ApplyPoisson(g, z))
  {
    forall i, j, k | InBounds(Nx(g), Ny(g), Nz(g), i, j, k)
      ensures At(ApplyPoisson(g, y), i, j, k) == At(ApplyPoisson(g, x), i, j, k) + s * At(ApplyPoisson(g, z), i, j, k)
    {
      CellLinear(g, x, s, z, y, i, j, k);
    }
  }

  // ------------------------------------------------------- solve_pressure

  /** The start of `solve_pressure`: the pressure is cleared, the tolerance is
      scaled by the residual's largest magnitude, and the solve returns at once
      exactly when the residual is all zero (leaving the pressure zero). When it
      does not return, the conjugate-gradient iteration follows. */
  method SolvePressureStart(g: Grid, tolerance: real) returns (out: Grid, tol: real, done: bool)
    requires WellShaped(g)
    ensures WellShaped(out) && out == g.(pressure := out.pressure)
    ensures AllZero(out.pressure)
    ensures done <==> AllZero(g.r)
    ensures forall t | 0 <= t < |g.r.data| :: Abs(tolerance * g.r.data[t]) <= Abs(tol)
    ensures exists n :: IsInfNorm(g.r.data, n) && tol == tolerance * n
  {
    var norm := InfNorm(g.r.data);
    tol := tolerance * norm;
    out := g.(pressure := Zero(g.pressure));
    done := norm == 0.0;
    ScaledBound(g.r.data, tolerance, norm);
    assert IsInfNorm(g.r.data, norm) && tol == tolerance * norm;
  }

  /** Scaling a bound on every magnitude scales the bound. */
  lemma ScaledBound(s: seq<real>, a: real, n: real)
    requires forall t | 0 <= t < |s| :: Abs(s[t]) <= n
    ensures forall t | 0 <= t < |s| :: Abs(a * s[t]) <= Abs(a * n)
  {
    forall t | 0 <= t < |s|
      ensures Abs(a * s[t]) <= Abs(a * n)
    {
      AbsProductMonotone(a, s[t], n);
    }
  }

  lemma AbsProductMonotone(a: real, x: real, n: real)
    requires Abs(x) <= n
    ensures Abs(a * x) <= Abs(a * n)
  {
    AbsMul(a, x);
    AbsMul(a, n);
    MulLe(Abs(a), Abs(x), n);
  }

  lemma AbsMul(a: real, b: real)
    ensures Abs(a * b) == Abs(a) * Abs(b)
  {
    if a >= 0.0 && b >= 0.0 {
      assert a * b >= 0.0;
    } else if a >= 0.0 {
      assert a * (-b) >= 0.0;
    } else if b >= 0.0 {
      assert (-a) * b >= 0.0;
    } else {
      assert (-a) * (-b) >= 0.0;
    }
  }

  lemma MulLe(a: real, x: real, n: real)
    requires a >= 0.0 && 0.0 <= x <= n
    ensures 0.0 <= a * x <= a * n
  {
    assert a * n - a * x == a * (n - x);
  }

  // -------------------------------------------------------- add_gradient

  /** The condition of `add_gradient` as written: `marker(a) | marker(b) == FLUIDCELL`
      binds as `marker(a) | (marker(b) == FLUIDCELL)`, so the face is updated when
      the lower cell is not AIR or the upper cell is FLUID. */
  function LiteralTest(a: Cell, b: Cell): (pass: bool)
    ensures pass <==> a != Air || b == Fluid
  {
    (Tag(a) | (if Tag(b) == 1 then 1 else 0)) != 0
  }

  /** The evidently intended condition `(marker(a) | marker(b)) == FLUIDCELL`:
      at least one side FLUID and neither side SOLID. */
  function IntendedTest(a: Cell, b: Cell): (pass: bool)
    ensures pass <==> (a == Fluid || b == Fluid) && a != Solid && b != Solid
  {
    (Tag(a) | Tag(b)) == 1
  }

  /** The cell below face (i, j, k) of the component normal to `axis`. */
  function Below(axis: Axis, i: int, j: int, k: int): (int, int, int)
  {
    match axis
    case X => (i - 1, j, k)
    case Y => (i, j - 1, k)
    case Z => (i, j, k - 1)
  }

  /** The faces the loop for `axis` visits: two layers in along the axis, one
      layer in across it. */
  predicate GradientRange<T>(a: Array3<T>, axis: Axis, i: int, j: int, k: int)
  {
    && (if axis == X then 2 <= i < a.nx - 2 else 1 <= i < a.nx - 1)
    && (if axis == Y then 2 <= j < a.ny - 2 else 1 <= j < a.ny - 1)
    && (if axis == Z then 2 <= k < a.nz - 2 else 1 <= k < a.nz - 1)
  }

  /** The shape `init` gives the face component normal to `axis`. */
  predicate FaceShaped(g: Grid, a: Field, axis: Axis)
  {
    match axis
    case X => HasShape(a, Nx(g) + 1, Ny(g), Nz(g))
    case Y => HasShape(a, Nx(g), Ny(g) + 1, Nz(g))
    case Z => HasShape(a, Nx(g), Ny(g), Nz(g) + 1)
  }

  /** A visited face lies between two cells of the grid. */
  lemma GradientRangeCells(g: Grid, a: Field, axis: Axis, i: int, j: int, k: int)
    requires WellShaped(g) && FaceShaped(g, a, axis) && GradientRange(a, axis, i, j, k)
    ensures InBounds(Nx(g), Ny(g), Nz(g), i, j, k)
    ensures var b := Below(axis, i, j, k); InBounds(Nx(g), Ny(g), Nz(g), b.0, b.1, b.2)
  {
  }

  /** The pressure difference across face (i, j, k), if the test passes. */
  function FaceUpdate(g: Grid, a: Field, axis: Axis, test: (Cell, Cell) -> bool, i: int, j: int, k: int): real
    requires WellShaped(g) && FaceShaped(g, a, axis) && InBounds(a.nx, a.ny, a.nz, i, j, k)
  {
    if !GradientRange(a, axis, i, j, k) then At(a, i, j, k)
    else
      GradientRangeCells(g, a, axis, i, j, k);
      var b := Below(axis, i, j, k);
      if test(At(g.marker, b.0, b.1, b.2), At(g.marker, i, j, k))
      then At(a, i, j, k) + (At(g.pressure, i, j, k) - At(g.pressure, b.0, b.1, b.2))
      else At(a, i, j, k)
  }

  /** One of the three loops of `add_gradient`, with the face test as a parameter. */
  function GradientStep(g: Grid, a: Field, axis: Axis, test: (Cell, Cell) -> bool): (r: Field)
    requires WellShaped(g) && FaceShaped(g, a, axis)
    ensures FaceShaped(g, r, axis) && SameShape(r, a)
    ensures forall i, j, k | InBounds(a.nx, a.ny, a.nz, i, j, k) && !GradientRange(a, axis, i, j, k) ::
      At(r, i, j, k) == At(a, i, j, k)
    ensures forall i, j, k | InBounds(a.nx, a.ny, a.nz, i, j, k) && GradientRange(a, axis, i, j, k) ::
      var b := Below(axis, i, j, k);
      && InBounds(Nx(g), Ny(g), Nz(g), i, j, k) && InBounds(Nx(g), Ny(g), Nz(g), b.0, b.1, b.2)
      && At(r, i, j, k) == if test(At(g.marker, b.0, b.1, b.2), At(g.marker, i, j, k))
                           then At(a, i, j, k) + (At(g.pressure, i, j, k) - At(g.pressure, b.0, b.1, b.2))
                           else At(a, i, j, k)
  {
    Build(a.nx, a.ny, a.nz, (i, j, k) requires InBounds(a.nx, a.ny, a.nz, i, j, k) =>
      FaceUpdate(g, a, axis, test, i, j, k))
  }

  /** `add_gradient` as written, with the mis-parenthesised test. */
  function AddGradientAsWritten(g: Grid): (out: Grid)
    requires WellShaped(g)
    ensures WellShaped(out) && out == g.(u := out.u, v := out.v, w := out.w)
  {
    g.(u := GradientStep(g, g.u, X, LiteralTest),
       v := GradientStep(g, g.v, Y, LiteralTest),
       w := GradientStep(g, g.w, Z, LiteralTest))
  }

  /** `add_gradient` with the intended test. */
  function AddGradient(g: Grid): (out: Grid)
    requires WellShaped(g)
    ensures WellShaped(out) && out == g.(u := out.u, v := out.v, w := out.w)
  {
    g.(u := GradientStep(g, g.u, X, IntendedTest),
       v := GradientStep(g, g.v, Y, IntendedTest),
       w := GradientStep(g, g.w, Z, IntendedTest))
  }

  /** The face component normal to `axis`. */
  function Component(g: Grid, axis: Axis): Field
  {
    match axis
    case X => g.u
    case Y => g.v
    case Z => g.w
  }

  /** `add_gradient` as written, face by face, for u, v and w alike: a face in the
      loop range gains the pressure difference across it when the cell below is
      not AIR or the cell above is FLUID; every other face keeps its velocity. */
  lemma AddGradientAsWrittenFaces(g: Grid, axis: Axis, i: int, j: int, k: int)
    requires WellShaped(g)
    requires InBounds(Component(g, axis).nx, Component(g, axis).ny, Component(g, axis).nz, i, j, k)
    ensures var a, b := Component(g, axis), Below(axis, i, j, k);
      At(Component(AddGradientAsWritten(g), axis), i, j, k) ==
        if GradientRange(a, axis, i, j, k) && (At(g.marker, b.0, b.1, b.2) != Air || At(g.marker, i, j, k) == Fluid)
        then At(a, i, j, k) + (At(g.pressure, i, j, k) - At(g.pressure, b.0, b.1, b.2))
        else At(a, i, j, k)
  {
  }

  /** `add_gradient` with the intended test, face by face, for u, v and w alike: a
      face in the loop range gains the pressure difference exactly when one side
      is FLUID and neither is SOLID; every other face keeps its velocity. */
  lemma AddGradientFaces(g: Grid, axis: Axis, i: int, j: int, k: int)
    requires WellShaped(g)
    requires InBounds(Component(g, axis).nx, Component(g, axis).ny, Component(g, axis).nz, i, j, k)
    ensures var a, b := Component(g, axis), Below(axis, i, j, k);
      At(Component(AddGradient(g), axis), i, j, k) ==
        if && GradientRange(a, axis, i, j, k)
           && (At(g.marker, b.0, b.1, b.2) == Fluid || At(g.marker, i, j, k) == Fluid)
           && At(g.marker, b.0, b.1, b.2) != Solid && At(g.marker, i, j, k) != Solid
        then At(a, i, j, k) + (At(g.pressure, i, j, k) - At(g.pressure, b.0, b.1, b.2))
        else At(a, i, j, k)
  {
  }

  /** Every face the intended test updates, in any of the three components, is
      updated the same way as written; the two versions differ only on faces the
      literal test lets through. */
  lemma IntendedWithinLiteral(g: Grid, axis: Axis, i: int, j: int, k: int)
    requires WellShaped(g)
    requires InBounds(Component(g, axis).nx, Component(g, axis).ny, Component(g, axis).nz, i, j, k)
    requires At(Component(AddGradient(g), axis), i, j, k) != At(Component(g, axis), i, j, k)
    ensures At(Component(AddGradientAsWritten(g), axis), i, j, k) == At(Component(AddGradient(g), axis), i, j, k)
  {
    AddGradientFaces(g, axis, i, j, k);
    AddGradientAsWrittenFaces(g, axis, i, j, k);
  }

  /** As written, a u face between a SOLID cell below and a FLUID cell above is
      pushed by the pressure difference, which the intended test forbids. */
  lemma AsWrittenMovesSolidFace(g: Grid, i: int, j: int, k: int)
    requires WellShaped(g) && InBounds(g.u.nx, g.u.ny, g.u.nz, i, j, k) && GradientRange(g.u, X, i, j, k)
    requires At(g.marker, i - 1, j, k) == Solid && At(g.marker, i, j, k) == Fluid
    requires At(g.pressure, i, j, k) != At(g.pressure, i - 1, j, k)
    ensures At(AddGradientAsWritten(g).u, i, j, k) != At(g.u, i, j, k)
    ensures At(AddGradient(g).u, i, j, k) == At(g.u, i, j, k)
  {
    GradientRangeCells(g, g.u, X, i, j, k);
    assert At(AddGradient(g).u, i, j, k) == FaceUpdate(g, g.u, X, IntendedTest, i, j, k);
    assert At(AddGradientAsWritten(g).u, i, j, k) == FaceUpdate(g, g.u, X, LiteralTest, i, j, k);
  }
}
