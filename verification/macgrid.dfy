/** The staggered (MAC) grid: cell classification, the record of every field the
    solver keeps, and the whole-grid operations that do not belong to the level
    set or the pressure projection: allocation, uniform gravity, the velocity
    snapshot and delta, and boundary enforcement. */
module MacGrid {
  import opened Dense

  /** Cell classification. */
  datatype Cell = Air | Fluid | Solid

  /** The small integer `Grid::marker` stores per cell (AIRCELL, FLUIDCELL, SOLIDCELL). */
  function Tag(c: Cell): bv8
  {
    match c
    case Air => 0
    case Fluid => 1
    case Solid => 2
  }

  type Field = Array3<real>
  type Markers = Array3<Cell>

  /** All state of the grid. u, v and w live on the cell faces normal to x, y and z;
      everything else is cell-centred. `poisson` holds, per cell, the diagonal and
      the couplings to the +x, +y and +z neighbours. */
  datatype Grid = Grid(
    gravity: real, lx: real, ly: real, h: real, overh: real,
    u: Field, v: Field, w: Field,
    du: Field, dv: Field, dw: Field,
    marker: Markers, phi: Field, pressure: Field,
    poisson: Array3x4, preconditioner: Field, m: Field, r: Field, z: Field, s: Field)

  /** Cell counts along each axis; the marker field is cell-centred. */
  function Nx(g: Grid): nat { g.marker.nx }
  function Ny(g: Grid): nat { g.marker.ny }
  function Nz(g: Grid): nat { g.marker.nz }

  /** Every field has the shape `init` allocated for it. */
  predicate WellShaped(g: Grid)
  {
    var nx := Nx(g);
    var ny := Ny(g);
    var nz := Nz(g);
    && nx >= 1 && ny >= 1 && nz >= 1
    && HasShape(g.u, nx + 1, ny, nz) && HasShape(g.v, nx, ny + 1, nz) && HasShape(g.w, nx, ny, nz + 1)
    && HasShape(g.du, nx + 1, ny, nz) && HasShape(g.dv, nx, ny + 1, nz) && HasShape(g.dw, nx, ny, nz + 1)
    && HasShape(g.marker, nx, ny, nz) && HasShape(g.phi, nx, ny, nz) && HasShape(g.pressure, nx, ny, nz)
    && Valid4(g.poisson) && g.poisson.nx == nx && g.poisson.ny == ny && g.poisson.nz == nz
    && HasShape(g.preconditioner, nx, ny, nz) && HasShape(g.m, nx, ny, nz)
    && HasShape(g.r, nx, ny, nz) && HasShape(g.z, nx, ny, nz) && HasShape(g.s, nx, ny, nz)
  }

  /** Two grids over the same cells. */
  predicate SameCells(g: Grid, g': Grid)
  {
    Nx(g) == Nx(g') && Ny(g) == Ny(g') && Nz(g) == Nz(g')
  }

  predicate AllZero(a: Field)
  {
    forall t | 0 <= t < |a.data| :: a.data[t] == 0.0
  }

  /** `init(gravity, nx, ny, nz, lx)`: spacing from the x extent, every field
      allocated and zero-filled. Zero-filled markers are AIR (tag 0). */
  function Init(gravity: real, nx: nat, ny: nat, nz: nat, lx: real): (g: Grid)
    requires nx >= 1 && ny >= 1 && nz >= 1 && lx != 0.0
    ensures WellShaped(g) && Nx(g) == nx && Ny(g) == ny && Nz(g) == nz
    ensures g.gravity == gravity && g.lx == lx
    ensures g.h * g.overh == 1.0
    ensures g.h * (nx as real) == lx && g.ly == g.h * (ny as real)
    ensures AllZero(g.u) && AllZero(g.v) && AllZero(g.w)
    ensures AllZero(g.du) && AllZero(g.dv) && AllZero(g.dw)
    ensures AllZero(g.phi) && AllZero(g.pressure) && AllZero(g.preconditioner)
    ensures AllZero(g.m) && AllZero(g.r) && AllZero(g.z) && AllZero(g.s)
    ensures forall t | 0 <= t < |g.poisson.data| :: g.poisson.data[t] == 0.0
    ensures forall t | 0 <= t < |g.marker.data| :: g.marker.data[t] == Air
  {
    var fx := nx as real;
    var fy := ny as real;
    Spacing(fx, fy, lx);
    Grid(gravity, lx, fy * lx / fx, lx / fx, fx / lx,
         Dense.Init(nx + 1, ny, nz), Dense.Init(nx, ny + 1, nz), Dense.Init(nx, ny, nz + 1),
         Dense.Init(nx + 1, ny, nz), Dense.Init(nx, ny + 1, nz), Dense.Init(nx, ny, nz + 1),
         Filled(nx, ny, nz, Air), Dense.Init(nx, ny, nz), Dense.Init(nx, ny, nz),
         Init4(nx, ny, nz), Dense.Init(nx, ny, nz), Dense.Init(nx, ny, nz),
         Dense.Init(nx, ny, nz), Dense.Init(nx, ny, nz), Dense.Init(nx, ny, nz))
  }

  /** The spacing `lx / nx` and its reciprocal `nx / lx` multiply to one, and
      `ly` is the y extent at that spacing. */
  lemma Spacing(fx: real, fy: real, lx: real)
    requires fx > 0.0 && lx != 0.0
    ensures (lx / fx) * (fx / lx) == 1.0
    ensures (lx / fx) * fx == lx && fy * lx / fx == (lx / fx) * fy
  {
    assert (lx / fx) * fx == lx;
    assert (fx / lx) * lx == fx;
  }

  // ------------------------------------------------------------------ gravity

  /** `add_gravity` on its active, uniform path: every v face loses dt*gravity;
      nothing else changes. */
  function AddGravity(g: Grid, dt: real): (r: Grid)
    requires WellShaped(g)
    ensures WellShaped(r) && r == g.(v := r.v)
    ensures SameShape(r.v, g.v)
    ensures forall t | 0 <= t < |r.v.data| :: r.v.data[t] == g.v.data[t] - dt * g.gravity
  {
    var dtg := dt * g.gravity;
    g.(v := g.v.(data := seq(|g.v.data|, t requires 0 <= t < |g.v.data| => g.v.data[t] - dtg)))
  }

  /** Two uniform gravity steps add up to one step over the summed time. */
  lemma AddGravityAccumulates(g: Grid, dt1: real, dt2: real)
    requires WellShaped(g)
    ensures AddGravity(AddGravity(g, dt1), dt2) == AddGravity(g, dt1 + dt2)
  {
    var a, b := AddGravity(AddGravity(g, dt1), dt2), AddGravity(g, dt1 + dt2);
    assert (dt1 + dt2) * g.gravity == dt1 * g.gravity + dt2 * g.gravity;
    assert |a.v.data| == |b.v.data|;
    forall t | 0 <= t < |a.v.data|
      ensures a.v.data[t] == b.v.data[t]
    {
    }
    assert a.v == b.v;
  }

  // ------------------------------------------------------- snapshot and delta

  /** `save_velocities`: du, dv, dw take copies of u, v, w. */
  function SaveVelocities(g: Grid): (r: Grid)
    requires WellShaped(g)
    ensures WellShaped(r) && r == g.(du := r.du, dv := r.dv, dw := r.dw)
    ensures r.du.data == g.u.data && r.dv.data == g.v.data && r.dw.data == g.w.data
  {
    g.(du := CopyTo(g.u, g.du), dv := CopyTo(g.v, g.dv), dw := CopyTo(g.w, g.dw))
  }

  /** `get_velocity_update`: du, dv, dw become the current velocity minus what they held. */
  function GetVelocityUpdate(g: Grid): (r: Grid)
    requires WellShaped(g)
    ensures WellShaped(r) && r == g.(du := r.du, dv := r.dv, dw := r.dw)
    ensures forall t | 0 <= t < |r.du.data| :: r.du.data[t] == g.u.data[t] - g.du.data[t]
    ensures forall t | 0 <= t < |r.dv.data| :: r.dv.data[t] == g.v.data[t] - g.dv.data[t]
    ensures forall t | 0 <= t < |r.dw.data| :: r.dw.data[t] == g.w.data[t] - g.dw.data[t]
  {
    g.(du := Difference(g.u, g.du), dv := Difference(g.v, g.dv), dw := Difference(g.w, g.dw))
  }

  function Difference(a: Field, b: Field): (d: Field)
    requires |a.data| == |b.data|
    ensures SameShape(d, b)
    ensures forall t | 0 <= t < |d.data| :: d.data[t] == a.data[t] - b.data[t]
  {
    b.(data := seq(|b.data|, t requires 0 <= t < |b.data| => a.data[t] - b.data[t]))
  }

  /** A snapshot taken before a step, left alone during it, turns into exactly the
      change of every velocity face over the step. */
  lemma VelocityUpdateIsDelta(before: Grid, after: Grid)
    requires WellShaped(before) && WellShaped(after) && SameCells(before, after)
    requires after.du == SaveVelocities(before).du
    requires after.dv == SaveVelocities(before).dv
    requires after.dw == SaveVelocities(before).dw
    ensures forall t | 0 <= t < |after.u.data| ::
      GetVelocityUpdate(after).du.data[t] == after.u.data[t] - before.u.data[t]
    ensures forall t | 0 <= t < |after.v.data| ::
      GetVelocityUpdate(after).dv.data[t] == after.v.data[t] - before.v.data[t]
    ensures forall t | 0 <= t < |after.w.data| ::
      GetVelocityUpdate(after).dw.data[t] == after.w.data[t] - before.w.data[t]
  {
  }

  // ------------------------------------------------------ boundary conditions

  datatype Axis = X | Y | Z

  /** The coordinate of (i, j, k) along `axis`. */
  function Along(axis: Axis, i: int, j: int, k: int): int
  {
    match axis
    case X => i
    case Y => j
    case Z => k
  }

  /** The length of a block along `axis`. */
  function Extent<T>(a: Array3<T>, axis: Axis): nat
  {
    match axis
    case X => a.nx
    case Y => a.ny
    case Z => a.nz
  }

  /** The outermost layer of cells on any of the six sides. */
  predicate OnShell(nx: int, ny: int, nz: int, i: int, j: int, k: int)
  {
    i == 0 || i == nx - 1 || j == 0 || j == ny - 1 || k == 0 || k == nz - 1
  }

  /** The two lowest and the two highest layers of n. */
  predicate InOuterLayers(c: int, n: int)
  {
    c == 0 || c == 1 || c == n - 2 || c == n - 1
  }

  /** The marker half of `apply_boundary_conditions`: the shell becomes SOLID and
      every other cell keeps its classification. */
  function MarkShell(mk: Markers): (r: Markers)
    requires Valid(mk)
    ensures HasShape(r, mk.nx, mk.ny, mk.nz)
    ensures forall i, j, k | InBounds(mk.nx, mk.ny, mk.nz, i, j, k) && OnShell(mk.nx, mk.ny, mk.nz, i, j, k) ::
      At(r, i, j, k) == Solid
    ensures forall i, j, k | InBounds(mk.nx, mk.ny, mk.nz, i, j, k) && !OnShell(mk.nx, mk.ny, mk.nz, i, j, k) ::
      At(r, i, j, k) == At(mk, i, j, k)
  {
    Build(mk.nx, mk.ny, mk.nz, (i, j, k) requires InBounds(mk.nx, mk.ny, mk.nz, i, j, k) =>
      if OnShell(mk.nx, mk.ny, mk.nz, i, j, k) then Solid else At(mk, i, j, k))
  }

  /** The velocity half: faces in the two outer layers along the component's own
      axis become 0, every other face keeps its value. */
  function ZeroOuterLayers(a: Field, axis: Axis): (r: Field)
    requires Valid(a)
    ensures HasShape(r, a.nx, a.ny, a.nz)
    ensures forall i, j, k | InBounds(a.nx, a.ny, a.nz, i, j, k) && InOuterLayers(Along(axis, i, j, k), Extent(a, axis)) ::
      At(r, i, j, k) == 0.0
    ensures forall i, j, k | InBounds(a.nx, a.ny, a.nz, i, j, k) && !InOuterLayers(Along(axis, i, j, k), Extent(a, axis)) ::
      At(r, i, j, k) == At(a, i, j, k)
  {
    Build(a.nx, a.ny, a.nz, (i, j, k) requires InBounds(a.nx, a.ny, a.nz, i, j, k) =>
      if InOuterLayers(Along(axis, i, j, k), Extent(a, axis)) then 0.0 else At(a, i, j, k))
  }

  /** `apply_boundary_conditions`: shell marked SOLID, u zeroed in its outer x layers,
      v in its outer y layers, w in its outer z layers; no other field changes. */
  function ApplyBoundaryConditions(g: Grid): (r: Grid)
    requires WellShaped(g)
    ensures WellShaped(r) && SameCells(r, g)
    ensures r == g.(marker := r.marker, u := r.u, v := r.v, w := r.w)
    ensures r.marker == MarkShell(g.marker)
    ensures r.u == ZeroOuterLayers(g.u, X) && r.v == ZeroOuterLayers(g.v, Y) && r.w == ZeroOuterLayers(g.w, Z)
  {
    g.(marker := MarkShell(g.marker),
       u := ZeroOuterLayers(g.u, X), v := ZeroOuterLayers(g.v, Y), w := ZeroOuterLayers(g.w, Z))
  }

  lemma MarkShellIdempotent(mk: Markers)
    requires Valid(mk)
    ensures MarkShell(MarkShell(mk)) == MarkShell(mk)
  {
    Extensional(MarkShell(MarkShell(mk)), MarkShell(mk));
  }

  lemma ZeroOuterLayersIdempotent(a: Field, axis: Axis)
    requires Valid(a)
    ensures ZeroOuterLayers(ZeroOuterLayers(a, axis), axis) == ZeroOuterLayers(a, axis)
  {
    var once := ZeroOuterLayers(a, axis);
    assert Extent(once, axis) == Extent(a, axis);
    Extensional(ZeroOuterLayers(once, axis), once);
  }

  /** Enforcing the boundary a second time changes nothing. */
  lemma ApplyBoundaryConditionsIdempotent(g: Grid)
    requires WellShaped(g)
    ensures ApplyBoundaryConditions(ApplyBoundaryConditions(g)) == ApplyBoundaryConditions(g)
  {
    MarkShellIdempotent(g.marker);
    ZeroOuterLayersIdempotent(g.u, X);
    ZeroOuterLayersIdempotent(g.v, Y);
    ZeroOuterLayersIdempotent(g.w, Z);
  }
}
