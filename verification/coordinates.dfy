/** World-to-index mapping: a position becomes a base cell index and a fraction
    along each axis, and `trilerp_uvw` samples the three staggered velocity
    components at a point. The face variants work in face units; the centred
    variants shift by half a cell and clamp against the pressure dimensions. */
module Coordinates {
  import opened Dense
  import opened MacGrid

  /** C's conversion of a float to int: rounds toward zero. */
  function Trunc(x: real): (n: int)
    ensures x >= 0.0 ==> n as real <= x < n as real + 1.0
    ensures x < 0.0 ==> n as real - 1.0 < x <= n as real
  {
    if x >= 0.0 then x.Floor else -((-x).Floor)
  }

  function Clamp(x: real, lo: real, hi: real): real
  {
    if x < lo then lo else if x > hi then hi else x
  }

  /** Base index and fraction along one axis. */
  datatype Bary = Bary(index: int, frac: real)

  /** `bary_x`, `bary_y` and `bary_z`: the position in face units, its truncated
      index and the fraction above its floor. For a non-negative position the
      index is the floor and index + fraction recovers the position. */
  function BaryFace(x: real, overh: real): (b: Bary)
    ensures x * overh >= 0.0 ==>
      && b.index == (x * overh).Floor
      && 0.0 <= b.frac < 1.0
      && b.index as real + b.frac == x * overh
  {
    var sx := x * overh;
    Bary(Trunc(sx), sx - sx.Floor as real)
  }

  /** The body shared by `bary_x_centre`, `bary_y_centre` and `bary_z_centre` as
      written: the index is truncated toward zero, the upper guard compares with
      `guard - 2` and the clamp assigns `limit - 2`. */
  function ClampCentreAsWritten(s: real, guard: int, limit: int): (b: Bary)
    ensures guard == limit && limit >= 2 ==> 0 <= b.index <= limit - 2 && 0.0 <= b.frac <= 1.0
  {
    var i := Trunc(s);
    if i < 0 then Bary(0, 0.0)
    else if i > guard - 2 then Bary(limit - 2, 1.0)
    else Bary(i, s - s.Floor as real)
  }

  /** `bary_x_centre` as written: always inside [0, nx - 2] with a fraction in [0, 1]. */
  function BaryXCentreAsWritten(x: real, overh: real, pnx: int): (b: Bary)
    ensures pnx >= 2 ==> 0 <= b.index <= pnx - 2 && 0.0 <= b.frac <= 1.0
  {
    ClampCentreAsWritten(x * overh - 0.5, pnx, pnx)
  }

  /** `bary_y_centre` as written: always inside [0, ny - 2] with a fraction in [0, 1]. */
  function BaryYCentreAsWritten(y: real, overh: real, pny: int): (b: Bary)
    ensures pny >= 2 ==> 0 <= b.index <= pny - 2 && 0.0 <= b.frac <= 1.0
  {
    ClampCentreAsWritten(y * overh - 0.5, pny, pny)
  }

  /** `bary_z_centre` as written: the guard tests the y dimension, so the index is
      only kept inside [0, nz - 2] when ny <= nz. */
  function BaryZCentreAsWritten(z: real, overh: real, pny: int, pnz: int): (b: Bary)
    ensures pnz >= 2 && pny <= pnz ==> 0 <= b.index <= pnz - 2 && 0.0 <= b.frac <= 1.0
  {
    ClampCentreAsWritten(z * overh - 0.5, pny, pnz)
  }

  /** When ny > nz, a point a quarter cell below the top of the domain gets the
      z index nz - 1, one past the last usable base index. */
  lemma BaryZCentreGuardEscapes(overh: real, pny: int, pnz: int)
    requires overh > 0.0 && pnz >= 2 && pny > pnz
    ensures BaryZCentreAsWritten((pnz as real - 0.25) / overh, overh, pny, pnz).index == pnz - 1
  {
    var z := (pnz as real - 0.25) / overh;
    assert z * overh == pnz as real - 0.25;
    var s := z * overh - 0.5;
    assert s == (pnz - 1) as real + 0.25;
    assert s.Floor == pnz - 1;
  }

  /** Between the wall and the first cell centre (s in (-1, 0)) truncation gives
      index 0 with fraction s + 1, where the clamp was meant to give (0, 0). */
  lemma ClampCentreTruncationShift(s: real, dim: int)
    requires -1.0 < s < 0.0 && dim >= 2
    ensures ClampCentreAsWritten(s, dim, dim) == Bary(0, s + 1.0)
    ensures ClampCentre(s, dim) == Bary(0, 0.0)
  {
    assert (-s).Floor == 0;
    assert s.Floor == -1;
  }

  /** The centred mapping with the index taken as the floor and the guard and the
      clamp using the same dimension: index + fraction is the position clamped to
      the span [0, dim - 1] of cell centres. */
  function ClampCentre(s: real, dim: int): (b: Bary)
    ensures dim >= 2 ==> 0 <= b.index <= dim - 2 && 0.0 <= b.frac <= 1.0
    ensures dim >= 2 ==> b.index as real + b.frac == Clamp(s, 0.0, (dim - 1) as real)
  {
    var i := s.Floor;
    if i < 0 then Bary(0, 0.0)
    else if i > dim - 2 then Bary(dim - 2, 1.0)
    else Bary(i, s - i as real)
  }

  /** `bary_*_centre` with both corrections. */
  function BaryCentre(x: real, overh: real, dim: int): (b: Bary)
    ensures dim >= 2 ==> 0 <= b.index <= dim - 2 && 0.0 <= b.frac <= 1.0
  {
    ClampCentre(x * overh - 0.5, dim)
  }

  // ------------------------------------------------------------- trilerp_uvw

  /** Base cell and fractions of one trilinear sample. */
  datatype Sample = Sample(i: int, j: int, k: int, fx: real, fy: real, fz: real)

  predicate FractionsInUnit(s: Sample)
  {
    0.0 <= s.fx <= 1.0 && 0.0 <= s.fy <= 1.0 && 0.0 <= s.fz <= 1.0
  }

  /** A point whose face-unit coordinate along `axis` lies in [0, n). */
  predicate InsideAlong(p: real, overh: real, n: int)
  {
    0.0 <= p * overh < n as real
  }

  predicate CentredDims(g: Grid)
  {
    g.pressure.nx >= 2 && g.pressure.ny >= 2 && g.pressure.nz >= 2
  }

  /** Where `trilerp_uvw` samples u, with the corrected centred mapping: face units
      in x, centred in y and z. */
  function USample(g: Grid, px: real, py: real, pz: real): (s: Sample)
    requires WellShaped(g) && CentredDims(g) && InsideAlong(px, g.overh, Nx(g))
    ensures CornersInside(g.u, s.i, s.j, s.k) && FractionsInUnit(s)
  {
    var ax := BaryFace(px, g.overh);
    var ay := BaryCentre(py, g.overh, g.pressure.ny);
    var az := BaryCentre(pz, g.overh, g.pressure.nz);
    Sample(ax.index, ay.index, az.index, ax.frac, ay.frac, az.frac)
  }

  /** Where `trilerp_uvw` samples v, with the corrected centred mapping: centred in
      x and z, face units in y. */
  function VSample(g: Grid, px: real, py: real, pz: real): (s: Sample)
    requires WellShaped(g) && CentredDims(g) && InsideAlong(py, g.overh, Ny(g))
    ensures CornersInside(g.v, s.i, s.j, s.k) && FractionsInUnit(s)
  {
    var ax := BaryCentre(px, g.overh, g.pressure.nx);
    var ay := BaryFace(py, g.overh);
    var az := BaryCentre(pz, g.overh, g.pressure.nz);
    Sample(ax.index, ay.index, az.index, ax.frac, ay.frac, az.frac)
  }

  /** Where `trilerp_uvw` samples w, with the corrected centred mapping: centred in
      x and y, face units in z. */
  function WSample(g: Grid, px: real, py: real, pz: real): (s: Sample)
    requires WellShaped(g) && CentredDims(g) && InsideAlong(pz, g.overh, Nz(g))
    ensures CornersInside(g.w, s.i, s.j, s.k) && FractionsInUnit(s)
  {
    var ax := BaryCentre(px, g.overh, g.pressure.nx);
    var ay := BaryCentre(py, g.overh, g.pressure.ny);
    var az := BaryFace(pz, g.overh);
    Sample(ax.index, ay.index, az.index, ax.frac, ay.frac, az.frac)
  }

  datatype Velocity = Velocity(pu: real, pv: real, pw: real)

  /** `trilerp_uvw` with the corrected centred mappings: the three velocity
      components interpolated at a point inside the domain; every corner it reads
      lies inside its field, whatever the grid's proportions. */
  function TrilerpUVW(g: Grid, px: real, py: real, pz: real): Velocity
    requires WellShaped(g) && CentredDims(g)
    requires InsideAlong(px, g.overh, Nx(g)) && InsideAlong(py, g.overh, Ny(g)) && InsideAlong(pz, g.overh, Nz(g))
  {
    var su := USample(g, px, py, pz);
    var sv := VSample(g, px, py, pz);
    var sw := WSample(g, px, py, pz);
    Velocity(Trilerp(g.u, su.i, su.j, su.k, su.fx, su.fy, su.fz),
             Trilerp(g.v, sv.i, sv.j, sv.k, sv.fx, sv.fy, sv.fz),
             Trilerp(g.w, sw.i, sw.j, sw.k, sw.fx, sw.fy, sw.fz))
  }

  predicate Bounded(a: Field, lo: real, hi: real)
  {
    forall t | 0 <= t < |a.data| :: lo <= a.data[t] <= hi
  }

  lemma BoundedCells(a: Field, lo: real, hi: real)
    requires Valid(a) && Bounded(a, lo, hi)
    ensures forall i, j, k | InBounds(a.nx, a.ny, a.nz, i, j, k) :: lo <= At(a, i, j, k) <= hi
  {
    CoordsOfIndexAll(a.nx, a.ny, a.nz);
  }

  /** With the corrected mappings, an interpolated velocity never leaves the range
      of the field it samples. */
  lemma TrilerpUVWBounded(g: Grid, px: real, py: real, pz: real, lo: real, hi: real)
    requires WellShaped(g) && CentredDims(g)
    requires InsideAlong(px, g.overh, Nx(g)) && InsideAlong(py, g.overh, Ny(g)) && InsideAlong(pz, g.overh, Nz(g))
    requires Bounded(g.u, lo, hi) && Bounded(g.v, lo, hi) && Bounded(g.w, lo, hi)
    ensures lo <= TrilerpUVW(g, px, py, pz).pu <= hi
    ensures lo <= TrilerpUVW(g, px, py, pz).pv <= hi
    ensures lo <= TrilerpUVW(g, px, py, pz).pw <= hi
  {
    BoundedCells(g.u, lo, hi);
    BoundedCells(g.v, lo, hi);
    BoundedCells(g.w, lo, hi);
    var su := USample(g, px, py, pz);
    var sv := VSample(g, px, py, pz);
    var sw := WSample(g, px, py, pz);
    TrilerpWithinCorners(g.u, su.i, su.j, su.k, su.fx, su.fy, su.fz, lo, hi);
    TrilerpWithinCorners(g.v, sv.i, sv.j, sv.k, sv.fx, sv.fy, sv.fz, lo, hi);
    TrilerpWithinCorners(g.w, sw.i, sw.j, sw.k, sw.fx, sw.fy, sw.fz, lo, hi);
  }

  // The three samples of `trilerp_uvw` with the centred mappings as written.

  function USampleAsWritten(g: Grid, px: real, py: real, pz: real): Sample
  {
    var ax := BaryFace(px, g.overh);
    var ay := BaryYCentreAsWritten(py, g.overh, g.pressure.ny);
    var az := BaryZCentreAsWritten(pz, g.overh, g.pressure.ny, g.pressure.nz);
    Sample(ax.index, ay.index, az.index, ax.frac, ay.frac, az.frac)
  }

  function VSampleAsWritten(g: Grid, px: real, py: real, pz: real): Sample
  {
    var ax := BaryXCentreAsWritten(px, g.overh, g.pressure.nx);
    var ay := BaryFace(py, g.overh);
    var az := BaryZCentreAsWritten(pz, g.overh, g.pressure.ny, g.pressure.nz);
    Sample(ax.index, ay.index, az.index, ax.frac, ay.frac, az.frac)
  }

  function WSampleAsWritten(g: Grid, px: real, py: real, pz: real): Sample
  {
    var ax := BaryXCentreAsWritten(px, g.overh, g.pressure.nx);
    var ay := BaryYCentreAsWritten(py, g.overh, g.pressure.ny);
    var az := BaryFace(pz, g.overh);
    Sample(ax.index, ay.index, az.index, ax.frac, ay.frac, az.frac)
  }

  /** As written, every corner read of `trilerp_uvw` stays inside u, v and w for a
      point inside the domain, provided ny <= nz. */
  lemma AsWrittenSamplesInside(g: Grid, px: real, py: real, pz: real)
    requires WellShaped(g) && CentredDims(g) && Ny(g) <= Nz(g)
    requires InsideAlong(px, g.overh, Nx(g)) && InsideAlong(py, g.overh, Ny(g)) && InsideAlong(pz, g.overh, Nz(g))
    ensures CornersInside(g.u, USampleAsWritten(g, px, py, pz).i, USampleAsWritten(g, px, py, pz).j,
                          USampleAsWritten(g, px, py, pz).k)
    ensures CornersInside(g.v, VSampleAsWritten(g, px, py, pz).i, VSampleAsWritten(g, px, py, pz).j,
                          VSampleAsWritten(g, px, py, pz).k)
    ensures CornersInside(g.w, WSampleAsWritten(g, px, py, pz).i, WSampleAsWritten(g, px, py, pz).j,
                          WSampleAsWritten(g, px, py, pz).k)
    ensures FractionsInUnit(USampleAsWritten(g, px, py, pz))
    ensures FractionsInUnit(VSampleAsWritten(g, px, py, pz))
    ensures FractionsInUnit(WSampleAsWritten(g, px, py, pz))
  {
  }

  /** `trilerp_uvw` as written, for a point inside the domain of a grid with
      ny <= nz, where every corner it reads exists. */
  function TrilerpUVWAsWritten(g: Grid, px: real, py: real, pz: real): Velocity
    requires WellShaped(g) && CentredDims(g) && Ny(g) <= Nz(g)
    requires InsideAlong(px, g.overh, Nx(g)) && InsideAlong(py, g.overh, Ny(g)) && InsideAlong(pz, g.overh, Nz(g))
  {
    AsWrittenSamplesInside(g, px, py, pz);
    var su := USampleAsWritten(g, px, py, pz);
    var sv := VSampleAsWritten(g, px, py, pz);
    var sw := WSampleAsWritten(g, px, py, pz);
    Velocity(Trilerp(g.u, su.i, su.j, su.k, su.fx, su.fy, su.fz),
             Trilerp(g.v, sv.i, sv.j, sv.k, sv.fx, sv.fy, sv.fz),
             Trilerp(g.w, sw.i, sw.j, sw.k, sw.fx, sw.fy, sw.fz))
  }

  /** As written too, an interpolated velocity never leaves the range of the field
      it samples: the truncation shift moves the sample point but keeps every
      fraction in [0, 1]. */
  lemma TrilerpUVWAsWrittenBounded(g: Grid, px: real, py: real, pz: real, lo: real, hi: real)
    requires WellShaped(g) && CentredDims(g) && Ny(g) <= Nz(g)
    requires InsideAlong(px, g.overh, Nx(g)) && InsideAlong(py, g.overh, Ny(g)) && InsideAlong(pz, g.overh, Nz(g))
    requires Bounded(g.u, lo, hi) && Bounded(g.v, lo, hi) && Bounded(g.w, lo, hi)
    ensures lo <= TrilerpUVWAsWritten(g, px, py, pz).pu <= hi
    ensures lo <= TrilerpUVWAsWritten(g, px, py, pz).pv <= hi
    ensures lo <= TrilerpUVWAsWritten(g, px, py, pz).pw <= hi
  {
    AsWrittenSamplesInside(g, px, py, pz);
    BoundedCells(g.u, lo, hi);
    BoundedCells(g.v, lo, hi);
    BoundedCells(g.w, lo, hi);
    var su := USampleAsWritten(g, px, py, pz);
    var sv := VSampleAsWritten(g, px, py, pz);
    var sw := WSampleAsWritten(g, px, py, pz);
    TrilerpWithinCorners(g.u, su.i, su.j, su.k, su.fx, su.fy, su.fz, lo, hi);
    TrilerpWithinCorners(g.v, sv.i, sv.j, sv.k, sv.fx, sv.fy, sv.fz, lo, hi);
    TrilerpWithinCorners(g.w, sw.i, sw.j, sw.k, sw.fx, sw.fy, sw.fz, lo, hi);
  }

  /** When ny > nz the u sample as written reaches past the last z layer of u. */
  lemma AsWrittenUSampleEscapes(g: Grid, px: real, py: real)
    requires WellShaped(g) && CentredDims(g) && Ny(g) > Nz(g) && g.overh > 0.0
    ensures !CornersInside(g.u, USampleAsWritten(g, px, py, (Nz(g) as real - 0.25) / g.overh).i,
                           USampleAsWritten(g, px, py, (Nz(g) as real - 0.25) / g.overh).j,
                           USampleAsWritten(g, px, py, (Nz(g) as real - 0.25) / g.overh).k)
  {
    BaryZCentreGuardEscapes(g.overh, Ny(g), Nz(g));
  }
}
