/** The distance-to-fluid level set: seeding, the local update of one cell from
    its three upwind neighbours, and the eight-direction fast sweeping passes.
    The closed-form two- and three-neighbour solutions of the update involve a
    square root; they enter as parameters (`LocalSolver`), so only the sorting,
    the escalation between the three cases and the min-update are modelled. */
module LevelSet {
  import opened Dense
  import opened MacGrid

  /** `init_phi`'s sentinel: an overestimate of any distance on the grid. */
  function LargeDistance(nx: int, ny: int, nz: int): real
  {
    (nx + ny + nz + 2) as real
  }

  /** The cells `init_phi` seeds inside the fluid: x and y exclude the outer
      layers, z starts at 0 and stops before the last layer. */
  predicate Seeded(nx: int, ny: int, nz: int, i: int, j: int, k: int)
  {
    1 <= i <= nx - 2 && 1 <= j <= ny - 2 && 0 <= k <= nz - 2
  }

  /** `init_phi`: -0.5 at FLUID cells of the seeded range, the sentinel everywhere
      else; nothing but phi changes. */
  function InitPhi(g: Grid): (r: Grid)
    requires WellShaped(g)
    ensures WellShaped(r) && r == g.(phi := r.phi)
    ensures forall i, j, k | InBounds(Nx(g), Ny(g), Nz(g), i, j, k) ::
      At(r.phi, i, j, k) == (if Seeded(Nx(g), Ny(g), Nz(g), i, j, k) && At(g.marker, i, j, k) == Fluid
                             then -0.5 else LargeDistance(Nx(g), Ny(g), Nz(g)))
  {
    var nx, ny, nz := Nx(g), Ny(g), Nz(g);
    var large := LargeDistance(nx, ny, nz);
    g.(phi := Build(nx, ny, nz, (i, j, k) requires InBounds(nx, ny, nz, i, j, k) =>
      if Seeded(nx, ny, nz, i, j, k) && At(g.marker, i, j, k) == Fluid then -0.5 else large))
  }

  // ------------------------------------------------------------ solve_distance

  function Min(a: real, b: real): real { if a <= b then a else b }
  function Max(a: real, b: real): real { if a <= b then b else a }

  /** Three values in ascending order. */
  datatype Sorted3 = Sorted3(lo: real, mid: real, hi: real)

  /** The min / mid / max selection at the head of `solve_distance`: a sorted
      permutation of its arguments. */
  function SortThree(p: real, q: real, t: real): (s: Sorted3)
    ensures s.lo <= s.mid <= s.hi
  {
    var pqMin := Min(p, q);
    var pqMax := Max(p, q);
    Sorted3(Min(t, pqMin), Max(pqMin, Min(pqMax, t)), Max(t, pqMax))
  }

  /** The selection is a permutation of its arguments. */
  lemma SortThreePermutes(p: real, q: real, t: real)
    ensures var s := SortThree(p, q, t); multiset{s.lo, s.mid, s.hi} == multiset{p, q, t}
  {
    if p <= q {
      if q <= t {
        assert SortThree(p, q, t) == Sorted3(p, q, t);
      } else if p <= t {
        assert SortThree(p, q, t) == Sorted3(p, t, q);
        assert multiset{p, t, q} == multiset{p, q, t};
      } else {
        assert SortThree(p, q, t) == Sorted3(t, p, q);
        assert multiset{t, p, q} == multiset{p, q, t};
      }
    } else {
      if p <= t {
        assert SortThree(p, q, t) == Sorted3(q, p, t);
        assert multiset{q, p, t} == multiset{p, q, t};
      } else if q <= t {
        assert SortThree(p, q, t) == Sorted3(q, t, p);
        assert multiset{q, t, p} == multiset{p, q, t};
      } else {
        assert SortThree(p, q, t) == Sorted3(t, q, p);
        assert multiset{t, q, p} == multiset{p, q, t};
      }
    }
  }

  /** There is only one sorted arrangement of three values. */
  lemma SortedArrangementUnique(a: Sorted3, b: Sorted3)
    requires a.lo <= a.mid <= a.hi && b.lo <= b.mid <= b.hi
    requires multiset{a.lo, a.mid, a.hi} == multiset{b.lo, b.mid, b.hi}
    ensures a == b
  {
    var m := multiset{a.lo, a.mid, a.hi};
    assert b.lo in m && b.mid in m && b.hi in m;
    assert a.lo in multiset{b.lo, b.mid, b.hi};
    assert a.hi in multiset{b.lo, b.mid, b.hi};
    assert a.lo == b.lo;
    assert a.hi == b.hi;
    assert multiset{a.lo, a.mid, a.hi} - multiset{a.lo, a.hi} == multiset{a.mid};
    assert multiset{b.lo, b.mid, b.hi} - multiset{b.lo, b.hi} == multiset{b.mid};
  }

  /** The closed-form solutions of the two- and three-neighbour cases. */
  datatype LocalSolver = LocalSolver(two: (real, real) -> real, three: (real, real, real) -> real)

  /** The candidate distance: one more than the smallest neighbour, escalating to
      the two-neighbour solution when that passes the middle value and to the
      three-neighbour solution when that in turn passes the largest. */
  function Candidate(p: real, q: real, t: real, solver: LocalSolver): (d: real)
    ensures SortThree(p, q, t).lo + 1.0 <= SortThree(p, q, t).mid ==> d == SortThree(p, q, t).lo + 1.0
  {
    var s := SortThree(p, q, t);
    var d := s.lo + 1.0;
    if d > s.mid then
      var d2 := solver.two(s.lo, s.mid);
      if d2 > s.hi then solver.three(s.lo, s.mid, s.hi) else d2
    else d
  }

  /** `solve_distance(p, q, t, r)`: the cell value becomes the smaller of itself and
      the candidate; it never increases. */
  function SolveDistance(p: real, q: real, t: real, r: real, solver: LocalSolver): (r': real)
    ensures r' <= r && r' <= Candidate(p, q, t, solver)
    ensures r' == r || r' == Candidate(p, q, t, solver)
  {
    var d := Candidate(p, q, t, solver);
    if d < r then d else r
  }

  // Permuting the arguments does not change the sorted arrangement.
  lemma SortThreeSwapFirst(p: real, q: real, t: real)
    ensures SortThree(q, p, t) == SortThree(p, q, t)
  {
  }

  lemma SortThreeSwapOuter(p: real, q: real, t: real)
    ensures SortThree(t, q, p) == SortThree(p, q, t)
  {
  }

  lemma SortThreeSwapLast(p: real, q: real, t: real)
    ensures SortThree(p, t, q) == SortThree(p, q, t)
  {
  }

  /** The update does not depend on the order in which the neighbours are passed. */
  lemma SolveDistanceSymmetric(p: real, q: real, t: real, r: real, solver: LocalSolver)
    ensures SolveDistance(p, q, t, r, solver) == SolveDistance(q, p, t, r, solver)
    ensures SolveDistance(p, q, t, r, solver) == SolveDistance(t, q, p, r, solver)
    ensures SolveDistance(p, q, t, r, solver) == SolveDistance(p, t, q, r, solver)
  {
    SortThreeSwapFirst(p, q, t);
    SortThreeSwapOuter(p, q, t);
    SortThreeSwapLast(p, q, t);
  }

  // ----------------------------------------------------------------- sweep_phi

  /** Loop direction of one pass along each axis: +1 sweeps upward and reads the
      neighbour below, -1 sweeps downward and reads the neighbour above. */
  datatype Direction = Direction(di: int, dj: int, dk: int)

  predicate Unit(d: int) { d == 1 || d == -1 }

  /** lo, lo + 1, ..., hi - 1 */
  function Ascending(lo: int, hi: int): (r: seq<int>)
    ensures |r| == (if lo < hi then hi - lo else 0)
    ensures forall n | 0 <= n < |r| :: r[n] == lo + n
    decreases hi - lo
  {
    if lo >= hi then [] else [lo] + Ascending(lo + 1, hi)
  }

  /** hi, hi - 1, ..., lo */
  function Descending(hi: int, lo: int): (r: seq<int>)
    ensures |r| == (if lo <= hi then hi - lo + 1 else 0)
    ensures forall n | 0 <= n < |r| :: r[n] == hi - n
    decreases hi - lo
  {
    if hi < lo then [] else [hi] + Descending(hi - 1, lo)
  }

  /** The loop order along one axis of n cells: `for(x=1; x<n; ++x)` upward,
      `for(x=n-2; x>=0; --x)` downward. Every x of 1..n-1 (upward) or of
      n-2..0 (downward) is visited once, in loop order, and each visited cell and
      its upwind neighbour lie in [0, n). */
  function Order(n: int, d: int): (r: seq<int>)
    requires Unit(d)
    ensures forall m | 0 <= m < |r| :: 0 <= r[m] < n && 0 <= r[m] - d < n
    ensures d == 1 ==> |r| == (if n >= 2 then n - 1 else 0) && forall m | 0 <= m < |r| :: r[m] == 1 + m
    ensures d == -1 ==> |r| == (if n >= 2 then n - 1 else 0) && forall m | 0 <= m < |r| :: r[m] == n - 2 - m
  {
    if d == 1 then Ascending(1, n) else Descending(n - 2, 0)
  }

  /** The visits of one pass: j outermost, then i, then k. */
  function Visits(ys: seq<int>, xs: seq<int>, zs: seq<int>): (r: seq<(int, int, int)>)
    ensures forall m | 0 <= m < |r| :: r[m].0 in xs && r[m].1 in ys && r[m].2 in zs
  {
    if |ys| == 0 then [] else Row(ys[0], xs, zs) + Visits(ys[1..], xs, zs)
  }

  function Row(j: int, xs: seq<int>, zs: seq<int>): (r: seq<(int, int, int)>)
    ensures forall m | 0 <= m < |r| :: r[m].0 in xs && r[m].1 == j && r[m].2 in zs
  {
    if |xs| == 0 then [] else seq(|zs|, n requires 0 <= n < |zs| => (xs[0], j, zs[n])) + Row(j, xs[1..], zs)
  }

  /** A cell that a pass in direction `dir` may update: it and its three upwind
      neighbours lie in the block. */
  predicate Visitable(nx: int, ny: int, nz: int, c: (int, int, int), dir: Direction)
  {
    && InBounds(nx, ny, nz, c.0, c.1, c.2)
    && InBounds(nx, ny, nz, c.0 - dir.di, c.1, c.2)
    && InBounds(nx, ny, nz, c.0, c.1 - dir.dj, c.2)
    && InBounds(nx, ny, nz, c.0, c.1, c.2 - dir.dk)
  }

  /** phi nowhere larger than before, and unchanged at every FLUID cell. */
  ghost predicate Lowered(before: Field, after: Field, marker: Markers)
    requires Valid(before) && Valid(after) && HasShape(marker, before.nx, before.ny, before.nz)
    requires after.nx == before.nx && after.ny == before.ny && after.nz == before.nz
  {
    && (forall i, j, k | InBounds(before.nx, before.ny, before.nz, i, j, k) ::
          At(after, i, j, k) <= At(before, i, j, k))
    && (forall i, j, k | InBounds(before.nx, before.ny, before.nz, i, j, k) && At(marker, i, j, k) == Fluid ::
          At(after, i, j, k) == At(before, i, j, k))
  }

  /** One visit of a pass: a non-FLUID cell takes `solve_distance` of its three
      upwind neighbours and itself. Only that cell can change, and it cannot
      grow. */
  function Visit(phi: Field, marker: Markers, c: (int, int, int), dir: Direction, solver: LocalSolver): (r: Field)
    requires Valid(phi) && HasShape(marker, phi.nx, phi.ny, phi.nz)
    requires Visitable(phi.nx, phi.ny, phi.nz, c, dir)
    ensures Valid(r) && SameShape(r, phi)
    ensures Lowered(phi, r, marker)
    ensures forall i, j, k | InBounds(phi.nx, phi.ny, phi.nz, i, j, k) && (i, j, k) != c ::
      At(r, i, j, k) == At(phi, i, j, k)
    ensures At(marker, c.0, c.1, c.2) != Fluid ==>
      At(r, c.0, c.1, c.2) ==
        SolveDistance(At(phi, c.0 - dir.di, c.1, c.2), At(phi, c.0, c.1 - dir.dj, c.2),
                      At(phi, c.0, c.1, c.2 - dir.dk), At(phi, c.0, c.1, c.2), solver)
  {
    if At(marker, c.0, c.1, c.2) != Fluid then
      Set(phi, c.0, c.1, c.2,
          SolveDistance(At(phi, c.0 - dir.di, c.1, c.2), At(phi, c.0, c.1 - dir.dj, c.2),
                        At(phi, c.0, c.1, c.2 - dir.dk), At(phi, c.0, c.1, c.2), solver))
    else phi
  }

  /** The in-place updates of one pass, in visiting order: each non-FLUID cell is
      updated from the current (possibly already updated) values of its upwind
      neighbours. */
  function Relax(phi: Field, marker: Markers, visits: seq<(int, int, int)>, dir: Direction, solver: LocalSolver): (r: Field)
    requires Valid(phi) && HasShape(marker, phi.nx, phi.ny, phi.nz)
    requires forall m | 0 <= m < |visits| :: Visitable(phi.nx, phi.ny, phi.nz, visits[m], dir)
    ensures Valid(r) && SameShape(r, phi)
    ensures Lowered(phi, r, marker)
    decreases |visits|
  {
    if |visits| == 0 then phi
    else
      var next := Visit(phi, marker, visits[0], dir, solver);
      assert forall m | 0 <= m < |visits[1..]| :: visits[1..][m] == visits[m + 1];
      var r := Relax(next, marker, visits[1..], dir, solver);
      LoweredTrans(phi, next, r, marker);
      r
  }

  /** One of the eight passes of `sweep_phi` over the whole block. */
  function Pass(phi: Field, marker: Markers, dir: Direction, solver: LocalSolver): (r: Field)
    requires Valid(phi) && HasShape(marker, phi.nx, phi.ny, phi.nz)
    requires Unit(dir.di) && Unit(dir.dj) && Unit(dir.dk)
    ensures Valid(r) && SameShape(r, phi)
    ensures Lowered(phi, r, marker)
  {
    var visits := Visits(Order(phi.ny, dir.dj), Order(phi.nx, dir.di), Order(phi.nz, dir.dk));
    Relax(phi, marker, visits, dir, solver)
  }

  /** The eight pass directions of `sweep_phi`, in its order: every octant once. */
  function SweepDirections(): (ds: seq<Direction>)
    ensures |ds| == 8
    ensures forall n | 0 <= n < |ds| :: Unit(ds[n].di) && Unit(ds[n].dj) && Unit(ds[n].dk)
    ensures forall a, b, c | Unit(a) && Unit(b) && Unit(c) :: Direction(a, b, c) in ds
    ensures forall m, n | 0 <= m < n < |ds| :: ds[m] != ds[n]
  {
    [Direction(1, 1, 1), Direction(1, -1, 1), Direction(-1, 1, 1), Direction(-1, -1, 1),
     Direction(1, 1, -1), Direction(1, -1, -1), Direction(-1, 1, -1), Direction(-1, -1, -1)]
  }

  /** Lowering is transitive. */
  lemma LoweredTrans(a: Field, b: Field, c: Field, marker: Markers)
    requires Valid(a) && Valid(b) && Valid(c) && SameShape(b, a) && SameShape(c, a)
    requires HasShape(marker, a.nx, a.ny, a.nz)
    requires Lowered(a, b, marker) && Lowered(b, c, marker)
    ensures Lowered(a, c, marker)
  {
  }

  function Passes(phi: Field, marker: Markers, dirs: seq<Direction>, solver: LocalSolver): (r: Field)
    requires Valid(phi) && HasShape(marker, phi.nx, phi.ny, phi.nz)
    requires forall n | 0 <= n < |dirs| :: Unit(dirs[n].di) && Unit(dirs[n].dj) && Unit(dirs[n].dk)
    ensures Valid(r) && SameShape(r, phi)
    ensures Lowered(phi, r, marker)
    decreases |dirs|
  {
    if |dirs| == 0 then phi
    else
      var next := Pass(phi, marker, dirs[0], solver);
      var r := Passes(next, marker, dirs[1..], solver);
      LoweredTrans(phi, next, r, marker);
      r
  }

  /** `sweep_phi`: the eight passes in turn. FLUID cells keep their value and no
      value increases; nothing but phi changes. */
  function SweepPhi(g: Grid, solver: LocalSolver): (r: Grid)
    requires WellShaped(g)
    ensures WellShaped(r) && r == g.(phi := r.phi)
    ensures Lowered(g.phi, r.phi, g.marker)
  {
    g.(phi := Sweep(g.phi, g.marker, solver))
  }

  /** The eight passes of one `sweep_phi` on the distance field alone. */
  function Sweep(phi: Field, marker: Markers, solver: LocalSolver): (r: Field)
    requires Valid(phi) && HasShape(marker, phi.nx, phi.ny, phi.nz)
    ensures Valid(r) && SameShape(r, phi)
    ensures Lowered(phi, r, marker)
  {
    Passes(phi, marker, SweepDirections(), solver)
  }

  /** The eight passes repeated `n` times on the distance field alone. */
  function Repeat(phi: Field, marker: Markers, n: nat, solver: LocalSolver): (r: Field)
    requires Valid(phi) && HasShape(marker, phi.nx, phi.ny, phi.nz)
    ensures Valid(r) && SameShape(r, phi)
    ensures Lowered(phi, r, marker)
    decreases n
  {
    if n == 0 then phi
    else
      var next := Sweep(phi, marker, solver);
      var r := Repeat(next, marker, n - 1, solver);
      LoweredTrans(phi, next, r, marker);
      r
  }

  /** `sweep_phi` repeated `n` times. */
  function SweepPhiTimes(g: Grid, n: nat, solver: LocalSolver): (r: Grid)
    requires WellShaped(g)
    ensures WellShaped(r) && r == g.(phi := r.phi)
    ensures Lowered(g.phi, r.phi, g.marker)
  {
    g.(phi := Repeat(g.phi, g.marker, n, solver))
  }

  /** Whatever lowering follows the seeding keeps every cell at or below the
      sentinel and leaves the FLUID cells at their seeded values. */
  lemma LoweredSeeds(g: Grid, phi: Field)
    requires WellShaped(g) && Valid(phi) && SameShape(phi, InitPhi(g).phi)
    requires Lowered(InitPhi(g).phi, phi, g.marker)
    ensures forall i, j, k | InBounds(Nx(g), Ny(g), Nz(g), i, j, k) ::
      At(phi, i, j, k) <= LargeDistance(Nx(g), Ny(g), Nz(g))
    ensures forall i, j, k | InBounds(Nx(g), Ny(g), Nz(g), i, j, k) && At(g.marker, i, j, k) == Fluid ::
      At(phi, i, j, k) == (if Seeded(Nx(g), Ny(g), Nz(g), i, j, k) then -0.5 else LargeDistance(Nx(g), Ny(g), Nz(g)))
  {
    var seeded := InitPhi(g).phi;
    var nx, ny, nz := Nx(g), Ny(g), Nz(g);
    assert seeded.nx == nx && seeded.ny == ny && seeded.nz == nz;
    forall i, j, k | InBounds(nx, ny, nz, i, j, k)
      ensures At(phi, i, j, k) <= LargeDistance(nx, ny, nz)
    {
      assert At(phi, i, j, k) <= At(seeded, i, j, k);
    }
  }

  /** `compute_distance_to_fluid`: seed, then eight sweeps. The seeded FLUID cells
      stay at -0.5, other FLUID cells at the sentinel, and no cell ends above the
      sentinel. */
  function ComputeDistanceToFluid(g: Grid, solver: LocalSolver): (r: Grid)
    requires WellShaped(g)
    ensures WellShaped(r) && r == g.(phi := r.phi)
    ensures Lowered(InitPhi(g).phi, r.phi, g.marker)
    ensures forall i, j, k | InBounds(Nx(g), Ny(g), Nz(g), i, j, k) ::
      At(r.phi, i, j, k) <= LargeDistance(Nx(g), Ny(g), Nz(g))
    ensures forall i, j, k | InBounds(Nx(g), Ny(g), Nz(g), i, j, k) && At(g.marker, i, j, k) == Fluid ::
      At(r.phi, i, j, k) == (if Seeded(Nx(g), Ny(g), Nz(g), i, j, k) then -0.5 else LargeDistance(Nx(g), Ny(g), Nz(g)))
  {
    var seeded := InitPhi(g);
    var r := SweepPhiTimes(seeded, 8, solver);
    LoweredSeeds(g, r.phi);
    g.(phi := r.phi)
  }
}
