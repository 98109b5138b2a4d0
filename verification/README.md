# MAC-grid fluid solver core in Dafny

This project models the Eulerian half of a small FLIP/PIC fluid simulator.
Velocities live on a staggered marker-and-cell (MAC) grid: `u` on the faces
normal to x, `v` on the faces normal to y, and `w` on the faces normal to z.
Every cell is classified as AIR, FLUID or SOLID. The grid provides the
following operations:

- allocation (`init`);
- uniform gravity;
- a snapshot of the velocities, and the velocity delta since that snapshot;
- boundary enforcement: SOLID shell, zero normal velocity near the walls;
- the distance-to-fluid level set: seeding plus eight-direction fast sweeping;
- the boundary copies of velocity extrapolation;
- the pressure projection pieces:
  - the divergence;
  - the 7-point Poisson matrix and its product with a vector;
  - the early exit of the pressure solve;
  - the pressure-gradient update;
- world-to-index mapping (`bary_*`) and trilinear sampling of the three velocity
  components (`trilerp_uvw`).

Underneath all of this is the dense 3-D array (`Array3`, addressed
`i + nx*(j + ny*k)`) and the per-cell 4-slot array (`Array3x4`) that stores
the Poisson coefficients.

The model is functional. Arrays are immutable values: a shape plus a flat
sequence. Every in-place operation becomes a function that returns the new
array or the new `Grid` record. Each such function states in its contract
what it changes and that every other field stays as it was
(`r == g.(phi := r.phi)`). Floats and doubles are modelled as mathematical
reals. C's float-to-int cast is modelled explicitly as truncation toward
zero (`Coordinates.Trunc`).

Modules follow the C++ files:

| module | models |
|---|---|
| `Dense` | `array3.h`: `Array3` and `Array3x4`, addressing and the vector operations |
| `MacGrid` | `grid.h`/`grid.cpp`: cell tags, the `Grid` record, `init`, `add_gravity`, `save_velocities`, `get_velocity_update`, `apply_boundary_conditions` |
| `Coordinates` | `grid.h`: `bary_x`/`y`/`z`, the `_centre` variants, `trilerp_uvw` |
| `LevelSet` | `grid.cpp`: `init_phi`, `solve_distance`, `sweep_phi`, `compute_distance_to_fluid` |
| `Extrapolation` | `grid.cpp`: the boundary-layer copies of `sweep_velocity` |
| `Projection` | `grid.cpp`: `find_divergence`, `form_poisson`, `apply_poisson`, start of `solve_pressure`, `add_gradient` |

## Model

| member | source | states |
|---|---|---|
| Dense.IndexInRange | array3.h:42-46 | Every in-bounds (i, j, k) addresses an element inside the `nx*ny*nz` buffer. |
| Dense.CoordsOfIndex | array3.h:42-46 | Decoding a flat address recovers the i, j and k it was computed from. |
| Dense.IndexOfCoords | array3.h:42-46 | Conversely, every buffer position is the address of an in-bounds cell, and re-encoding its decoded coordinates gives the position back. |
| Dense.IndexInjective | array3.h:42-46 | Two different in-bounds cells never share storage. |
| Dense.CoordsOfIndexAll | array3.h:42-46 | The two facts above (address in range, coordinates recovered) hold for every in-bounds cell of a given shape at once. |
| Dense.Set | array3.h:45-46 | Writing through `operator()` gives that cell the new value and leaves every other cell and the shape unchanged. |
| Dense.Extensional | array3.h:42-46 | Two arrays of the same shape that agree at every cell are the same array. |
| Dense.Init | array3.h:22-31 | `init` allocates `nx*ny*nz` elements, all zero. |
| Dense.Zero | array3.h:69-70 | Every element becomes zero and the shape is kept. |
| Dense.CopyTo | array3.h:58-59 | The destination keeps its own shape and takes the source's elements one for one. |
| Dense.InfNorm | array3.h:61-67 | The result is non-negative and bounds every magnitude. It is attained by some element when the array is non-empty. It is zero exactly when every element is zero. |
| Dense.InfNormUnique | array3.h:61-67 | Those properties pin the largest magnitude down: two values that both satisfy them are equal. |
| Dense.Dot | array3.h:72-78 | The loop accumulates the sum of element-wise products over the receiver's size. |
| Dense.DotSymmetric | array3.h:72-78 | `a.dot(b) == b.dot(a)`. |
| Dense.DotSelfNonNegative | array3.h:72-78 | `a.dot(a) >= 0`. |
| Dense.Increment | array3.h:80-81 | Each element gains `scale` times the matching element of the other array; the shape is kept. |
| Dense.IncrementUndone | array3.h:80-81 | Incrementing by `-scale` undoes an increment by `scale`. |
| Dense.ScaleAndIncrement | array3.h:83-84 | Each element becomes `scale` times itself plus the matching element of the other array. |
| Dense.ScaleAndIncrementIsIncrement | array3.h:80-84 | `s.scale_and_increment(beta, z)` leaves in `s` exactly what `z.increment(beta, s)` would leave in `z`. |
| Dense.Trilerp | array3.h:48-56 | Trilinear interpolation with all fractions 0 returns corner (i, j, k); with all fractions 1 it returns corner (i+1, j+1, k+1). |
| Dense.TrilerpWithinCorners | array3.h:48-56 | With fractions in [0, 1], the interpolated value lies within any bounds that hold at the eight corners. |
| Dense.Init4AsWritten | array3.h:105-114 | As written, `Array3x4::init` allocates `3*nx*ny*nz` zeroed slots. |
| Dense.Init4AsWrittenOverruns | array3.h:105-129 | With that allocation, slot 3 of the last cell is addressed past the end of the buffer. |
| Dense.Init4AsWrittenPoissonOverrun | array3.h:105-129 | On a 10×10×10 grid, slot 0 of interior cell (8, 8, 8), the diagonal `form_poisson` increments when that cell is FLUID and a neighbour is not SOLID, is address 3552, past the 3000 slots of that allocation. |
| Dense.Init4 | array3.h:105-114 | With the intended 4 slots per cell, every addressable slot exists and all of them are zero. |
| Dense.Index4InRange | array3.h:125-129 | Slot l of cell (i, j, k) lies inside `4*nx*ny*nz`. The slot's address divided by 4 gives the cell's `Array3` address, and the remainder gives l, so slots never collide. |
| Dense.Index4InRangeAll | array3.h:125-129 | The same fact, for every in-bounds cell and every slot at once. |
| Dense.Zero4 | array3.h:131-132 | Every slot becomes zero and the shape is kept. |
| MacGrid.Init | grid.cpp:17-41 | The fields get the staggered shapes: u is (nx+1)×ny×nz, v is nx×(ny+1)×nz, w is nx×ny×(nz+1), and everything else is nx×ny×nz. `poisson` gets 4 slots per cell, the size its addressing in array3.h needs, not the 3 that array3.h:111 allocates. All values are zero and every cell is AIR (tag 0). The spacing satisfies `h*overh == 1`, `h*nx == lx` and `ly == h*ny`. |
| MacGrid.AddGravity | grid.cpp:61-113 | In the uniform branch, every v entry decreases by `dt*gravity`; nothing else changes. |
| MacGrid.AddGravityAccumulates | grid.cpp:108-112 | Two gravity steps of dt1 and dt2 equal one step of dt1 + dt2. |
| MacGrid.SaveVelocities | grid.cpp:51-57 | du, dv and dw receive exact copies of u, v and w; nothing else changes. |
| MacGrid.GetVelocityUpdate | grid.cpp:166-176 | Each of du, dv and dw becomes the current velocity minus its stored value; nothing else changes. |
| MacGrid.VelocityUpdateIsDelta | grid.cpp:166-176 | Take a grid that was snapshotted with `save_velocities` and has since changed only its velocities. `get_velocity_update` then yields exactly the velocity change since the snapshot. |
| MacGrid.MarkShell | grid.cpp:134-143 | Every cell on the outer shell becomes SOLID and every interior cell keeps its tag. |
| MacGrid.ZeroOuterLayers | grid.cpp:144-153 | The two outermost layers at each end of the component's own axis become zero; all other values are kept. |
| MacGrid.ApplyBoundaryConditions | grid.cpp:130-154 | The markers get the SOLID shell, and u, v and w get their outer layers zeroed along x, y and z respectively. Nothing else changes. |
| MacGrid.MarkShellIdempotent | grid.cpp:134-143 | Marking the shell twice is the same as marking it once. |
| MacGrid.ZeroOuterLayersIdempotent | grid.cpp:144-153 | Zeroing the outer layers twice is the same as zeroing them once. |
| MacGrid.ApplyBoundaryConditionsIdempotent | grid.cpp:130-154 | Applying the boundary conditions a second time changes nothing. |
| Coordinates.Trunc | grid.h:52-57 | The `(int)` cast gives the integer at or below a non-negative value and at or above a negative one, within one unit. |
| Coordinates.BaryFace | grid.h:52-57 | For a non-negative position in face units, the index is its floor, the fraction is in [0, 1), and index + fraction is the position. |
| Coordinates.ClampCentreAsWritten | grid.h:59-66 | When the guard and the clamp use the same dimension d ≥ 2, the index lands in [0, d-2] and the fraction in [0, 1]. |
| Coordinates.BaryXCentreAsWritten | grid.h:59-66 | `bary_x_centre` always yields an index in [0, nx-2] and a fraction in [0, 1]. |
| Coordinates.BaryYCentreAsWritten | grid.h:75-82 | `bary_y_centre` always yields an index in [0, ny-2] and a fraction in [0, 1]. |
| Coordinates.BaryZCentreAsWritten | grid.h:91-98 | `bary_z_centre` as written keeps the index in [0, nz-2] only when ny ≤ nz, because its guard tests ny. |
| Coordinates.BaryZCentreGuardEscapes | grid.h:91-98 | When ny > nz, the position z = (nz - 0.25)·h passes the guard and yields index nz-1, which has no upper neighbour. |
| Coordinates.ClampCentreTruncationShift | grid.h:59-66 | For a shifted position s in (-1, 0), the code as written returns index 0 with fraction s+1 (a point above cell 0). The corrected clamp returns index 0 with fraction 0. |
| Coordinates.ClampCentre | grid.h:59-66 | The corrected centred mapping: index + fraction equals the position clamped to [0, d-1], with index in [0, d-2] and fraction in [0, 1]. |
| Coordinates.BaryCentre | grid.h:59-98 | The corrected centred mapping of a world position keeps the index in [0, d-2] and the fraction in [0, 1]. |
| Coordinates.USample | grid.h:100-109 | With the corrected centred mappings, for a point inside the domain, the u sample's eight corners exist in u and its fractions are in [0, 1]. |
| Coordinates.VSample | grid.h:100-115 | With the corrected centred mappings, for a point inside the domain, the v sample's eight corners exist in v and its fractions are in [0, 1]. |
| Coordinates.WSample | grid.h:100-121 | With the corrected centred mappings, for a point inside the domain, the w sample's eight corners exist in w and its fractions are in [0, 1]. |
| Coordinates.TrilerpUVW | grid.h:100-122 | `trilerp_uvw` with the corrected centred mappings. It has no contract of its own; its bounds are stated by `Coordinates.TrilerpUVWBounded`. |
| Coordinates.TrilerpUVWBounded | grid.h:100-122 | With the corrected centred mappings, each sampled component lies within any bounds that hold over its whole velocity field. |
| Coordinates.USampleAsWritten | grid.h:100-109 | Where `trilerp_uvw` samples u with `bary_y_centre` and `bary_z_centre` as written. No contract of its own; see `Coordinates.AsWrittenSamplesInside` and `Coordinates.AsWrittenUSampleEscapes`. |
| Coordinates.VSampleAsWritten | grid.h:100-115 | Where `trilerp_uvw` samples v with `bary_x_centre` and `bary_z_centre` as written. No contract of its own; see `Coordinates.AsWrittenSamplesInside`. |
| Coordinates.WSampleAsWritten | grid.h:100-121 | Where `trilerp_uvw` samples w with `bary_x_centre` and `bary_y_centre` as written. No contract of its own; see `Coordinates.AsWrittenSamplesInside`. |
| Coordinates.AsWrittenSamplesInside | grid.h:100-122 | With the as-written `_centre` functions, all three samples stay inside their fields and have fractions in [0, 1] whenever ny ≤ nz. |
| Coordinates.TrilerpUVWAsWritten | grid.h:100-122 | `trilerp_uvw` as written, for grids with ny ≤ nz. It has no contract of its own; its bounds are stated by `Coordinates.TrilerpUVWAsWrittenBounded`. |
| Coordinates.TrilerpUVWAsWrittenBounded | grid.h:100-122 | With the as-written `_centre` functions and ny ≤ nz, each sampled component lies within any bounds that hold over its whole velocity field. |
| Coordinates.AsWrittenUSampleEscapes | grid.h:100-109 | When ny > nz, the as-written u sample at z = (nz - 0.25)·h reads corners outside u. |
| LevelSet.InitPhi | grid.cpp:180-193 | phi is -0.5 at FLUID cells in the seeded range (x and y interior, z from 0 to nz-2). Everywhere else it is nx+ny+nz+2. Nothing but phi changes. |
| LevelSet.SortThree | grid.cpp:195-200 | The min/mid/max selection is ordered. |
| LevelSet.SortThreePermutes | grid.cpp:195-200 | The min/mid/max selection is a permutation of (p, q, t). |
| LevelSet.Candidate | grid.cpp:202-208 | When the smallest neighbour plus one does not pass the middle one, the candidate is the smallest neighbour plus one. |
| LevelSet.SolveDistance | grid.cpp:195-211 | The cell becomes the smaller of its value and the candidate, so it never increases. |
| LevelSet.SolveDistanceSymmetric | grid.cpp:195-211 | The update does not depend on the order of the three neighbour values. |
| LevelSet.Order | grid.cpp:213-249 | An upward loop visits exactly 1, 2, ..., n-1 in that order and a downward loop exactly n-2, n-3, ..., 0; every visited cell's upwind neighbour is in range too. |
| LevelSet.Visit | grid.cpp:216-249 | One visit changes at most the visited cell. A non-FLUID cell takes `solve_distance` of its three upwind neighbours and its own value, so it can only go down; a FLUID cell is untouched. |
| LevelSet.Relax | grid.cpp:217-219 | A sequence of visits never raises any value and never changes a FLUID cell. |
| LevelSet.Pass | grid.cpp:217-219 | One directional pass never raises any value and never changes a FLUID cell. |
| LevelSet.SweepDirections | grid.cpp:213-249 | There are eight distinct pass directions, each ±1 along each axis, so every octant is swept exactly once. |
| LevelSet.Passes | grid.cpp:213-249 | A series of passes never raises any value and never changes a FLUID cell. |
| LevelSet.Sweep | grid.cpp:213-249 | The eight passes never raise any value and never change a FLUID cell. |
| LevelSet.SweepPhi | grid.cpp:213-249 | `sweep_phi` only lowers phi, leaves FLUID cells as they were, and changes nothing but phi. |
| LevelSet.Repeat | grid.cpp:115-121 | Any number of repeated sweeps never raises any value and never changes a FLUID cell. |
| LevelSet.SweepPhiTimes | grid.cpp:115-121 | Repeating `sweep_phi` only lowers phi and changes nothing but phi. |
| LevelSet.LoweredSeeds | grid.cpp:115-121 | After seeding and any lowering, every value is at most the sentinel, and FLUID cells hold exactly their seeded values. |
| LevelSet.ComputeDistanceToFluid | grid.cpp:115-121 | After seeding and eight sweeps, phi is bounded by the sentinel, and FLUID cells hold -0.5 (or the sentinel outside the seeded range). Nothing but phi changes. |
| Extrapolation.CopyLayer | grid.cpp:333-336 | One copy statement: the destination layer takes the source layer's values and every other cell is kept. |
| Extrapolation.ReplicateLayers | grid.cpp:333-336 | With the braces, after both copies along one axis, every cell holds the value of its inward neighbour along that axis; with extent 2, both layers hold layer 1. |
| Extrapolation.ExtendBoundary | grid.cpp:333-344 | With the braces, after the copies along y, x and z, every cell holds the value at its inward-clamped position on all three axes. |
| Extrapolation.SweepVelocityBoundary | grid.cpp:321-389 | The braced boundary copies are applied to u, v and w, and nothing else in the grid changes. |
| Extrapolation.ReplicatedMatchesNeighbours | grid.cpp:333-344 | With the braces, every outermost cell equals its neighbour one layer in, and interior cells keep their values. |
| Extrapolation.ExtendBoundaryMatchesNeighbours | grid.cpp:333-344 | After the braced boundary copies, each face value equals its inward neighbour and interior values are unchanged. |
| Extrapolation.ExtendBoundaryIdempotent | grid.cpp:333-344 | Performing the braced boundary copies twice is the same as performing them once. |
| Extrapolation.IterationAsWritten | grid.cpp:333-336 | Without braces, one outer iteration makes the first copy for inner values 0 to count-1, in order, and then the second copy once, with the inner variable at its exit value. |
| Extrapolation.Iteration | grid.cpp:333-336 | With braces, one outer iteration makes the first and then the second copy for each inner value, in order. |
| Extrapolation.IterationInBounds | grid.cpp:333-344 | With the intended braces, every copy of one outer iteration reads and writes in-bounds cells. |
| Extrapolation.CopiesInBounds | grid.cpp:333-344 | With the intended braces, every copy of the whole loop reads and writes in-bounds cells. |
| Extrapolation.CopiesAsWrittenOverrun | grid.cpp:333-344 | As written, the trailing copy of the first outer iteration writes a cell whose address is past the end of the array. |
| Extrapolation.TrailingCopyOverruns | grid.cpp:333-344 | The copy made with the inner variable at its exit value is out of bounds on every axis. |
| Projection.FindDivergence | grid.cpp:391-399 | r holds the net outflow at FLUID cells and zero elsewhere; nothing else changes. |
| Projection.UniformFlowIsDivergenceFree | grid.cpp:391-399 | A constant velocity field has zero net outflow at every cell. |
| Projection.OpenSumCounts | grid.cpp:401-432 | The six unit increments of the diagonal add up to the number of non-SOLID neighbours. |
| Projection.FormPoisson | grid.cpp:401-432 | At an interior FLUID cell the diagonal counts the non-SOLID neighbours. Each +x/+y/+z coupling is -1 exactly when that neighbour is FLUID and 0 otherwise. All other cells are zero. Nothing but the matrix changes. |
| Projection.PoissonDiagonallyDominant | grid.cpp:401-432 | At every active cell the diagonal is at least the sum of the magnitudes of its six couplings. |
| Projection.ApplyPoisson | grid.cpp:434-448 | y is the 7-point row product at interior FLUID cells and zero elsewhere. |
| Projection.ApplyPoissonLinear | grid.cpp:434-448 | The operator is linear: applying it to x + s·z gives A·x + s·(A·z). |
| Projection.SolvePressureStart | grid.cpp:497-501 | Pressure is zeroed and nothing else changes. The tolerance is `tolerance` times the residual's largest magnitude (a value fixed by `Dense.IsInfNorm`), so it bounds every scaled residual element. The solve stops at once exactly when the residual is all zero. |
| Projection.LiteralTest | grid.cpp:530 | As parsed, the test is the bitwise or of the left tag with `(right tag == FLUIDCELL)`: it holds when the left cell is not AIR or the right cell is FLUID. |
| Projection.IntendedTest | grid.cpp:530 | The test the comment describes: at least one side is FLUID and neither is SOLID. |
| Projection.GradientStep | grid.cpp:529-543 | One component's update keeps the shape and leaves every face outside the loop range unchanged. A face in range gains the pressure difference between its two cells when the test on their tags passes, and is unchanged otherwise. |
| Projection.AddGradientAsWritten | grid.cpp:525-544 | The literal test is applied to u, v and w; nothing else changes. |
| Projection.AddGradientAsWrittenFaces | grid.cpp:529-543 | As written, a u, v or w face in the loop range gains the pressure difference across it exactly when the cell below is not AIR or the cell above is FLUID; every other face is unchanged. |
| Projection.AddGradient | grid.cpp:525-544 | The intended test is applied to u, v and w; nothing else changes. |
| Projection.AddGradientFaces | grid.cpp:529-543 | With the intended test, a u, v or w face in the loop range gains the pressure difference exactly when one side is FLUID and neither is SOLID; every other face is unchanged. |
| Projection.IntendedWithinLiteral | grid.cpp:529-543 | Wherever the intended update changes a u, v or w face, the as-written update makes the same change. |
| Projection.AsWrittenMovesSolidFace | grid.cpp:529-533 | The as-written update moves a face between a SOLID and a FLUID cell; the intended one leaves it alone. |

## Left out

- The preconditioned conjugate-gradient iteration of `solve_pressure` is not modelled. This covers:
  - `form_preconditioner` and `apply_preconditioner`, with their MIC(0) square roots;
  - the `rho == 0` exit;
  - the iteration loop and its `printf` reports.
  Only the steps before the first preconditioner call are modelled. The vector operations the loop uses are modelled in `Dense`.
- `CFL` is left out: it needs a square root of floats.
- The closed forms of `solve_distance`'s two- and three-neighbour cases are not modelled: they involve square roots. They are parameters (`LevelSet.LocalSolver`).
- LevelSet.Candidate: pins the result only in the one-neighbour case, because the other two cases are the parameters above.
- LevelSet.SweepPhi: promises only that values never rise and FLUID cells are kept. That the sweeps converge to a distance is not stated, since the update's closed forms are parameters.
- `sweep_u`, `sweep_v` and `sweep_w` (the phi-weighted interior extrapolation) are left out. `sweep_velocity` is modelled only by its boundary copies, and `extend_velocity` (eight calls of `sweep_velocity`) only through them.
- `make_incompressible` is a call sequence of the modelled steps plus the unmodelled solver, and is not composed as one function.
- The centred-gravity branch of `add_gravity` is behind `if (false)` and is unreachable. It is left out along with its `printf`.
- `write_matlab`, `delete_memory`, the destructors and heap allocation are not modelled. Arrays are values.
- `Array3x4::infnorm` is not modelled; nothing in the core calls it.
- Floating-point rounding is not modelled: floats and doubles are reals. The NaN case of `infnorm`'s `!(x <= r)` test therefore does not arise.
- Integer overflow of `nx*ny*nz` is not modelled: integers are unbounded.
- `lz` is declared but never assigned, and the `Grid` record has no such field.
- MacGrid.Init: requires `nx >= 1` and `lx != 0`, because grid.cpp:22-24 divides by `cell_nx` and by `lx`. It also requires `ny >= 1` and `nz >= 1`, which grid.cpp does not check: a grid with no cells along an axis is left out.
- Extrapolation.SweepVelocityBoundary: requires at least two layers per axis, since with fewer the copies read outside the array.
- Coordinates.USample, Coordinates.VSample, Coordinates.WSample: require the point to lie inside the domain and at least two pressure cells per axis. The source does not check this, and reads outside the arrays otherwise.
- Coordinates.USample, Coordinates.VSample, Coordinates.WSample, Coordinates.TrilerpUVW, Coordinates.TrilerpUVWBounded: use the corrected centred mapping (`Coordinates.BaryCentre`), not the as-written `bary_*_centre`, whose z guard (grid.h:96) and truncating cast (grid.h:61-65) go wrong as described under "## Findings". The as-written sampling is `Coordinates.TrilerpUVWAsWritten`.
- Coordinates.TrilerpUVWAsWritten, Coordinates.TrilerpUVWAsWrittenBounded, Coordinates.AsWrittenSamplesInside: require ny ≤ nz, because otherwise the as-written z guard lets the sample read outside the arrays (`Coordinates.AsWrittenUSampleEscapes`).
- Extrapolation.ReplicateLayers: models the copy loop with braces around both copies; the loop as written in grid.cpp:333-344 writes past the end of the array.
- Extrapolation.ExtendBoundary: models the braced loops, not the brace-less ones in grid.cpp:333-388.
- Extrapolation.SweepVelocityBoundary: applies the braced loops to u, v and w.
- Extrapolation.ReplicatedMatchesNeighbours: is stated about the braced loops.
- Extrapolation.ExtendBoundaryMatchesNeighbours: is stated about the braced loops.
- Extrapolation.ExtendBoundaryIdempotent: is stated about the braced loops; the as-written loops are modelled only up to their first overrun (`Extrapolation.IterationAsWritten`, `Extrapolation.CopiesAsWrittenOverrun`).
- MacGrid.Init: poisson gets the corrected 4 slots per cell, not the 3 that `Array3x4::init` allocates at array3.h:111, so that `form_poisson` stays inside it.
- Dense.Dot: requires the argument to be at least as long as the receiver. `dot` reads `a.data[i]` for every index of the receiver without checking.
- Dense.CopyTo: requires equal lengths, since `memcpy` copies the source's size into the destination.
- Projection.FindDivergence: the loop is written in storage order rather than the j, i, k order of grid.cpp:394. Each cell is written once from values the loop does not modify, so the order cannot change the result.
- Coordinates.TrilerpUVW: has no contract of its own; its properties are stated by `Coordinates.TrilerpUVWBounded`.
- Projection.ApplyPoisson: symmetry of the operator is not proved; linearity is.

## Findings

| source | as written | input that shows it | evidently intended | confidence | as-written member | corrected member |
|---|---|---|---|---|---|---|
| array3.h:111 | `size=3*nx*ny*nz` for an array addressed `(cell)*4+l` with l in 0..3 | nx = ny = nz = 1: slot 3 of cell (0,0,0) is index 3 in a 3-element buffer | `size=4*nx*ny*nz` | not executed | Dense.Init4AsWrittenOverruns, Dense.Init4AsWrittenPoissonOverrun | Dense.Index4InRange |
| grid.h:96 | `bary_z_centre` guards with `pressure.ny-2` but clamps to `pressure.nz-2` | ny = 4, nz = 2, z = 1.75·h: index 1 = nz-1, so `trilerp` reads k = 2 of a field with nz = 2 | guard with `pressure.nz-2` | not executed | Coordinates.AsWrittenUSampleEscapes | Coordinates.BaryCentre |
| grid.h:61-65 | `(int)sx` truncates toward zero, so -1 < sx < 0 gives index 0 with fraction sx+1 | sx = -0.25: index 0, fraction 0.75 (a point 0.25 below cell 0 samples 0.75 above it) | clamp to index 0, fraction 0 below the first centre | not executed | Coordinates.ClampCentreTruncationShift | Coordinates.ClampCentre |
| grid.cpp:530 | the test parses as the bitwise or of `marker(i-1,j,k)` with `marker(i,j,k)==FLUIDCELL` | a = SOLID, b = FLUID: the face between them gains the pressure difference | at least one side FLUID and neither SOLID, as the comment says | not executed | Projection.AsWrittenMovesSolidFace | Projection.AddGradientFaces |
| grid.cpp:333-344 | `for(k...) u(i,0,k)=u(i,1,k); u(i,u.ny-1,k)=...;` without braces, so the second copy runs once with k = nz | any grid with at least two cells per axis: the first outer iteration writes `u(0, ny-1, nz)`, past the end of the array | braces around both copies | not executed | Extrapolation.CopiesAsWrittenOverrun | Extrapolation.CopiesInBounds |
