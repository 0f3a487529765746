# Generalized Bézier / Zheng–Ball patch tools: the exact core

This project models, in Dafny, the integer and combinatorial part of four small
surface-design programs. It proves what they promise about counts, orderings,
index bounds and exact-real sums:

- **3sided.cc** samples the three-sided parameter domain on a triangular
  lattice (`vertices`), triangulates it strip by strip (`triangles`), and
  clamps negative components after projecting onto the domain surface
  (`project`).
- **nsided.cc** builds the n-sided domain:
  - `vertices` builds the corner vectors as interpolation anchors and
    returns the center, then one ring of n·j points per resolution step j;
  - `triangles` gives the pie-slice triangulation between consecutive rings.
- **zheng-ball.cc** evaluates a Zheng–Ball patch:
  - `numControlPoints` counts its control points;
  - `binomial` is multiplicative;
  - `coefficient` is the n-sided correction constant;
  - `load` reads the control net into a map keyed by multi-indices;
  - `eval` classifies every multi-index as interior or boundary, computes
    its blending weight, and applies the final correction that makes the
    weights sum to one.
- **gbp2zhb.cc** converts a legacy control-point file. It walks
  (side, row, col) in one counter loop and writes an n-entry multi-index per
  legacy point; for even degree it first writes a center line.

The lattice generators keep only which point is emitted at which index, not
its coordinates. Weights are exact `real`s, and `std::pow` is an exact power
with a natural exponent. Where `size_t` subtraction could wrap in `eval` (the
exponent `m - k` of the side term, and the coefficients `m - k`, `2k - m` and
`m - 2k` of the three-sided factor f), the wrap is written out (`Wrap`). It
is proved not to happen when every entry of the multi-index is at most m
(`ThreeSidedNoWrap`), which the converter's output satisfies
(`Gbp2Zhb.EntriesBounded`).

Modules:

- `Lattice` (lattice.dfy): triangular numbers, the indexed triangle mesh and
  a `Result` type.
- `ThreeSided` (three_sided.dfy), `NSided` (n_sided.dfy), `ZhengBall`
  (zheng_ball.dfy) and `Gbp2Zhb` (gbp2zhb.dfy): one per source file.

Loops of the source are methods with loops. Most are proved equal to a
recursive specification function (`Strips`, `Layers`, `Choose`, `NetOf`,
`Walk`/`WalkLines`, the set sums `SumR`/`SumP`), and the lemmas state what
those functions promise. The rest are specified by quantified
postconditions instead:

- `ThreeSided.Vertices` and `NSided.Vertices`: the index of every lattice
  point;
- `NSided.CornerVectors`: the corner table (`IsCornerTable`);
- `ThreeSided.ClampNegatives`: what the clamp does to each component.

## Model

| member | source | states |
|---|---|---|
| `Lattice.TriangularClosedForm` | nsided.cc:46 | twice the j-th triangular number is j(j−1), so the point counts `resizePoints` reserves are exact halves |
| `ThreeSided.RowStartClosedForm` | 3sided.cc:13-20 | row j of the lattice starts at index j(j+1)/2 and the next row starts j+1 later |
| `ThreeSided.GridIndexInjective` | 3sided.cc:13-20 | two lattice positions of the same resolution with the same index are the same position |
| `ThreeSided.Vertices` | 3sided.cc:9-23 | the loop emits (r+1)(r+2)/2 points; the point of row j, column k sits at index j(j+1)/2 + k; every lattice point is emitted at that index |
| `ThreeSided.LatticeComplete` | 3sided.cc:13-21 | a list of the right length that has every emitted point at its own index contains every lattice point |
| `ThreeSided.Triangles` | 3sided.cc:25-39 | the `prev`/`current` counter loop builds exactly the strips of rows 0..r−1 in order, reserves (r+1)(r+2)/2 points, adds r² triangles and only references reserved points |
| `ThreeSided.StripCellsCount` | 3sided.cc:30-33 | the first j cells of a strip add 2j triangles |
| `ThreeSided.StripsCount` | 3sided.cc:29-38 | row i adds 2i+1 triangles, r² in all |
| `ThreeSided.StripCellsRows` | 3sided.cc:31-32 | each cell triangle has its first vertex in row i+1, its last in row i and its middle one in either |
| `ThreeSided.StripRows` | 3sided.cc:31-34 | every triangle of strip i takes its vertices only from rows i and i+1 |
| `ThreeSided.StripsBounded` | 3sided.cc:27-34 | every triangle index is below (r+1)(r+2)/2, the reserved size |
| `ThreeSided.ClampNegatives` | 3sided.cc:50-53 | after the clamp every component is ≥ 0, non-negative components are unchanged and negative ones become 0 |
| `ThreeSided.ProjectObjective` | 3sided.cc:42-46 | the objective as written is never negative and vanishes on the domain surface x + y + z − 2xyz = 1, so every surface point is a global minimum |
| `ThreeSided.AsWrittenNegativeRoot` | 3sided.cc:42-45 | the objective as written is zero at (−1, 0, 2), a point with a negative coordinate |
| `ThreeSided.GuardedRootsNonNegative` | 3sided.cc:42-45 | with the barrier returned, every zero of the objective has no negative coordinate and is a zero of the squared residual |
| `NSided.CornerVectors` | nsided.cc:22-27 | corner i is an n-vector that is 0 at positions i and (i+1) mod n and 1 elsewhere |
| `NSided.CornersOfSide` | nsided.cc:33-36 | for n ≥ 3, position k vanishes exactly at corners (k+n−1) mod n and k, the two ends of side k's wedge |
| `NSided.RingSize` | nsided.cc:31-39 | ring j holds n·j points and starts at 1 + n·j(j−1)/2 |
| `NSided.PointCountClosedForm` | nsided.cc:30-41 | the number of emitted points is 1 + n·r(r+1)/2 |
| `NSided.OffsetInRing` | nsided.cc:33-34 | the offset k·j + i of side k, step i stays inside ring j |
| `NSided.OffsetInjective` | nsided.cc:33-34 | side and step are determined by their offset in the ring |
| `NSided.SampledInRing` | nsided.cc:31-39 | every sampled point's index lies in its own ring |
| `NSided.RingsOrdered` | nsided.cc:31-39 | indices of an earlier ring are below those of a later ring |
| `NSided.PointIndexInjective` | nsided.cc:31-39 | distinct ring points get distinct indices |
| `NSided.Vertices` | nsided.cc:20-42 | the center is emitted first, then ring j, side k, step i at 1 + n·j(j−1)/2 + k·j + i; the output has 1 + n·r(r+1)/2 entries and lists every ring point; r = 0 gives only the center |
| `NSided.RingComplete` | nsided.cc:31-40 | a list with every emitted point at its own index contains every ring point |
| `NSided.ReservedPoints` | nsided.cc:46 | the size passed to `resizePoints` equals the number of points `vertices` emits |
| `NSided.Triangles` | nsided.cc:44-66 | the counter loop builds exactly the layers 1..r in order, n·r² triangles, all indices below the reserved size; at the start of layer L `outer_vert` is the first index of ring L and `inner_start` that of ring L−1 |
| `NSided.SideSteps` | nsided.cc:50-62 | the `while(true)` loop of one side appends exactly that side's steps and leaves `outer_vert` one past the side's last outer vertex and `inner_vert` on its last inner vertex |
| `NSided.StepsCount` | nsided.cc:52-61 | v steps add 2v triangles, and the last step omits its inner triangle (2L−1 for a full side) |
| `NSided.SidesCount` | nsided.cc:50-62 | every side of layer L adds 2L−1 triangles |
| `NSided.LayersCount` | nsided.cc:48-64 | layer L adds n(2L−1) triangles, n·r² in all |
| `NSided.InnerInRing` | nsided.cc:58-60 | the inner vertex of every step of layer L lies in ring L−1 (the center for L = 1) |
| `NSided.OuterInRing` | nsided.cc:53-55 | the outer vertex and the next outer vertex of every step of layer L lie in ring L |
| `NSided.StepsBetweenRings` | nsided.cc:52-61 | every triangle of a side joins ring L−1 and ring L |
| `NSided.SidesBetweenRings` | nsided.cc:50-62 | every triangle of a layer joins ring L−1 and ring L |
| `NSided.RingBelow` | nsided.cc:46 | indices of rings 0..r are below 1 + n·r(r+1)/2 |
| `NSided.LayersBounded` | nsided.cc:46-64 | every triangle index is below the reserved size |
| `NSided.LayerCloses` | nsided.cc:53-58 | the last triangle of layer L wraps to the first point of ring L−1, the last point of ring L and the first point of ring L |
| `ZhengBall.NumControlPoints` | zheng-ball.cc:27-30 | for m = 0 there is exactly one control point, because the wrapped m − 2 is multiplied by m = 0; for m = 1 there is no interior point and n boundary points; the full count is at least n·m |
| `ZhengBall.InteriorCountVanishes` | zheng-ball.cc:28 | with n ≥ 1, the interior count T is 0 exactly when m = 1 |
| `ZhengBall.NumControlPointsExact` | zheng-ball.cc:27-30 | the division by 4 is exact: T = n((m−2)/2)(m/2) + 1 for even m ≥ 2, n((m−1)/2)² for odd m, 1 for m = 0; the full count adds n·m |
| `ZhengBall.ChooseAbove` | zheng-ball.cc:58-59 | C(n, k) = 0 when k > n |
| `ZhengBall.ChooseStep` | zheng-ball.cc:61-62 | C(n, d)·d = C(n, d−1)·(n−d+1), so each `result * n / d` step divides exactly |
| `ZhengBall.ChooseFactorial` | zheng-ball.cc:57-64 | C(n, k)·k!·(n−k)! = n!: the count is the binomial coefficient |
| `ZhengBall.Binomial` | zheng-ball.cc:57-64 | the multiplicative loop returns C(n, k): 0 when k > n and 1 when k = 0 |
| `ZhengBall.Coefficient` | zheng-ball.cc:47-55 | the correction constant is 2 for n = 3 and 6, and 1 for n = 5 |
| `ZhengBall.FirstZero` | zheng-ball.cc:70 | `std::find` of 0: the first position holding 0, or the length if there is none |
| `ZhengBall.MinPos` | zheng-ball.cc:73 | `std::min_element`: a position of the minimum with no earlier position holding the same value |
| `ZhengBall.InteriorMeansNoZero` | zheng-ball.cc:70-71 | a multi-index is interior exactly when none of its entries is 0 |
| `ZhengBall.PredSucc` | zheng-ball.cc:74 | `(i+n−1)%n` and `(i+1)%n` are inverse cyclic neighbours |
| `ZhengBall.InteriorPair` | zheng-ball.cc:73-78 | the chosen pair (im, i) is cyclically adjacent with im the predecessor of i; one of them is the first minimum, the other its smaller neighbour, and ties go to the predecessor |
| `ZhengBall.InteriorRoles` | zheng-ball.cc:73-78 | the argmin-and-swap code returns that pair |
| `ZhengBall.BoundaryRoles` | zheng-ball.cc:84-90 | for n ≥ 3, i, im and ip are pairwise distinct and the power loop covers exactly the other n−3 positions |
| `ZhengBall.OthersGuard` | zheng-ball.cc:88-89 | the guard `j != im && j != i && j != ip` holds for a position j < n exactly when j is in `Others(n, i)`, the set `BoundaryRoles` counts |
| `ZhengBall.ThreeSidedFactor` | zheng-ball.cc:94 | for k ≤ m below 2^64, f is k where the branches meet (m = 2k), and for parameters in [0, 1] it lies between min(k, m−k) and max(k, m−k) |
| `ZhengBall.ThreeSidedNoWrap` | zheng-ball.cc:94 | for k ≤ m, neither m−k, nor 2k−m in its branch, nor m−2k in its branch wraps |
| `ZhengBall.BlendingWeight` | zheng-ball.cc:70-102 | the weight computed for one admissible multi-index is the interior (4.5b) or boundary (4.5a) weight, chosen by the first zero |
| `ZhengBall.InteriorCoefficient` | zheng-ball.cc:79 | the binomial factor is C(m, l[im])·C(m, l[i]) for the two interior roles chosen at zheng-ball.cc:73-78 |
| `ZhengBall.InteriorBlend` | zheng-ball.cc:79-81 | the interior weight is C(m, l[im])·C(m, l[i])·∏ u[j]^l[j] |
| `ZhengBall.BoundaryBlend` | zheng-ball.cc:84-101 | the boundary weight is the side Bernstein term times the other powers times the n = 3 or n-sided correction factor |
| `ZhengBall.SideBlend` | zheng-ball.cc:87-90 | C(m, k)·u[im]^k·u[ip]^(m−k) times u[j]^m for every j other than im, i, ip |
| `ZhengBall.SideCorrectionFactor` | zheng-ball.cc:91-101 | the factor 1 − u[i]·f for n = 3 and 1 − m·c(n)·∏u[j] otherwise |
| `ZhengBall.Eval` | zheng-ball.cc:66-113 | `eval` returns the sum over the net of every point times its corrected weight: the blend minus (Bsum−1)/T on every interior key |
| `ZhengBall.WeighNet` | zheng-ball.cc:67-105 | the first loop returns Σ p·B and Bsum = Σ B over all keys of the net |
| `ZhengBall.CorrectNet` | zheng-ball.cc:106-111 | the second loop subtracts p·(S/T) for exactly the keys with no zero entry |
| `ZhengBall.CorrectionSplit` | zheng-ball.cc:103-111 | the two loops together equal one sum with corrected weights |
| `ZhengBall.PartitionOfUnity` | zheng-ball.cc:106-111 | when the net has exactly T > 0 interior keys, the corrected weights sum to 1 |
| `ZhengBall.ReproducesConstant` | zheng-ball.cc:103-111 | under the same condition, a net whose points are all c evaluates to c |
| `ZhengBall.Load` | zheng-ball.cc:32-45 | loading succeeds exactly when the stream holds numControlPoints(n, m, false) records; the net is their left-to-right map insertion and every key has n entries |
| `ZhengBall.ReadRecords` | zheng-ball.cc:38-43 | the record loop builds the insertion fold of the first `count` records |
| `ZhengBall.ReadIndex` | zheng-ball.cc:39-41 | the inner loop reads the n entries of one record |
| `ZhengBall.NetOfWellFormed` | zheng-ball.cc:39-42 | every key of the loaded net has n entries |
| `ZhengBall.NetOfKeys` | zheng-ball.cc:38-43 | the keys of the net are exactly the multi-indices of the records read |
| `ZhengBall.NetOfLastWins` | zheng-ball.cc:42 | a key holds the point of the last record that carries it |
| `Gbp2Zhb.ColsShape` | gbp2zhb.cc:33-40 | the columns of one side of row r are r..stop−1, in order |
| `Gbp2Zhb.RowWalkShape` | gbp2zhb.cc:33-40 | a row visits sides 0..n−1, each with d−2·row columns, all positions valid and in that row |
| `Gbp2Zhb.WalkCount` | gbp2zhb.cc:29-40 | rows 0..R−1 hold n·R(d+1−R) positions |
| `Gbp2Zhb.FullWalkCount` | gbp2zhb.cc:29-31 | the walk has exactly cp − 1 = n(1 + d/2)((d+1)/2) positions |
| `Gbp2Zhb.WalkValid` | gbp2zhb.cc:33-40 | every visited position has side < n and row ≤ col < d − row |
| `Gbp2Zhb.WalkAt` | gbp2zhb.cc:33-40 | the cursor (side, row, col) is visited at step Pos = its rows before, sides before and columns before |
| `Gbp2Zhb.RolesOf` | gbp2zhb.cc:42-48 | b is the cyclic predecessor of a in both branches; La and Lb are at most d |
| `Gbp2Zhb.LegacyIndexOf` | gbp2zhb.cc:42-53 | the loop body fills n copies of d − min(La, Lb) and overwrites a, b, a+1 and b−1 in that order |
| `Gbp2Zhb.EntriesBounded` | gbp2zhb.cc:49-53 | every entry of a converted multi-index lies in 0..d |
| `Gbp2Zhb.BoundaryRow` | gbp2zhb.cc:42-53 | for n ≥ 3, a row-0 point has entry 0 at `side` and is a boundary point |
| `Gbp2Zhb.InteriorRow` | gbp2zhb.cc:42-53 | a point of row ≥ 1 has every entry ≥ 1 and is interior |
| `Gbp2Zhb.ThreeSidedOverwrite` | gbp2zhb.cc:52-53 | for n = 3 positions a+1 and b−1 coincide and the later write d − La stays |
| `Gbp2Zhb.WalkLines` | gbp2zhb.cc:41-56 | line t pairs the multi-index of walk position t with legacy point t |
| `Gbp2Zhb.Convert` | gbp2zhb.cc:17-57 | conversion succeeds exactly when the input holds cp legacy points; it writes the center line for even d, then one line per walk position |
| `Gbp2Zhb.WalkStep` | gbp2zhb.cc:34-56 | one turn of the counter loop: the cursor wraps to the next side or row when it passes the end of its side, stays valid, moves to position i, and the output grows by exactly the line of the i-th walk cursor |
| `Gbp2Zhb.WalkLoop` | gbp2zhb.cc:33-57 | the single counter loop writes the lines of the nested (row, side, column) walk in order |
| `Gbp2Zhb.Advance` | gbp2zhb.cc:34-40 | the wrap moves to the next side or row, restarts at column `row`, and keeps the cursor inside the walk |
| `Gbp2Zhb.CountUpperWalk` | gbp2zhb.cc:33-40 | all positions but the n·d of row 0 lie in rows ≥ 1 |
| `Gbp2Zhb.CountInteriorLines` | gbp2zhb.cc:42-53 | for n ≥ 3, a walk line is interior exactly when its position is past row 0 |
| `Gbp2Zhb.LegacyCountTotal` | gbp2zhb.cc:22-31 | center (even d) plus cp − 1 walk points equals numControlPoints(n, d, false) |
| `Gbp2Zhb.ConvertedCount` | gbp2zhb.cc:22-33 | the converter writes numControlPoints(n, d, false) lines; for even d the first one has every entry d/2 |
| `Gbp2Zhb.ConvertedEntries` | gbp2zhb.cc:22-53 | every written multi-index has n entries, each in 0..d |
| `Gbp2Zhb.WalkInterior` | gbp2zhb.cc:33-53 | for n ≥ 3 and d ≥ 1 all walk lines but the n·d of row 0 are interior |
| `Gbp2Zhb.ConvertedInterior` | gbp2zhb.cc:22-57 | for n ≥ 3 and d ≥ 1, the lines the evaluator treats as interior number exactly numControlPoints(n, d, true), and the other n·d are boundary lines |
| `Gbp2Zhb.IndexStreamRecords` | gbp2zhb.cc:54-56 | record i of the written index stream is line i's multi-index |
| `Gbp2Zhb.ConvertedLoads` | gbp2zhb.cc:49-56 | the evaluator's `load` accepts the converter's output, and the loaded net's keys are exactly the converted multi-indices |

## Left out

- `Powell::optimize` and the objectives `f`, `f5`, `f6` are left out: an
  external derivative-free optimizer over doubles. Only the objective of
  3sided.cc:42-46 appears, under Findings. The same discarded barrier also
  occurs at nsided.cc:71-72 and 80-81.
- `affine`, the interpolated coordinates of both `vertices` functions, and
  the constants √5 and 1/√2 are left out. Points are identified by lattice
  position (row and column, or ring, side and step).
- Floating point is not modelled. Weights and coordinates are exact reals,
  `std::pow` is an exact power with a natural exponent, and IEEE rounding is
  ignored.
- Streams are not modelled: `ifstream` failures, `loadParameters`,
  `tessellate`, `writeOBJ`, the output formatting and `main`'s argument
  checks.
  - `ZhengBall.Load` and `Gbp2Zhb.Convert` take the already parsed stream (index
    entries and points).
  - A stream that ends early returns `Err`, whereas the source throws
    midway. The partially written output is not modelled.
- `size_t` overflow is not modelled in `binomial`, `numControlPoints` or
  `cp` for very large inputs; those values use unbounded naturals. The
  exponents of `eval` are wrapped modulo 2^64 explicitly.
- A net that `Load` accepts may hold a key with an entry above m; nothing
  in the file format or in `WellFormed` rules it out. For such a key the
  subtractions `m - k` and `m - 2k` wrap, and `eval` keeps the wrapped
  values exactly as the source does. `ThreeSidedNoWrap` and the bounds of
  `ThreeSidedFactor` do not cover such keys; `PartitionOfUnity` still
  holds, since it is proved for any raw weights.
- In 3sided.cc:14 the row parameter is 0/0 at resolution 0. It is a
  coordinate, so it is not modelled.
- `std::map` is unordered here: the net is a Dafny `map` and `eval`'s loops
  visit keys in an arbitrary order. Over exact reals the sums do not depend
  on the order.
- `ZhengBall.Eval` requires T > 0 whenever the net has an interior key
  (`EvalReady`). T is 0 exactly for m = 1 (`InteriorCountVanishes`), and
  `Load` accepts such a net with interior keys, for example n = 3, m = 1
  and the record (1, 1, 1). The source then divides S by T = 0 at
  zheng-ball.cc:107-111 and subtracts an infinite or NaN multiple of each
  interior point. The model has no infinities, so this case is excluded
  rather than modelled. `Shift` returns 0 for T = 0 only as a placeholder;
  under `EvalReady` it is never applied to an interior key in that case.
- `ZhengBall.Coefficient` requires n ∈ {3, 5, 6}, where the source
  `assert`s. `eval` therefore requires a supported n, or a net with no
  boundary key.
- `ZhengBall.PartitionOfUnity` and `ZhengBall.ReproducesConstant` assume the
  net has exactly T interior keys. `Gbp2Zhb.ConvertedInterior` shows that a
  converted net writes exactly T interior lines. That they are pairwise
  distinct, so that no key is overwritten on load, is not proved.
- `Gbp2Zhb.BoundaryRow` is stated for n ≥ 3 only. For n ≤ 2 the later writes
  of the loop body can land on `side`.
- Several loops are split into a method per loop, or per loop body, so that
  each proof stays small:
  - `SideBlend` and `SideCorrectionFactor` inside `BoundaryBlend`;
  - `InteriorCoefficient` inside `InteriorBlend`;
  - `WeighNet` and `CorrectNet` inside `Eval`;
  - `ReadRecords` and `ReadIndex` inside `Load`;
  - `WalkLoop`, `WalkStep` and `Advance` inside `Convert`;
  - `SideSteps` inside `NSided.Triangles`.

## Findings

| source | as written | input that shows it | evidently intended | confidence | as-written member | corrected member |
|---|---|---|---|---|---|---|
| 3sided.cc:43-44 | the guard `if (x[0] < 0 \|\| …) std::numeric_limits<double>::max();` evaluates the barrier and discards it, so the objective is the squared residual everywhere | x = (−1, 0, 2): the residual is 0, so the minimiser may stop outside the domain, and only the clamp at 3sided.cc:50-52 brings it back | `return std::numeric_limits<double>::max();` for a negative coordinate | high, not executed | `ThreeSided.AsWrittenNegativeRoot` | `ThreeSided.GuardedRootsNonNegative` |
