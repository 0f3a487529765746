/**
 * The three-sided domain generator: the triangular parameter lattice, its
 * strip triangulation and the final non-negativity clamp of the projection.
 *
 * Points are identified by their lattice position (row j, column k); the
 * barycentric coordinates the generator interpolates for them are not
 * modelled. Row j holds j + 1 points and starts at index j(j+1)/2.
 */
module ThreeSided {
  import opened Lattice

  /** The lattice point in row `row` (0 at the third corner) and column `col`. */
  datatype GridPoint = GridPoint(row: nat, col: nat)

  /** `p` is one of the points sampled at resolution `r`. */
  predicate OnGrid(r: nat, p: GridPoint)
  {
    p.col <= p.row <= r
  }

  /** Index of the first point of row `j`: j(j+1)/2. */
  function RowStart(j: nat): nat
  {
    Triangular(j + 1)
  }

  /** Position of a lattice point in the output of `Vertices`. */
  function GridIndex(p: GridPoint): nat
  {
    RowStart(p.row) + p.col
  }

  /** `x` is the index of a point of row `j`. */
  predicate InRow(x: nat, j: nat)
  {
    RowStart(j) <= x < RowStart(j + 1)
  }

  lemma RowStartClosedForm(j: nat)
    ensures RowStart(j) == j * (j + 1) / 2
    ensures RowStart(j + 1) == RowStart(j) + j + 1
  {
    TriangularClosedForm(j + 1);
  }

  /** Points of distinct lattice positions get distinct indices. */
  lemma GridIndexInjective(r: nat, p: GridPoint, q: GridPoint)
    requires OnGrid(r, p) && OnGrid(r, q)
    requires GridIndex(p) == GridIndex(q)
    ensures p == q
  {
    if p.row < q.row {
      RowsApart(p.row, q.row);
      assert false;
    } else if q.row < p.row {
      RowsApart(q.row, p.row);
      assert false;
    }
  }

  /** Row i ends no later than any later row j starts. */
  lemma RowsApart(i: nat, j: nat)
    requires i < j
    ensures RowStart(i) + i + 1 <= RowStart(j)
  {
    TriangularLe(i + 2, j + 1);
    assert Triangular(i + 2) == Triangular(i + 1) + i + 1;
  }

  /**
   * `vertices(resolution)`: row j = 0..r from the third corner towards the
   * first side, column k = 0..j along the row. The output has (r+1)(r+2)/2
   * points and the point of row j, column k sits at index j(j+1)/2 + k.
   */
  method Vertices(r: nat) returns (ps: seq<GridPoint>)
    ensures |ps| == (r + 1) * (r + 2) / 2
    ensures forall t :: 0 <= t < |ps| ==> OnGrid(r, ps[t]) && GridIndex(ps[t]) == t
    ensures forall p :: OnGrid(r, p) ==> GridIndex(p) < |ps| && ps[GridIndex(p)] == p
  {
    ps := [];
    for j := 0 to r + 1
      invariant |ps| == RowStart(j)
      invariant forall t :: 0 <= t < |ps| ==> OnGrid(r, ps[t]) && GridIndex(ps[t]) == t
    {
      for k := 0 to j + 1
        invariant |ps| == RowStart(j) + k
        invariant forall t :: 0 <= t < |ps| ==> OnGrid(r, ps[t]) && GridIndex(ps[t]) == t
      {
        ps := ps + [GridPoint(j, k)];
      }
    }
    RowStartClosedForm(r + 1);
    assert (r + 1) * (r + 1 + 1) == (r + 1) * (r + 2);
    LatticeComplete(r, ps);
  }

  /** A sequence that lists every lattice point at its own index lists all of them. */
  lemma LatticeComplete(r: nat, ps: seq<GridPoint>)
    requires |ps| == RowStart(r + 1)
    requires forall t :: 0 <= t < |ps| ==> OnGrid(r, ps[t]) && GridIndex(ps[t]) == t
    ensures forall p :: OnGrid(r, p) ==> GridIndex(p) < |ps| && ps[GridIndex(p)] == p
  {
    forall p | OnGrid(r, p)
      ensures GridIndex(p) < |ps| && ps[GridIndex(p)] == p
    {
      GridIndexBound(r, p);
      var q := ps[GridIndex(p)];
      assert OnGrid(r, q) && GridIndex(q) == GridIndex(p);
      GridIndexInjective(r, p, q);
    }
  }

  /** Every lattice point's index lies below the number of points. */
  lemma GridIndexBound(r: nat, p: GridPoint)
    requires OnGrid(r, p)
    ensures GridIndex(p) < RowStart(r + 1)
  {
    var j := p.row;
    TriangularLe(j + 2, r + 2);
    assert Triangular(j + 2) == Triangular(j + 1) + j + 1;
    assert GridIndex(p) == Triangular(j + 1) + p.col;
  }

  /**
   * The first `j` square cells of the strip between rows i and i + 1, each
   * split into two triangles.
   */
  function StripCells(i: nat, j: nat): seq<Triangle>
  {
    if j == 0 then []
    else
      var prev, current := RowStart(i), RowStart(i + 1);
      StripCells(i, j - 1)
        + [Triangle(current + j - 1, current + j, prev + j - 1),
           Triangle(current + j, prev + j, prev + j - 1)]
  }

  /** The strip between rows i and i + 1: i cells and the closing triangle. */
  function Strip(i: nat): seq<Triangle>
  {
    StripCells(i, i) + [Triangle(RowStart(i + 1) + i, RowStart(i + 1) + i + 1, RowStart(i) + i)]
  }

  /** The strips between rows 0..r, in the order `triangles` adds them. */
  function Strips(r: nat): seq<Triangle>
  {
    if r == 0 then [] else Strips(r - 1) + Strip(r - 1)
  }

  /**
   * `triangles(resolution)`: the counters `prev` and `current` hold the
   * first index of rows i and i + 1, and row i adds its strip.
   */
  method Triangles(r: nat) returns (mesh: Mesh)
    ensures mesh == Mesh((r + 1) * (r + 2) / 2, Strips(r))
    ensures ValidMesh(mesh) && |mesh.triangles| == r * r
  {
    mesh := Mesh((r + 1) * (r + 2) / 2, []);
    var prev, current := 0, 1;
    for i := 0 to r
      invariant prev == RowStart(i) && current == RowStart(i + 1)
      invariant mesh == Mesh((r + 1) * (r + 2) / 2, Strips(i))
    {
      for j := 0 to i
        invariant mesh == Mesh((r + 1) * (r + 2) / 2, Strips(i) + StripCells(i, j))
      {
        mesh := AddTriangle(mesh, Triangle(current + j, current + j + 1, prev + j));
        mesh := AddTriangle(mesh, Triangle(current + j + 1, prev + j + 1, prev + j));
      }
      mesh := AddTriangle(mesh, Triangle(current + i, current + i + 1, prev + i));
      prev := current;
      current := current + i + 2;
    }
    StripsCount(r);
    StripsBounded(r);
  }

  lemma {:induction false} StripCellsCount(i: nat, j: nat)
    ensures |StripCells(i, j)| == 2 * j
  {
    if j > 0 {
      StripCellsCount(i, j - 1);
    }
  }

  /** Row strip i contributes 2i + 1 triangles, so resolution r gives r². */
  lemma {:induction false} StripsCount(r: nat)
    ensures |Strips(r)| == r * r
  {
    if r > 0 {
      StripsCount(r - 1);
      StripCellsCount(r - 1, r - 1);
      assert |Strips(r)| == (r - 1) * (r - 1) + 2 * (r - 1) + 1;
      assert (r - 1) * (r - 1) + 2 * (r - 1) + 1 == r * r;
    }
  }

  /**
   * Every triangle of a cell of strip i has its first vertex in row i + 1,
   * its last vertex in row i and its middle vertex in one of the two.
   */
  lemma {:induction false} StripCellsRows(i: nat, j: nat)
    requires j <= i
    ensures forall t :: 0 <= t < |StripCells(i, j)| ==>
              var tri := StripCells(i, j)[t];
              InRow(tri.a, i + 1) && InRow(tri.c, i) && (InRow(tri.b, i) || InRow(tri.b, i + 1))
  {
    RowStartClosedForm(i);
    RowStartClosedForm(i + 1);
    if j > 0 {
      StripCellsRows(i, j - 1);
    }
  }

  /** Each triangle of strip i takes its vertices only from rows i and i + 1. */
  lemma StripRows(i: nat)
    ensures forall t :: 0 <= t < |Strip(i)| ==>
              var tri := Strip(i)[t];
              InRow(tri.a, i + 1) && InRow(tri.c, i) && (InRow(tri.b, i) || InRow(tri.b, i + 1))
  {
    StripCellsRows(i, i);
    RowStartClosedForm(i);
    RowStartClosedForm(i + 1);
  }

  /** Every triangle index is below (r+1)(r+2)/2, the reserved point count. */
  lemma {:induction false} StripsBounded(r: nat)
    ensures IndicesBelow(Strips(r), (r + 1) * (r + 2) / 2)
  {
    RowStartClosedForm(r + 1);
    assert RowStart(r + 1) == (r + 1) * (r + 2) / 2 by {
      assert (r + 1) * (r + 1 + 1) == (r + 1) * (r + 2);
    }
    if r > 0 {
      StripsBounded(r - 1);
      StripRows(r - 1);
      RowStartClosedForm(r);
      TriangularMonotone(r + 1, r + 2);
      var s := Strips(r);
      forall t | 0 <= t < |s|
        ensures s[t].a < (r + 1) * (r + 2) / 2 && s[t].b < (r + 1) * (r + 2) / 2
                && s[t].c < (r + 1) * (r + 2) / 2
      {
        if t >= |Strips(r - 1)| {
          var tri := Strip(r - 1)[t - |Strips(r - 1)|];
          assert s[t] == tri;
        } else {
          assert s[t] == Strips(r - 1)[t];
        }
      }
    }
  }

  /**
   * The clamp at the end of `project`: every negative component of the
   * three-component result becomes 0, every other component is kept.
   */
  method ClampNegatives(x: seq<real>) returns (y: seq<real>)
    requires |x| == 3
    ensures |y| == |x|
    ensures forall i :: 0 <= i < |y| ==> y[i] >= 0.0
    ensures forall i :: 0 <= i < |x| && x[i] >= 0.0 ==> y[i] == x[i]
    ensures forall i :: 0 <= i < |x| && x[i] < 0.0 ==> y[i] == 0.0
  {
    y := x;
    for i := 0 to 3
      invariant |y| == |x|
      invariant forall k :: 0 <= k < i ==> y[k] == (if x[k] < 0.0 then 0.0 else x[k])
      invariant forall k :: i <= k < |y| ==> y[k] == x[k]
    {
      if y[i] < 0.0 {
        y := y[i := 0.0];
      }
    }
  }

  /** The largest finite double, (2 - 2^-52) 2^1023. */
  const DoubleMax: real := 179769313486231570814527423731704356798070567525844996598917476803157260780028538760589558632766878171540458953514382464234321326889464182768467546703537516986049910576551282076245490090389328944075868508455133942304583236903222948165808559332123348274797826204144723168738177180919299881250404026184124858368.0

  /** The residual of the surface equation x + y + z - 2xyz = 1. */
  function Residual(x: seq<real>): real
    requires |x| == 3
  {
    x[0] + x[1] + x[2] - 2.0 * x[0] * x[1] * x[2] - 1.0
  }

  /**
   * The objective of `project` as written: the guard for a negative
   * coordinate evaluates the largest double and discards it, so the squared
   * residual is returned everywhere. It is never negative and vanishes on
   * the surface, so every surface point is a global minimum.
   */
  function ProjectObjective(x: seq<real>): (e: real)
    requires |x| == 3
    ensures e >= 0.0
    ensures Residual(x) == 0.0 ==> e == 0.0
  {
    var r := Residual(x);
    SquareSign(r);
    r * r
  }

  /** A square is never negative, and the square of zero is zero. */
  lemma SquareSign(r: real)
    ensures r * r >= 0.0
    ensures r == 0.0 ==> r * r == 0.0
  {
    if r < 0.0 {
      assert r * r == (-r) * (-r);
    } else if r == 0.0 {
      assert r * r == 0.0 * 0.0;
    }
  }

  /** As written, the objective vanishes at a point with a negative coordinate. */
  lemma AsWrittenNegativeRoot()
    ensures exists x: seq<real> :: |x| == 3 && x[0] < 0.0 && ProjectObjective(x) == 0.0
  {
    var x := [-1.0, 0.0, 2.0];
    assert Residual(x) == 0.0;
    assert ProjectObjective(x) == 0.0;
  }

  /** The objective with the barrier returned, as the guard intends. */
  function GuardedObjective(x: seq<real>): (e: real)
    requires |x| == 3
    ensures x[0] < 0.0 || x[1] < 0.0 || x[2] < 0.0 ==> e == DoubleMax
    ensures x[0] >= 0.0 && x[1] >= 0.0 && x[2] >= 0.0 ==> e == ProjectObjective(x)
  {
    if x[0] < 0.0 || x[1] < 0.0 || x[2] < 0.0 then DoubleMax else ProjectObjective(x)
  }

  /**
   * With the barrier, every zero of the objective is a zero of the squared
   * residual with no negative coordinate, which the final clamp leaves
   * unchanged.
   */
  lemma GuardedRootsNonNegative(x: seq<real>)
    requires |x| == 3 && GuardedObjective(x) == 0.0
    ensures forall i :: 0 <= i < 3 ==> x[i] >= 0.0
    ensures ProjectObjective(x) == 0.0
  {
    assert DoubleMax != 0.0;
  }
}
