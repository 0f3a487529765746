/**
 * Shared vocabulary of the sampling and conversion tools: triangular numbers
 * (the index arithmetic of every lattice), the indexed triangle mesh that the
 * triangulators fill, and a result type for inputs that end too early.
 */
module Lattice {

  /** Outcome of reading an input that may be truncated. */
  datatype Result<T> = Ok(value: T) | Err(reason: string)

  /** The triangular number 0 + 1 + ... + (j - 1), that is j(j-1)/2. */
  function Triangular(j: nat): nat
  {
    if j == 0 then 0 else Triangular(j - 1) + (j - 1)
  }

  /** The closed form: twice the triangular number is j(j-1). */
  lemma {:induction false} TriangularClosedForm(j: nat)
    ensures 2 * Triangular(j) == j * (j - 1)
    ensures Triangular(j) == j * (j - 1) / 2
  {
    if j > 0 {
      TriangularClosedForm(j - 1);
      assert 2 * Triangular(j) == (j - 1) * (j - 2) + 2 * (j - 1);
      assert (j - 1) * (j - 2) + 2 * (j - 1) == j * (j - 1);
    }
  }

  /** Triangular numbers are monotone: a later row or ring starts later. */
  lemma {:induction false} TriangularMonotone(i: nat, j: nat)
    requires i <= j
    ensures Triangular(i) + (j - i) * i <= Triangular(j)
  {
    if i < j {
      TriangularMonotone(i, j - 1);
      assert (j - i) * i == (j - 1 - i) * i + i;
    }
  }

  /**
   * Triangular numbers do not decrease: the linear consequence of
   * `TriangularMonotone`, for callers that should not see its nonlinear
   * bound.
   */
  lemma TriangularLe(i: nat, j: nat)
    requires i <= j
    ensures Triangular(i) <= Triangular(j)
  {
    TriangularMonotone(i, j);
  }

  /** Cyclic successor and predecessor positions, as `% n` computes them. */
  lemma ModSmall(x: int, n: int)
    requires n > 0 && 0 <= x < 2 * n
    ensures x % n == if x < n then x else x - n
  {
  }

  lemma MulSucc(a: int, b: int)
    ensures a * b + b == (a + 1) * b
  {
  }

  lemma MulLe(n: nat, a: nat, b: nat)
    requires a <= b
    ensures n * a <= n * b
  {
  }

  /** A triangle of an indexed mesh: three point indices. */
  datatype Triangle = Triangle(a: nat, b: nat, c: nat)

  /**
   * An indexed triangle mesh as the triangulators build it: the number of
   * points that `resizePoints` reserved and the triangles in the order they
   * were added. Point coordinates are not part of this model.
   */
  datatype Mesh = Mesh(pointCount: nat, triangles: seq<Triangle>)

  /** `addTriangle`: append one triangle to the mesh. */
  function AddTriangle(mesh: Mesh, t: Triangle): (r: Mesh)
    ensures r.pointCount == mesh.pointCount
    ensures |r.triangles| == |mesh.triangles| + 1 && r.triangles[|mesh.triangles|] == t
    ensures r.triangles[..|mesh.triangles|] == mesh.triangles
  {
    mesh.(triangles := mesh.triangles + [t])
  }

  /** Every index of every triangle names a reserved point. */
  predicate IndicesBelow(tris: seq<Triangle>, bound: nat)
  {
    forall t :: 0 <= t < |tris| ==> tris[t].a < bound && tris[t].b < bound && tris[t].c < bound
  }

  /** The mesh invariant: triangles reference points only by valid index. */
  predicate ValidMesh(mesh: Mesh)
  {
    IndicesBelow(mesh.triangles, mesh.pointCount)
  }
}
