/**
 * The n-sided domain generator: the corner vectors, the ring lattice around
 * the domain center and its pie-slice triangulation.
 *
 * Index layout: index 0 is the center; ring j (1 <= j <= r) holds n * j
 * points, starts at index 1 + n j(j-1)/2, and walks side k = 0..n-1 with
 * steps i = 0..j-1. The interpolated coordinates of the points are not
 * modelled, only which point is emitted at which index.
 */
module NSided {
  import opened Lattice

  /* ---------------------------------------------------------------------- */
  /* Corner vectors                                                          */
  /* ---------------------------------------------------------------------- */

  /** Corner i of the domain: 0 at positions i and (i+1) % n, 1 elsewhere. */
  predicate IsCornerTable(n: nat, vs: seq<seq<real>>)
    requires n >= 1
  {
    && |vs| == n
    && (forall i :: 0 <= i < n ==> |vs[i]| == n)
    && (forall i, j :: 0 <= i < n && 0 <= j < |vs[i]| ==>
          vs[i][j] == if j == i || j == (i + 1) % n then 0.0 else 1.0)
  }

  /**
   * The corner loop of `vertices`: a vector of n ones per side, with the
   * two positions of that side's corner set to 0.
   */
  method CornerVectors(n: nat) returns (vs: seq<seq<real>>)
    requires n >= 1
    ensures IsCornerTable(n, vs)
  {
    vs := [];
    for i := 0 to n
      invariant |vs| == i
      invariant forall i' :: 0 <= i' < i ==> |vs[i']| == n
      invariant forall i', j :: 0 <= i' < i && 0 <= j < |vs[i']| ==>
                  vs[i'][j] == if j == i' || j == (i' + 1) % n then 0.0 else 1.0
    {
      var v := seq(n, _ => 1.0);
      v := v[i := 0.0];
      v := v[(i + 1) % n := 0.0];
      vs := vs + [v];
    }
  }

  /**
   * The wedge of side k in `vertices` runs between corners (k+n-1) % n and
   * k: position k vanishes in exactly these two corners, so it vanishes
   * along the whole edge between them.
   */
  lemma CornersOfSide(n: nat, vs: seq<seq<real>>, k: nat)
    requires n >= 3 && k < n
    requires IsCornerTable(n, vs)
    ensures forall i :: 0 <= i < n ==> (vs[i][k] == 0.0 <==> i == k || i == (k + n - 1) % n)
  {
    ModSmall(k + n - 1, n);
    forall i | 0 <= i < n
      ensures vs[i][k] == 0.0 <==> i == k || i == (k + n - 1) % n
    {
      ModSmall(i + 1, n);
    }
  }

  /* ---------------------------------------------------------------------- */
  /* Ring lattice                                                            */
  /* ---------------------------------------------------------------------- */

  /** A point emitted by `vertices`: the center, or ring j, side k, step i. */
  datatype DomainPoint = Center | OnRing(ring: nat, side: nat, step: nat)

  /** `p` is a ring point of resolution `r`. */
  predicate Sampled(n: nat, r: nat, p: DomainPoint)
  {
    p.OnRing? && 1 <= p.ring <= r && p.side < n && p.step < p.ring
  }

  /** Index of the first point of ring j >= 1: 1 + n j(j-1)/2. */
  function RingStart(n: nat, j: nat): nat
  {
    1 + n * Triangular(j)
  }

  /** The position at which `vertices` emits `p`. */
  function PointIndex(n: nat, p: DomainPoint): nat
  {
    match p
    case Center => 0
    case OnRing(j, k, i) => RingStart(n, j) + k * j + i
  }

  /** `x` is an index of ring j; ring 0 is the center alone. */
  predicate InRing(n: nat, j: nat, x: nat)
  {
    if j == 0 then x == 0 else RingStart(n, j) <= x < RingStart(n, j + 1)
  }

  /** Ring j holds n * j points (`RingNext`), and the closed form of its first index. */
  lemma RingSize(n: nat, j: nat)
    ensures RingStart(n, j + 1) == RingStart(n, j) + n * j
    ensures 2 * (RingStart(n, j) - 1) == n * j * (j - 1)
  {
    RingNext(n, j);
    TriangularClosedForm(j);
    assert 2 * (n * Triangular(j)) == n * (2 * Triangular(j));
    assert n * (j * (j - 1)) == n * j * (j - 1);
  }

  /** The number of points `vertices` emits: 1 + n r(r+1)/2. */
  lemma PointCountClosedForm(n: nat, r: nat)
    ensures RingStart(n, r + 1) == 1 + n * r * (r + 1) / 2
  {
    RingSize(n, r + 1);
    assert n * (r + 1) * r == n * r * (r + 1);
  }

  /** Offset k*j + i of a step within its ring stays below n*j. */
  lemma OffsetInRing(n: nat, j: nat, k: nat, i: nat)
    requires k < n && i < j
    ensures k * j + i < n * j
  {
    assert k * j + i < (k + 1) * j;
    assert (k + 1) * j <= n * j;
  }

  /**
   * Ring j holds n * j points. This is the first half of `RingSize` on its
   * own, so that the ring loops do not bring the nonlinear closed form into
   * their proofs.
   */
  lemma RingNext(n: nat, j: nat)
    ensures RingStart(n, j + 1) == RingStart(n, j) + n * j
  {
    assert Triangular(j + 1) == Triangular(j) + j;
    assert n * Triangular(j + 1) == n * Triangular(j) + n * j;
  }

  /** Side and step are determined by the offset within a ring. */
  lemma OffsetInjective(j: nat, k1: nat, i1: nat, k2: nat, i2: nat)
    requires i1 < j && i2 < j
    requires k1 * j + i1 == k2 * j + i2
    ensures k1 == k2 && i1 == i2
  {
    if k1 < k2 {
      MulLe(j, k1 + 1, k2);
    } else if k2 < k1 {
      MulLe(j, k2 + 1, k1);
    }
  }

  /** A sampled point lies in its own ring. */
  lemma SampledInRing(n: nat, r: nat, p: DomainPoint)
    requires Sampled(n, r, p)
    ensures InRing(n, p.ring, PointIndex(n, p))
  {
    RingNext(n, p.ring);
    OffsetInRing(n, p.ring, p.side, p.step);
  }

  /** Rings are disjoint and ordered. */
  lemma RingsOrdered(n: nat, j1: nat, j2: nat, x1: nat, x2: nat)
    requires 1 <= j1 < j2
    requires InRing(n, j1, x1) && InRing(n, j2, x2)
    ensures x1 < x2
  {
    TriangularLe(j1 + 1, j2);
    MulLe(n, Triangular(j1 + 1), Triangular(j2));
  }

  /** Distinct sampled points have distinct indices. */
  lemma PointIndexInjective(n: nat, r: nat, p: DomainPoint, q: DomainPoint)
    requires Sampled(n, r, p) && Sampled(n, r, q)
    requires PointIndex(n, p) == PointIndex(n, q)
    ensures p == q
  {
    SampledInRing(n, r, p);
    SampledInRing(n, r, q);
    if p.ring < q.ring {
      RingsOrdered(n, p.ring, q.ring, PointIndex(n, p), PointIndex(n, q));
    } else if q.ring < p.ring {
      RingsOrdered(n, q.ring, p.ring, PointIndex(n, q), PointIndex(n, p));
    } else {
      OffsetInjective(p.ring, p.side, p.step, q.side, q.step);
    }
  }

  /**
   * `vertices(n, resolution)`: the center first, then for every ring
   * j = 1..r, side k and step i < j one point. The output has
   * 1 + n r(r+1)/2 points, the center at 0 and ring point (j, k, i) at
   * 1 + n j(j-1)/2 + k j + i; with r = 0 only the center is emitted.
   */
  method Vertices(n: nat, r: nat) returns (ps: seq<DomainPoint>)
    ensures |ps| == 1 + n * r * (r + 1) / 2
    ensures ps[0] == Center
    ensures forall t :: 0 < t < |ps| ==> Sampled(n, r, ps[t]) && PointIndex(n, ps[t]) == t
    ensures forall p :: Sampled(n, r, p) ==> PointIndex(n, p) < |ps| && ps[PointIndex(n, p)] == p
  {
    ps := [Center];
    for j := 1 to r + 1
      invariant |ps| == RingStart(n, j) && ps[0] == Center
      invariant forall t :: 0 < t < |ps| ==> Sampled(n, r, ps[t]) && PointIndex(n, ps[t]) == t
    {
      for k := 0 to n
        invariant |ps| == RingStart(n, j) + k * j && ps[0] == Center
        invariant forall t :: 0 < t < |ps| ==> Sampled(n, r, ps[t]) && PointIndex(n, ps[t]) == t
      {
        for i := 0 to j
          invariant |ps| == RingStart(n, j) + k * j + i && ps[0] == Center
          invariant forall t :: 0 < t < |ps| ==> Sampled(n, r, ps[t]) && PointIndex(n, ps[t]) == t
        {
          ps := ps + [OnRing(j, k, i)];
        }
        assert RingStart(n, j) + k * j + j == RingStart(n, j) + (k + 1) * j;
      }
      RingNext(n, j);
    }
    PointCountClosedForm(n, r);
    RingComplete(n, r, ps);
  }

  /** A sequence that lists every ring point at its own index lists all of them. */
  lemma RingComplete(n: nat, r: nat, ps: seq<DomainPoint>)
    requires |ps| == RingStart(n, r + 1)
    requires forall t :: 0 < t < |ps| ==> Sampled(n, r, ps[t]) && PointIndex(n, ps[t]) == t
    ensures forall p :: Sampled(n, r, p) ==> PointIndex(n, p) < |ps| && ps[PointIndex(n, p)] == p
  {
    forall p | Sampled(n, r, p)
      ensures PointIndex(n, p) < |ps| && ps[PointIndex(n, p)] == p
    {
      SampledInRing(n, r, p);
      TriangularLe(p.ring + 1, r + 1);
      MulLe(n, Triangular(p.ring + 1), Triangular(r + 1));
      var q := ps[PointIndex(n, p)];
      PointIndexInjective(n, r, p, q);
    }
  }

  /* ---------------------------------------------------------------------- */
  /* Triangulation                                                           */
  /* ---------------------------------------------------------------------- */

  /** First index of ring L - 1, the inner ring of layer L (the center for L = 1). */
  function InnerStart(n: nat, layer: nat): nat
  {
    if layer <= 1 then 0 else RingStart(n, layer - 1)
  }

  /** Step `v` of side `s` is the last one of layer L: the layer closes there. */
  predicate Closing(n: nat, layer: nat, s: nat, v: nat)
  {
    s == n - 1 && v == layer - 1
  }

  /** The outer-ring vertex of step v of side s in layer L. */
  function Outer(n: nat, layer: nat, s: nat, v: nat): nat
  {
    RingStart(n, layer) + s * layer + v
  }

  /** The next outer vertex; the last step wraps to the first point of ring L. */
  function NextOuter(n: nat, layer: nat, s: nat, v: nat): nat
  {
    if Closing(n, layer, s, v) then RingStart(n, layer) else Outer(n, layer, s, v) + 1
  }

  /**
   * The inner-ring vertex of step v of side s in layer L; sides share their
   * corner vertices and the last step wraps to the first point of ring L - 1.
   */
  function Inner(n: nat, layer: nat, s: nat, v: nat): nat
    requires layer >= 1
  {
    if Closing(n, layer, s, v) then InnerStart(n, layer)
    else InnerStart(n, layer) + s * (layer - 1) + v
  }

  /** The triangles of step v: one with an outer edge, and one with an inner edge unless v is last. */
  function Step(n: nat, layer: nat, s: nat, v: nat): seq<Triangle>
    requires layer >= 1
  {
    [Triangle(Inner(n, layer, s, v), Outer(n, layer, s, v), NextOuter(n, layer, s, v))]
      + if v + 1 < layer
        then [Triangle(Inner(n, layer, s, v), NextOuter(n, layer, s, v), Inner(n, layer, s, v + 1))]
        else []
  }

  /** Steps 0..v-1 of side s in layer L. */
  function Steps(n: nat, layer: nat, s: nat, v: nat): seq<Triangle>
    requires layer >= 1
  {
    if v == 0 then [] else Steps(n, layer, s, v - 1) + Step(n, layer, s, v - 1)
  }

  /** Sides 0..s-1 of layer L, each with all of its `layer` steps. */
  function Sides(n: nat, layer: nat, s: nat): seq<Triangle>
    requires layer >= 1
  {
    if s == 0 then [] else Sides(n, layer, s - 1) + Steps(n, layer, s - 1, layer)
  }

  /** Layers 1..r, in the order `triangles` adds them. */
  function Layers(n: nat, r: nat): seq<Triangle>
  {
    if r == 0 then [] else Layers(n, r - 1) + Sides(n, r, n)
  }

  /*
   * `StepsSucc`, `SidesSucc` and `Assoc` are one-step unfoldings of the
   * definitions (and associativity of concatenation), stated apart so that
   * the loop proofs of `Triangles` each instantiate one small fact instead of
   * unfolding the recursive functions themselves.
   */

  /** Unfolding of `Steps` by one step, kept apart from the arithmetic of `Triangles`. */
  lemma StepsSucc(n: nat, layer: nat, s: nat, v: nat)
    requires layer >= 1
    ensures Steps(n, layer, s, v + 1) == Steps(n, layer, s, v) + Step(n, layer, s, v)
  {
  }

  /** Unfolding of `Sides` by one side. */
  lemma SidesSucc(n: nat, layer: nat, s: nat)
    requires layer >= 1
    ensures Sides(n, layer, s + 1) == Sides(n, layer, s) + Steps(n, layer, s, layer)
  {
  }

  /** Concatenation of three pieces regrouped. */
  lemma Assoc(a: seq<Triangle>, b: seq<Triangle>, c: seq<Triangle>)
    ensures (a + b) + c == a + (b + c)
  {
  }

  /** The size `triangles` reserves for the mesh: exactly the points `vertices` emits. */
  function ReservedPoints(n: nat, r: nat): (c: nat)
    ensures c == RingStart(n, r + 1)
  {
    PointCountClosedForm(n, r);
    1 + n * r * (r + 1) / 2
  }

  /**
   * `triangles(n, resolution)`: the counters `outer_vert`, `inner_vert` and
   * `inner_start` walk rings L and L - 1 while each side of each layer adds
   * its steps. At the start of layer L, `outer_vert` is the first index of
   * ring L and `inner_start` that of ring L - 1. The mesh has n r^2
   * triangles, all of whose indices name reserved points.
   */
  method Triangles(n: nat, r: nat) returns (mesh: Mesh)
    ensures mesh == Mesh(ReservedPoints(n, r), Layers(n, r))
    ensures ValidMesh(mesh) && |mesh.triangles| == n * r * r
  {
    var count := ReservedPoints(n, r);
    mesh := Mesh(count, []);
    var innerStart, outerVert := 0, 1;
    for layer := 1 to r + 1
      invariant outerVert == RingStart(n, layer)
      invariant innerStart == InnerStart(n, layer)
      invariant mesh.pointCount == count && mesh.triangles == Layers(n, layer - 1)
    {
      var innerVert, outerStart := innerStart, outerVert;
      ghost var before := mesh.triangles;
      for side := 0 to n
        invariant outerStart == RingStart(n, layer)
        invariant outerVert == RingStart(n, layer) + side * layer
        invariant side < n ==> innerVert == InnerStart(n, layer) + side * (layer - 1)
        invariant mesh.pointCount == count && mesh.triangles == before + Sides(n, layer, side)
      {
        Assoc(before, Sides(n, layer, side), Steps(n, layer, side, layer));
        SidesSucc(n, layer, side);
        innerVert, outerVert, mesh := SideSteps(n, layer, side, innerStart, outerStart, innerVert, outerVert, mesh);
        MulSucc(side, layer);
        MulSucc(side, layer - 1);
      }
      RingNext(n, layer);
      innerStart := outerStart;
    }
    LayersCount(n, r);
    LayersBounded(n, r);
  }

  /**
   * The `while (true)` loop of `triangles` for one side: step `vert` adds
   * the triangle with an outer edge and, unless it is the last step, the
   * one with an inner edge; the last step of the last side wraps both
   * rings back to their first point.
   */
  method SideSteps(n: nat, layer: nat, side: nat, innerStart: nat, outerStart: nat,
                   innerVert0: nat, outerVert0: nat, mesh0: Mesh)
    returns (innerVert: nat, outerVert: nat, mesh: Mesh)
    requires layer >= 1 && side < n
    requires innerStart == InnerStart(n, layer) && outerStart == RingStart(n, layer)
    requires innerVert0 == Inner(n, layer, side, 0) && outerVert0 == Outer(n, layer, side, 0)
    ensures mesh.pointCount == mesh0.pointCount
    ensures mesh.triangles == mesh0.triangles + Steps(n, layer, side, layer)
    ensures outerVert == Outer(n, layer, side, layer - 1) + 1
    ensures innerVert == Inner(n, layer, side, layer - 1)
  {
    innerVert, outerVert, mesh := innerVert0, outerVert0, mesh0;
    var vert := 0;
    while true
      invariant vert < layer
      invariant outerVert == Outer(n, layer, side, vert)
      invariant innerVert == Inner(n, layer, side, vert)
      invariant mesh.pointCount == mesh0.pointCount
      invariant mesh.triangles == mesh0.triangles + Steps(n, layer, side, vert)
      decreases layer - vert
    {
      var nextVert := if side == n - 1 && vert == layer - 1 then outerStart else outerVert + 1;
      ghost var v := vert;
      ghost var pre := mesh.triangles;
      StepsSucc(n, layer, side, v);
      Assoc(mesh0.triangles, Steps(n, layer, side, v), Step(n, layer, side, v));
      mesh := AddTriangle(mesh, Triangle(innerVert, outerVert, nextVert));
      outerVert := outerVert + 1;
      vert := vert + 1;
      if vert == layer {
        assert Step(n, layer, side, v) == [Triangle(innerVert, outerVert - 1, nextVert)];
        break;
      }
      var innerNext := if side == n - 1 && vert == layer - 1 then innerStart else innerVert + 1;
      mesh := AddTriangle(mesh, Triangle(innerVert, nextVert, innerNext));
      assert Step(n, layer, side, v)
          == [Triangle(innerVert, outerVert - 1, nextVert), Triangle(innerVert, nextVert, innerNext)];
      assert mesh.triangles == pre + Step(n, layer, side, v);
      innerVert := innerNext;
    }
  }

  lemma {:induction false} StepsCount(n: nat, layer: nat, s: nat, v: nat)
    requires 1 <= layer && v <= layer
    ensures |Steps(n, layer, s, v)| == if v < layer then 2 * v else 2 * layer - 1
  {
    if v > 0 {
      StepsCount(n, layer, s, v - 1);
    }
  }

  /** Every side of layer L adds 2L - 1 triangles. */
  lemma {:induction false} SidesCount(n: nat, layer: nat, s: nat)
    requires layer >= 1
    ensures |Sides(n, layer, s)| == s * (2 * layer - 1)
  {
    if s > 0 {
      SidesCount(n, layer, s - 1);
      StepsCount(n, layer, s - 1, layer);
      MulSucc(s - 1, 2 * layer - 1);
    }
  }

  /** Layer L adds n(2L - 1) triangles, so resolution r gives n r^2. */
  lemma {:induction false} LayersCount(n: nat, r: nat)
    ensures |Layers(n, r)| == n * r * r
  {
    if r > 0 {
      LayersCount(n, r - 1);
      SidesCount(n, r, n);
      SquareStep(n, r);
    }
  }

  lemma SquareStep(n: nat, r: nat)
    requires r >= 1
    ensures n * (r - 1) * (r - 1) + n * (2 * r - 1) == n * r * r
  {
    var square := (r - 1) * (r - 1);
    assert square + (2 * r - 1) == r * r;
    assert n * (r - 1) * (r - 1) == n * square;
    assert n * square + n * (2 * r - 1) == n * (square + (2 * r - 1));
  }

  /**
   * A triangle of layer L has its first vertex on the inner ring L - 1, its
   * second on the outer ring L and its third on one of the two.
   */
  predicate BetweenRings(n: nat, layer: nat, t: Triangle)
    requires layer >= 1
  {
    InRing(n, layer - 1, t.a) && InRing(n, layer, t.b)
    && (InRing(n, layer - 1, t.c) || InRing(n, layer, t.c))
  }

  predicate AllBetweenRings(n: nat, layer: nat, tris: seq<Triangle>)
    requires layer >= 1
  {
    forall t :: 0 <= t < |tris| ==> BetweenRings(n, layer, tris[t])
  }

  lemma InnerInRing(n: nat, layer: nat, s: nat, v: nat)
    requires layer >= 1 && s < n && v < layer
    ensures InRing(n, layer - 1, Inner(n, layer, s, v))
  {
    if layer > 1 {
      var j := layer - 1;
      RingNext(n, j);
      if Closing(n, layer, s, v) {
        OffsetInRing(n, j, 0, 0);
      } else if v < j {
        OffsetInRing(n, j, s, v);
      } else {
        MulSucc(s, j);
        OffsetInRing(n, j, s + 1, 0);
      }
    }
  }

  lemma OuterInRing(n: nat, layer: nat, s: nat, v: nat)
    requires layer >= 1 && s < n && v < layer
    ensures InRing(n, layer, Outer(n, layer, s, v))
    ensures InRing(n, layer, NextOuter(n, layer, s, v))
  {
    RingNext(n, layer);
    OffsetInRing(n, layer, s, v);
    if !Closing(n, layer, s, v) {
      if v + 1 < layer {
        OffsetInRing(n, layer, s, v + 1);
      } else {
        OffsetInRing(n, layer, s + 1, 0);
      }
    }
  }

  lemma {:induction false} StepsBetweenRings(n: nat, layer: nat, s: nat, v: nat)
    requires layer >= 1 && s < n && v <= layer
    ensures AllBetweenRings(n, layer, Steps(n, layer, s, v))
  {
    if v > 0 {
      StepsBetweenRings(n, layer, s, v - 1);
      InnerInRing(n, layer, s, v - 1);
      OuterInRing(n, layer, s, v - 1);
      if v < layer {
        InnerInRing(n, layer, s, v);
      }
      StepsSucc(n, layer, s, v - 1);
    }
  }

  lemma {:induction false} SidesBetweenRings(n: nat, layer: nat, s: nat)
    requires layer >= 1 && s <= n
    ensures AllBetweenRings(n, layer, Sides(n, layer, s))
  {
    if s > 0 {
      SidesBetweenRings(n, layer, s - 1);
      StepsBetweenRings(n, layer, s - 1, layer);
    }
  }

  /** Rings up to r hold indices below the first index of ring r + 1. */
  lemma RingBelow(n: nat, j: nat, r: nat, x: nat)
    requires j <= r && InRing(n, j, x)
    ensures x < RingStart(n, r + 1)
  {
    TriangularLe(j + 1, r + 1);
    MulLe(n, Triangular(j + 1), Triangular(r + 1));
  }

  /** Every index of the triangulation names one of the 1 + n r(r+1)/2 points. */
  lemma {:induction false} LayersBounded(n: nat, r: nat)
    ensures IndicesBelow(Layers(n, r), RingStart(n, r + 1))
  {
    if r > 0 {
      LayersBounded(n, r - 1);
      SidesBetweenRings(n, r, n);
      var prefix, last := Layers(n, r - 1), Sides(n, r, n);
      forall t | 0 <= t < |Layers(n, r)|
        ensures Layers(n, r)[t].a < RingStart(n, r + 1) && Layers(n, r)[t].b < RingStart(n, r + 1)
                && Layers(n, r)[t].c < RingStart(n, r + 1)
      {
        if t < |prefix| {
          var tri := prefix[t];
          assert Layers(n, r)[t] == tri;
          RingNext(n, r);
        } else {
          var tri := last[t - |prefix|];
          assert Layers(n, r)[t] == tri;
          assert BetweenRings(n, r, tri);
          RingBelow(n, r - 1, r, tri.a);
          RingBelow(n, r, r, tri.b);
          if InRing(n, r - 1, tri.c) {
            RingBelow(n, r - 1, r, tri.c);
          } else {
            RingBelow(n, r, r, tri.c);
          }
        }
      }
    }
  }

  /**
   * Layer L closes its rings: its last triangle joins the first point of
   * ring L - 1, the last point of ring L and the first point of ring L.
   */
  lemma LayerCloses(n: nat, layer: nat)
    requires n >= 1 && layer >= 1
    ensures |Sides(n, layer, n)| > 0
    ensures Sides(n, layer, n)[|Sides(n, layer, n)| - 1]
         == Triangle(InnerStart(n, layer), RingStart(n, layer + 1) - 1, RingStart(n, layer))
  {
    SidesSucc(n, layer, n - 1);
    StepsSucc(n, layer, n - 1, layer - 1);
    RingNext(n, layer);
    assert (n - 1) * layer + layer == n * layer;
  }
}
