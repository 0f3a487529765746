/**
 * The multi-index bookkeeping of the Zheng-Ball patch evaluator: the number
 * of control points of an n-sided patch of depth m, the multiplicative
 * binomial coefficient, the boundary/interior case analysis that picks the
 * blending function of every control point, the final correction that makes
 * the weights sum to one, and the loading of the control net.
 *
 * Weights are exact reals; parameters `u` are given reals and powers have
 * natural exponents. Floating-point rounding is not modelled.
 */
module ZhengBall {
  import opened Lattice

  /** A multi-index: one natural entry per side of the patch. */
  type Index = seq<nat>

  /** A control point or an evaluated surface point. */
  datatype Point3 = Point3(x: real, y: real, z: real)

  const Origin := Point3(0.0, 0.0, 0.0)

  function Plus(a: Point3, b: Point3): Point3
  {
    Point3(a.x + b.x, a.y + b.y, a.z + b.z)
  }

  function Minus(a: Point3, b: Point3): Point3
  {
    Point3(a.x - b.x, a.y - b.y, a.z - b.z)
  }

  function Scale(a: Point3, c: real): Point3
  {
    Point3(a.x * c, a.y * c, a.z * c)
  }

  /** `size_t` arithmetic: results are taken modulo 2^64. */
  const SizeModulus: nat := 0x1_0000_0000_0000_0000

  function Wrap(x: int): (r: nat)
    ensures r < SizeModulus
    ensures 0 <= x < SizeModulus ==> r == x
  {
    x % SizeModulus
  }

  /* ---------------------------------------------------------------------- */
  /* Control point count                                                     */
  /* ---------------------------------------------------------------------- */

  lemma CountNumeratorNonNegative(n: nat, m: nat)
    ensures m % 2 == 0 ==> n * (m - 2) * m >= 0
  {
    if m % 2 == 0 && m >= 2 {
      assert (m - 2) * m >= 0;
      assert n * (m - 2) * m == n * ((m - 2) * m);
    }
  }

  /**
   * `numControlPoints(n, m, only_inside)`: T interior control points, and
   * n m more on the boundary. For m = 0 the product vanishes, so the
   * unsigned wrap of m - 2 has no effect and T = 1; for m = 1 there is no
   * interior point at all.
   */
  function NumControlPoints(n: nat, m: nat, onlyInside: bool): (r: nat)
    ensures m == 0 ==> r == 1
    ensures m == 1 ==> r == (if onlyInside then 0 else n)
    ensures !onlyInside ==> r >= n * m
  {
    CountNumeratorNonNegative(n, m);
    var t := if m % 2 == 0 then n * (m - 2) * m / 4 + 1 else n * (m - 1) * (m - 1) / 4;
    if onlyInside then t else t + n * m
  }

  /**
   * The division by 4 is exact: for even m >= 2 there are
   * n ((m-2)/2)(m/2) + 1 interior points, for odd m n ((m-1)/2)^2, and the
   * boundary adds n m.
   */
  lemma NumControlPointsExact(n: nat, m: nat)
    ensures m == 0 ==> NumControlPoints(n, m, true) == 1
    ensures m >= 2 && m % 2 == 0 ==>
              NumControlPoints(n, m, true) == n * ((m - 2) / 2) * (m / 2) + 1
              && 4 * (NumControlPoints(n, m, true) - 1) == n * (m - 2) * m
    ensures m % 2 == 1 ==>
              NumControlPoints(n, m, true) == n * ((m - 1) / 2) * ((m - 1) / 2)
              && 4 * NumControlPoints(n, m, true) == n * (m - 1) * (m - 1)
    ensures NumControlPoints(n, m, false) == NumControlPoints(n, m, true) + n * m
  {
    var h := m / 2;
    if m % 2 == 0 && m >= 2 {
      assert m - 2 == 2 * (h - 1);
      assert n * (m - 2) * m == 4 * (n * (h - 1) * h) by {
        assert n * (2 * (h - 1)) * (2 * h) == 4 * (n * (h - 1) * h);
      }
    } else if m % 2 == 1 {
      assert m - 1 == 2 * h;
      assert n * (m - 1) * (m - 1) == 4 * (n * h * h) by {
        assert n * (2 * h) * (2 * h) == 4 * (n * h * h);
      }
    }
  }

  /**
   * With at least one side, the interior count T that `eval` divides by is
   * zero exactly for degree 1.
   */
  lemma {:induction false} InteriorCountVanishes(n: nat, m: nat)
    requires n >= 1
    ensures NumControlPoints(n, m, true) == 0 <==> m == 1
  {
    NumControlPointsExact(n, m);
    if m % 2 == 1 && m >= 3 {
      var h := (m - 1) / 2;
      assert h >= 1;
      assert n * h >= 1;
      assert n * h * h >= n * h;
    }
  }

  /* ---------------------------------------------------------------------- */
  /* Binomial coefficients                                                   */
  /* ---------------------------------------------------------------------- */

  /** Binomial coefficients by Pascal's rule. */
  function Choose(n: nat, k: nat): nat
  {
    if k == 0 then 1 else if n == 0 then 0 else Choose(n - 1, k - 1) + Choose(n - 1, k)
  }

  function Factorial(n: nat): nat
  {
    if n == 0 then 1 else n * Factorial(n - 1)
  }

  /** There is no way to pick more than n of n. */
  lemma {:induction false} ChooseAbove(n: nat, k: nat)
    requires k > n
    ensures Choose(n, k) == 0
  {
    if n > 0 {
      ChooseAbove(n - 1, k - 1);
      ChooseAbove(n - 1, k);
    }
  }

  /** The algebra of one Pascal step of `ChooseStep`. */
  lemma PascalStep(a: int, b: int, c: int, n: int, d: int)
    requires b * d == a * (n - d) && a * (d - 1) == c * (n - d + 1)
    ensures (a + b) * d == (c + a) * (n - d + 1)
  {
    assert (a + b) * d == a * d + b * d;
    assert a * d + a * (n - d) == a * n;
    assert (c + a) * (n - d + 1) == c * (n - d + 1) + a * (n - d + 1);
    assert a * (d - 1) + a * (n - d + 1) == a * n;
  }

  /** The ratio of neighbouring coefficients: C(n, d) d = C(n, d - 1)(n - d + 1). */
  lemma {:induction false} ChooseStep(n: nat, d: nat)
    requires d >= 1
    ensures Choose(n, d) * d == Choose(n, d - 1) * (n - d + 1)
  {
    if n == 0 {
      if d > 1 {
        ChooseAbove(0, d - 1);
      }
    } else {
      var a, b := Choose(n - 1, d - 1), Choose(n - 1, d);
      assert Choose(n, d) == a + b;
      ChooseStep(n - 1, d);
      if d == 1 {
        assert a == 1 && b == n - 1 && Choose(n, 0) == 1;
      } else {
        var c := Choose(n - 1, d - 2);
        assert Choose(n, d - 1) == c + a;
        ChooseStep(n - 1, d - 1);
        PascalStep(a, b, c, n, d);
      }
    }
  }

  /** Pascal's rule agrees with the factorial formula n! / (k! (n - k)!). */
  lemma {:induction false} ChooseFactorial(n: nat, k: nat)
    requires k <= n
    ensures Choose(n, k) * Factorial(k) * Factorial(n - k) == Factorial(n)
  {
    if k > 0 {
      ChooseFactorial(n, k - 1);
      ChooseStep(n, k);
      FactorialRatio(Choose(n, k), k, Choose(n, k - 1), n - k + 1,
                     Factorial(k - 1), Factorial(n - k));
      assert Factorial(n - (k - 1)) == (n - k + 1) * Factorial(n - k);
    }
  }

  lemma FactorialRatio(c: int, k: int, c1: int, nk1: int, fk1: int, fnk: int)
    requires c * k == c1 * nk1
    ensures c * (k * fk1) * fnk == c1 * fk1 * (nk1 * fnk)
  {
    calc {
      c * (k * fk1) * fnk;
      (c * k) * fk1 * fnk;
      (c1 * nk1) * fk1 * fnk;
      c1 * fk1 * (nk1 * fnk);
    }
  }

  lemma QuotientUnique(d: nat, q: nat, r: nat, x: nat)
    requires 0 <= r < d && d * q + r == d * x
    ensures q == x
  {
    if q < x {
      MulLe(d, q + 1, x);
    }
  }

  lemma DivideExact(x: nat, d: nat)
    requires d > 0
    ensures x * d / d == x
  {
    QuotientUnique(d, x * d / d, x * d % d, x);
  }

  /**
   * `binomial(n, k)`: 0 when k > n; otherwise `result` runs through
   * C(n, 0), C(n, 1), ..., C(n, k), so every division `result * n / d` is
   * exact. The source counts its own parameter n down; `top` is that
   * counter.
   */
  method Binomial(n: nat, k: nat) returns (r: nat)
    ensures r == Choose(n, k)
    ensures k > n ==> r == 0
    ensures k == 0 ==> r == 1
  {
    if k > n {
      ChooseAbove(n, k);
      return 0;
    }
    r := 1;
    var top := n;
    for d := 1 to k + 1
      invariant top == n - d + 1
      invariant r == Choose(n, d - 1)
    {
      ChooseStep(n, d);
      DivideExact(Choose(n, d), d);
      r := r * top / d;
      top := top - 1;
    }
  }

  /* ---------------------------------------------------------------------- */
  /* Blending functions                                                      */
  /* ---------------------------------------------------------------------- */

  /** The side counts for which `coefficient` is defined. */
  predicate Supported(n: nat)
  {
    n == 3 || n == 5 || n == 6
  }

  /** `coefficient(n)`: the factor of the correction term of the boundary blends. */
  function Coefficient(n: nat): (c: real)
    requires Supported(n)
    ensures c > 0.0
    ensures n == 5 ==> c == 1.0
    ensures n != 5 ==> c == 2.0
  {
    match n
    case 3 => 2.0
    case 5 => 1.0
    case 6 => 2.0
  }

  /** `std::pow` with a natural exponent, over exact reals. */
  function Pow(x: real, e: nat): real
  {
    if e == 0 then 1.0 else x * Pow(x, e - 1)
  }

  /** `std::find(l, 0)`: the position of the first zero entry, |l| if there is none. */
  function FirstZero(l: Index): (i: nat)
    ensures i <= |l|
    ensures i < |l| ==> l[i] == 0
    ensures forall j :: 0 <= j < i ==> l[j] != 0
  {
    if |l| == 0 then 0
    else if l[0] == 0 then 0
    else 1 + FirstZero(l[1..])
  }

  /** `std::min_element(l)`: the position of the first smallest entry. */
  function MinPos(l: Index): (i: nat)
    requires |l| > 0
    ensures i < |l|
    ensures forall j :: 0 <= j < |l| ==> l[i] <= l[j]
    ensures forall j :: 0 <= j < i ==> l[j] > l[i]
  {
    if |l| == 1 then 0
    else
      var t := MinPos(l[1..]);
      if l[0] <= l[1 + t] then 0 else 1 + t
  }

  /** A control point is interior when its multi-index has no zero entry. */
  predicate IsInterior(l: Index)
  {
    FirstZero(l) == |l|
  }

  lemma InteriorMeansNoZero(l: Index)
    ensures IsInterior(l) <==> forall j :: 0 <= j < |l| ==> l[j] != 0
  {
  }

  /** Cyclic predecessor and successor of position i among n. */
  function Pred(i: nat, n: nat): nat
    requires n >= 1
  {
    (i + n - 1) % n
  }

  function Succ(i: nat, n: nat): nat
    requires n >= 1
  {
    (i + 1) % n
  }

  lemma PredSucc(i: nat, n: nat)
    requires n >= 1 && i < n
    ensures Pred(i, n) < n && Succ(i, n) < n
    ensures Pred(Succ(i, n), n) == i && Succ(Pred(i, n), n) == i
  {
    ModSmall(i + n - 1, n);
    ModSmall(i + 1, n);
    ModSmall(Succ(i, n) + n - 1, n);
    ModSmall(Pred(i, n) + 1, n);
  }

  /**
   * The pair (im, i) of an interior multi-index: the first smallest entry
   * and whichever of its cyclic neighbours is smaller, the predecessor on a
   * tie; `im` is always the cyclic predecessor of `i`.
   */
  function InteriorPair(l: Index): (r: (nat, nat))
    requires |l| >= 1
    ensures r.0 < |l| && r.1 < |l|
    ensures r.0 == Pred(r.1, |l|)
    ensures r.0 == MinPos(l) || r.1 == MinPos(l)
    ensures r.1 == MinPos(l) ==> l[r.0] <= l[Succ(MinPos(l), |l|)]
    ensures r.0 == MinPos(l) && r.1 != MinPos(l) ==> l[r.1] < l[Pred(MinPos(l), |l|)]
  {
    var n := |l|;
    var i := MinPos(l);
    PredSucc(i, n);
    var im, ip := Pred(i, n), Succ(i, n);
    if l[im] > l[ip] then (i, ip) else (im, i)
  }

  /** The positions 0..n-1. */
  function Below(n: nat): (s: set<nat>)
    ensures forall j: int :: j in s <==> 0 <= j < n
    decreases n
  {
    if n == 0 then {} else Below(n - 1) + {n - 1}
  }

  lemma {:induction false} BelowSize(n: nat)
    ensures |Below(n)| == n
  {
    if n > 0 {
      BelowSize(n - 1);
    }
  }

  /** Positions other than a side i and its two neighbours. */
  function Others(n: nat, i: nat): set<nat>
    requires n >= 1
  {
    Below(n) - {Pred(i, n), i, Succ(i, n)}
  }

  /**
   * On side i of a patch with n >= 3 sides, the positions im, i and ip are
   * three distinct positions, and the extra-power loop covers the other
   * n - 3.
   */
  lemma BoundaryRoles(n: nat, i: nat)
    requires n >= 3 && i < n
    ensures Pred(i, n) < n && Succ(i, n) < n
    ensures Pred(i, n) != i && Succ(i, n) != i && Pred(i, n) != Succ(i, n)
    ensures |Others(n, i)| == n - 3
  {
    var im, ip := Pred(i, n), Succ(i, n);
    assert im < n && ip < n && im != i && ip != i && im != ip by {
      ModSmall(i + n - 1, n);
      ModSmall(i + 1, n);
    }
    ThreeRemoved(n, im, i, ip);
  }

  /** Removing three distinct positions from 0 .. n - 1 leaves n - 3. */
  lemma ThreeRemoved(n: nat, a: nat, b: nat, c: nat)
    requires a < n && b < n && c < n && a != b && a != c && b != c
    ensures |Below(n) - {a, b, c}| == n - 3
  {
    BelowSize(n);
    var s := {a, b, c};
    assert |s| == 3;
    var rest := Below(n) - s;
    assert rest + s == Below(n);
    assert rest * s == {};
  }

  /**
   * The guard of the extra-power loop selects exactly the positions in
   * `Others`: a position below n gets the factor u[j]^m iff it is none of
   * im, i and ip.
   */
  lemma OthersGuard(n: nat, i: nat, j: nat)
    requires n >= 1 && j < n
    ensures (j != Pred(i, n) && j != i && j != Succ(i, n)) <==> j in Others(n, i)
  {
  }

  /** c u[0]^l[0] ... u[count-1]^l[count-1], multiplied in from the left. */
  function PowProduct(c: real, u: seq<real>, l: Index, count: nat): real
    requires count <= |u| && count <= |l|
  {
    if count == 0 then c else PowProduct(c, u, l, count - 1) * Pow(u[count - 1], l[count - 1])
  }

  /** c times u[j]^m for every position j < count other than im, i and ip. */
  function OthersProduct(c: real, u: seq<real>, m: nat, im: nat, i: nat, ip: nat, count: nat): real
    requires count <= |u|
  {
    if count == 0 then c
    else
      var j := count - 1;
      var acc := OthersProduct(c, u, m, im, i, ip, j);
      if j != im && j != i && j != ip then acc * Pow(u[j], m) else acc
  }

  /** u[0] ... u[count-1]. */
  function Product(u: seq<real>, count: nat): real
    requires count <= |u|
  {
    if count == 0 then 1.0 else Product(u, count - 1) * u[count - 1]
  }

  /**
   * The special factor of three-sided boundary blends, computed with the
   * unsigned subtractions of the source. On well-formed input it is k
   * where the two branches meet (m = 2k), and for parameters in [0, 1] it
   * lies between k and m - k.
   */
  function ThreeSidedFactor(m: nat, k: nat, uim: real, uip: real): (f: real)
    ensures k <= m < SizeModulus && m == 2 * k ==> f == k as real
    ensures k <= m < SizeModulus && 0.0 <= uim <= 1.0 && 0.0 <= uip <= 1.0 ==>
              (if k <= m - k then k else m - k) as real <= f
              && f <= (if k <= m - k then m - k else k) as real
  {
    var a, b, c := Wrap(m - k), Wrap(2 * k - m), Wrap(m - 2 * k);
    Interpolates(a, b, uip);
    Interpolates(k, c, uim);
    if a <= k then a as real + b as real * uip
    else k as real + c as real * uim
  }

  /** lo + span u runs from lo to lo + span as u runs over [0, 1]. */
  lemma Interpolates(lo: nat, span: nat, u: real)
    ensures 0.0 <= u <= 1.0 ==>
              lo as real <= lo as real + span as real * u <= (lo + span) as real
  {
    if 0.0 <= u <= 1.0 {
      assert span as real * u <= span as real * 1.0;
    }
  }

  /**
   * When k <= m none of the three unsigned subtractions wraps: the branch
   * m - k <= k has 2k - m >= 0 and the other one m - 2k > 0, and both
   * branches give k where they meet (m = 2k).
   */
  lemma ThreeSidedNoWrap(m: nat, k: nat, uim: real, uip: real)
    requires k <= m < SizeModulus
    ensures Wrap(m - k) == m - k
    ensures m - k <= k ==> 2 * k - m >= 0 && Wrap(2 * k - m) == 2 * k - m
    ensures m - k > k ==> m - 2 * k > 0 && Wrap(m - 2 * k) == m - 2 * k
    ensures ThreeSidedFactor(m, k, uim, uip)
         == if m - k <= k then (m - k) as real + (2 * k - m) as real * uip
            else k as real + (m - 2 * k) as real * uim
    ensures m == 2 * k ==> ThreeSidedFactor(m, k, uim, uip) == k as real
  {
  }

  /** A multi-index whose weight `eval` can compute for parameter u. */
  predicate Admissible(n: nat, u: seq<real>, l: Index)
  {
    n >= 1 && |l| == n && |u| >= n && (IsInterior(l) || Supported(n))
  }

  /** The blending function (4.5b) of an interior control point. */
  function InteriorWeight(n: nat, m: nat, u: seq<real>, l: Index): real
    requires n >= 1 && |l| == n && |u| >= n
  {
    var pair := InteriorPair(l);
    PowProduct((Choose(m, l[pair.0]) * Choose(m, l[pair.1])) as real, u, l, n)
  }

  /** The Bernstein factor C(m, k) a^k b^(m-k) of the two neighbouring sides. */
  function SideBernstein(m: nat, k: nat, a: real, b: real): real
  {
    Choose(m, k) as real * Pow(a, k) * Pow(b, Wrap(m - k))
  }

  /**
   * The blending function (4.5a) of a control point on side i: the
   * Bernstein factor of the neighbouring sides, u[j]^m for every other side
   * and the correction factor, the special one (3.2b) when n = 3.
   */
  function BoundaryWeight(n: nat, m: nat, u: seq<real>, l: Index): real
    requires n >= 1 && |l| == n && |u| >= n && Supported(n) && FirstZero(l) < n
  {
    var i := FirstZero(l);
    var im, ip := Pred(i, n), Succ(i, n);
    var k := l[im];
    var base := OthersProduct(SideBernstein(m, k, u[im], u[ip]), u, m, im, i, ip, n);
    base * SideCorrection(n, m, u, i, k)
  }

  /**
   * The last factor of a boundary blend on side i: 1 - u[i] f for three
   * sides (3.2b), 1 - m c(n) u[0]...u[n-1] otherwise.
   */
  function SideCorrection(n: nat, m: nat, u: seq<real>, i: nat, k: nat): real
    requires n >= 1 && |u| >= n && Supported(n) && i < n
  {
    var im, ip := Pred(i, n), Succ(i, n);
    if n == 3 then 1.0 - u[i] * ThreeSidedFactor(m, k, u[im], u[ip])
    else 1.0 - m as real * Coefficient(n) * Product(u, n)
  }

  /** The blending function of control point l at parameter u. */
  function Weight(n: nat, m: nat, u: seq<real>, l: Index): real
    requires Admissible(n, u, l)
  {
    if IsInterior(l) then InteriorWeight(n, m, u, l) else BoundaryWeight(n, m, u, l)
  }

  /**
   * The body of the first loop of `eval` for one control point: look for a
   * zero entry and compute the interior or the boundary blend.
   */
  method BlendingWeight(n: nat, m: nat, u: seq<real>, l: Index) returns (b: real)
    requires Admissible(n, u, l)
    ensures b == Weight(n, m, u, l)
  {
    var i := FirstZero(l);
    if i == |l| {
      b := InteriorBlend(n, m, u, l);
    } else {
      b := BoundaryBlend(n, m, u, l, i);
    }
  }

  /**
   * The choice of the pair (im, i) for an interior control point: the
   * first minimum and its successor when the successor is strictly smaller
   * than the predecessor, otherwise the predecessor and the minimum.
   */
  method InteriorRoles(l: Index) returns (im: nat, i: nat)
    requires |l| >= 1
    ensures (im, i) == InteriorPair(l)
  {
    var n := |l|;
    i := MinPos(l);
    im := (i + n - 1) % n;
    var ip := (i + 1) % n;
    if l[im] > l[ip] {
      im := i;
      i := ip;
    }
  }

  /** Interior case: C(m, l[im]) C(m, l[i]) times every u[j]^l[j]. */
  method InteriorBlend(n: nat, m: nat, u: seq<real>, l: Index) returns (b: real)
    requires n >= 1 && |l| == n && |u| >= n
    ensures b == InteriorWeight(n, m, u, l)
  {
    var coef := InteriorCoefficient(m, l);
    b := coef;
    for j := 0 to n
      invariant b == PowProduct(coef, u, l, j)
    {
      var p := Pow(u[j], l[j]);
      PowProductStep(coef, u, l, j, b, p);
      b := b * p;
    }
  }

  lemma PowProductStep(c: real, u: seq<real>, l: Index, j: nat, b: real, p: real)
    requires j < |u| && j < |l| && b == PowProduct(c, u, l, j) && p == Pow(u[j], l[j])
    ensures b * p == PowProduct(c, u, l, j + 1)
  {
  }

  /** The binomial factor C(m, l[im]) C(m, l[i]) of an interior blend. */
  method InteriorCoefficient(m: nat, l: Index) returns (coef: real)
    requires |l| >= 1
    ensures coef == (Choose(m, l[InteriorPair(l).0]) * Choose(m, l[InteriorPair(l).1])) as real
  {
    var im, i := InteriorRoles(l);
    var c1 := Binomial(m, l[im]);
    var c2 := Binomial(m, l[i]);
    coef := (c1 * c2) as real;
  }

  /** Boundary case: side i is the first zero entry, im and ip its neighbours, k = l[im]. */
  method BoundaryBlend(n: nat, m: nat, u: seq<real>, l: Index, i: nat) returns (b: real)
    requires n >= 1 && |l| == n && |u| >= n && Supported(n)
    requires i == FirstZero(l) && i < n
    ensures b == BoundaryWeight(n, m, u, l)
  {
    var im, ip := (i + n - 1) % n, (i + 1) % n;
    var k := l[im];
    var base := SideBlend(n, m, u, k, im, i, ip);
    var g := SideCorrectionFactor(n, m, u, i, k);
    BoundaryWeightParts(n, m, u, l, i, im, ip, k, base, g);
    b := base * g;
  }

  /**
   * The first factors of a boundary blend: the Bernstein term of the side
   * im-ip times u[j]^m for every other position j.
   */
  method SideBlend(n: nat, m: nat, u: seq<real>, k: nat, im: nat, i: nat, ip: nat) returns (b: real)
    requires |u| >= n && im < n && ip < n
    ensures b == OthersProduct(SideBernstein(m, k, u[im], u[ip]), u, m, im, i, ip, n)
  {
    var c := Binomial(m, k);
    SideBernsteinBinomial(m, k, u[im], u[ip], c);
    b := c as real * Pow(u[im], k) * Pow(u[ip], Wrap(m - k));
    for j := 0 to n
      invariant b == OthersProduct(SideBernstein(m, k, u[im], u[ip]), u, m, im, i, ip, j)
    {
      if j != im && j != i && j != ip {
        b := b * Pow(u[j], m);
      }
    }
  }

  lemma SideBernsteinBinomial(m: nat, k: nat, a: real, b: real, c: nat)
    requires c == Choose(m, k)
    ensures SideBernstein(m, k, a, b) == c as real * Pow(a, k) * Pow(b, Wrap(m - k))
  {
  }

  lemma BoundaryWeightParts(n: nat, m: nat, u: seq<real>, l: Index, i: nat, im: nat, ip: nat, k: nat,
                            base: real, g: real)
    requires n >= 1 && |l| == n && |u| >= n && Supported(n)
    requires i == FirstZero(l) && i < n
    requires im == (i + n - 1) % n && ip == (i + 1) % n && k == l[im]
    requires base == OthersProduct(SideBernstein(m, k, u[im], u[ip]), u, m, im, i, ip, n)
    requires g == SideCorrection(n, m, u, i, k)
    ensures BoundaryWeight(n, m, u, l) == base * g
  {
    assert Pred(i, n) == im && Succ(i, n) == ip;
    assert l[Pred(i, n)] == k;
  }

  /** The last factor of the boundary case of `eval`, with the product loop of the source. */
  method SideCorrectionFactor(n: nat, m: nat, u: seq<real>, i: nat, k: nat) returns (g: real)
    requires n >= 1 && |u| >= n && Supported(n) && i < n
    ensures g == SideCorrection(n, m, u, i, k)
  {
    if n == 3 {
      var im, ip := (i + n - 1) % n, (i + 1) % n;
      var f := ThreeSidedFactor(m, k, u[im], u[ip]);
      g := 1.0 - u[i] * f;
    } else {
      var prod := 1.0;
      for j := 0 to n
        invariant prod == Product(u, j)
      {
        prod := prod * u[j];
      }
      g := 1.0 - m as real * Coefficient(n) * prod;
    }
  }

  /* ---------------------------------------------------------------------- */
  /* Control net and evaluation                                              */
  /* ---------------------------------------------------------------------- */

  /** A loaded patch: n sides, depth m and the control net keyed by multi-index. */
  datatype Patch = Patch(n: nat, m: nat, cnet: map<Index, Point3>)

  /** Every key of the control net has one entry per side. */
  predicate WellFormed(p: Patch)
  {
    forall l :: l in p.cnet ==> |l| == p.n
  }

  /** The multi-indices of s without a zero entry. */
  function InteriorKeys(s: set<Index>): set<Index>
  {
    set l | l in s && IsInterior(l)
  }

  /**
   * What `eval` needs: at least one side, a parameter per side, keys of the
   * right length, a correction coefficient for every boundary key (only
   * n = 3, 5, 6 have one) and a non-zero interior count T when the net
   * holds interior keys (the correction divides by T).
   */
  predicate EvalReady(p: Patch, u: seq<real>)
  {
    && p.n >= 1 && |u| >= p.n && WellFormed(p)
    && (Supported(p.n) || forall l :: l in p.cnet ==> IsInterior(l))
    && (NumControlPoints(p.n, p.m, true) > 0 || forall l :: l in p.cnet ==> !IsInterior(l))
  }

  /** The blending weight of every multi-index at u; 0 where none is defined. */
  function Blends(n: nat, m: nat, u: seq<real>): Index -> real
  {
    l => if Admissible(n, u, l) then Weight(n, m, u, l) else 0.0
  }

  /** Every control point of the net weighted by w. */
  function Terms(p: Patch, w: Index -> real): Index -> Point3
  {
    l => if l in p.cnet then Scale(p.cnet[l], w(l)) else Origin
  }

  /**
   * The amount S / T taken off every interior weight by the correction,
   * S the sum of the weights w over the net less one. The 0 for T = 0 is a
   * placeholder: `EvalReady` allows T = 0 only for a net without interior
   * keys, so the shift is then subtracted from nothing.
   */
  ghost function Shift(p: Patch, w: Index -> real): real
  {
    var t := NumControlPoints(p.n, p.m, true);
    if t == 0 then 0.0 else (SumR(p.cnet.Keys, w) - 1.0) / t as real
  }

  /** The subtracted term of every interior key. */
  function Corrections(p: Patch, shift: real): Index -> Point3
  {
    l => if l in p.cnet && IsInterior(l) then Scale(p.cnet[l], shift) else Origin
  }

  /** The corrected weight of every key: w, less S / T on interior keys. */
  ghost function CorrectedWeights(p: Patch, w: Index -> real): Index -> real
  {
    l => w(l) - (if IsInterior(l) then Shift(p, w) else 0.0)
  }

  /** Some element of a non-empty set of keys. */
  ghost function Pick(s: set<Index>): (l: Index)
    requires s != {}
    ensures l in s
  {
    var l :| l in s; l
  }

  /** The sum of f over a finite set of keys. */
  ghost function SumR(s: set<Index>, f: Index -> real): real
    decreases s
  {
    if s == {} then 0.0 else var l := Pick(s); f(l) + SumR(s - {l}, f)
  }

  /** The sum of the points f(l) over a finite set of keys. */
  ghost function SumP(s: set<Index>, f: Index -> Point3): Point3
    decreases s
  {
    if s == {} then Origin else var l := Pick(s); Plus(f(l), SumP(s - {l}, f))
  }

  /** A sum does not depend on which element is taken first. */
  lemma {:induction false} SumRRemove(s: set<Index>, f: Index -> real, y: Index)
    requires y in s
    ensures SumR(s, f) == SumR(s - {y}, f) + f(y)
    decreases s
  {
    var x := Pick(s);
    if x != y {
      SumRRemove(s - {x}, f, y);
      SumRRemove(s - {y}, f, x);
      assert s - {x} - {y} == s - {y} - {x};
    }
  }

  lemma {:induction false} SumPRemove(s: set<Index>, f: Index -> Point3, y: Index)
    requires y in s
    ensures SumP(s, f) == Plus(SumP(s - {y}, f), f(y))
    decreases s
  {
    var x := Pick(s);
    if x != y {
      SumPRemove(s - {x}, f, y);
      SumPRemove(s - {y}, f, x);
      assert s - {x} - {y} == s - {y} - {x};
    }
  }

  /** Sums are linear: the sum of differences is the difference of sums. */
  lemma {:induction false} SumRMinus(s: set<Index>, f: Index -> real, g: Index -> real, h: Index -> real)
    requires forall l :: l in s ==> h(l) == f(l) - g(l)
    ensures SumR(s, h) == SumR(s, f) - SumR(s, g)
    decreases s
  {
    if s != {} {
      SumRMinus(s - {Pick(s)}, f, g, h);
    }
  }

  lemma {:induction false} SumPMinus(s: set<Index>, f: Index -> Point3, g: Index -> Point3, h: Index -> Point3)
    requires forall l :: l in s ==> h(l) == Minus(f(l), g(l))
    ensures SumP(s, h) == Minus(SumP(s, f), SumP(s, g))
    decreases s
  {
    if s != {} {
      SumPMinus(s - {Pick(s)}, f, g, h);
    }
  }

  /** c added to itself k times. */
  function Repeat(c: real, k: nat): real
  {
    if k == 0 then 0.0 else Repeat(c, k - 1) + c
  }

  lemma {:induction false} RepeatIsProduct(c: real, k: nat)
    ensures Repeat(c, k) == c * k as real
  {
    if k > 0 {
      RepeatIsProduct(c, k - 1);
      assert c * k as real == c * (k - 1) as real + c;
    }
  }

  /** Summing c on the interior keys and 0 elsewhere adds c once per interior key. */
  lemma {:induction false} SumRInterior(s: set<Index>, c: real)
    ensures SumR(s, OnInterior(c)) == Repeat(c, |InteriorKeys(s)|)
    decreases s
  {
    if s == {} {
      assert InteriorKeys(s) == {};
    } else {
      var x := Pick(s);
      SumRInterior(s - {x}, c);
      InteriorKeysStep(s, x);
    }
  }

  /** Removing one key removes at most that key from the interior keys. */
  lemma InteriorKeysStep(s: set<Index>, x: Index)
    requires x in s
    ensures |InteriorKeys(s)| == |InteriorKeys(s - {x})| + (if IsInterior(x) then 1 else 0)
  {
    if IsInterior(x) {
      assert InteriorKeys(s) == InteriorKeys(s - {x}) + {x};
    } else {
      assert InteriorKeys(s) == InteriorKeys(s - {x});
    }
  }

  /** A sum of multiples of one point is that point times the sum of the factors. */
  lemma {:induction false} SumPScaled(s: set<Index>, f: Index -> Point3, w: Index -> real, c: Point3)
    requires forall l :: l in s ==> f(l) == Scale(c, w(l))
    ensures SumP(s, f) == Scale(c, SumR(s, w))
    decreases s
  {
    if s != {} {
      var x := Pick(s);
      SumPScaled(s - {x}, f, w, c);
      var r := SumR(s - {x}, w);
      assert Plus(Scale(c, w(x)), Scale(c, r)) == Scale(c, w(x) + r) by {
        assert c.x * w(x) + c.x * r == c.x * (w(x) + r);
        assert c.y * w(x) + c.y * r == c.y * (w(x) + r);
        assert c.z * w(x) + c.z * r == c.z * (w(x) + r);
      }
    }
  }

  /**
   * `eval`: the first loop adds p B and B over the net, the second takes
   * p (S / T) off every interior control point, S = sum B - 1. The
   * result is the control net weighted by the corrected weights.
   */
  method Eval(p: Patch, u: seq<real>) returns (result: Point3)
    requires EvalReady(p, u)
    ensures result == SumP(p.cnet.Keys, Terms(p, CorrectedWeights(p, Blends(p.n, p.m, u))))
  {
    var weighted, bsum := WeighNet(p, u);
    var s := bsum - 1.0;
    var t := NumControlPoints(p.n, p.m, true);
    result := CorrectNet(p, weighted, s, t);
    CorrectionSplit(p, Blends(p.n, p.m, u));
  }

  /** The first loop of `eval`: the sums of p B and of B over the net. */
  method WeighNet(p: Patch, u: seq<real>) returns (result: Point3, bsum: real)
    requires EvalReady(p, u)
    ensures result == SumP(p.cnet.Keys, Terms(p, Blends(p.n, p.m, u)))
    ensures bsum == SumR(p.cnet.Keys, Blends(p.n, p.m, u))
  {
    var keys := p.cnet.Keys;
    ghost var w := Blends(p.n, p.m, u);
    result := Origin;
    bsum := 0.0;
    var rest := keys;
    while rest != {}
      invariant rest <= keys
      invariant result == SumP(keys - rest, Terms(p, w))
      invariant bsum == SumR(keys - rest, w)
      decreases rest
    {
      var l :| l in rest;
      var b := BlendingWeight(p.n, p.m, u, l);
      result := Plus(result, Scale(p.cnet[l], b));
      bsum := bsum + b;
      assert keys - (rest - {l}) - {l} == keys - rest;
      SumPRemove(keys - (rest - {l}), Terms(p, w), l);
      SumRRemove(keys - (rest - {l}), w, l);
      rest := rest - {l};
    }
    assert keys - rest == keys;
  }

  /**
   * The second loop of `eval`: take p (S / T) off the sum for every
   * control point p whose multi-index has no zero entry.
   */
  method CorrectNet(p: Patch, start: Point3, s: real, t: nat) returns (result: Point3)
    requires t > 0 || forall l :: l in p.cnet ==> !IsInterior(l)
    ensures result == Minus(start, SumP(p.cnet.Keys, Corrections(p, if t == 0 then 0.0 else s / t as real)))
  {
    var keys := p.cnet.Keys;
    ghost var shift := if t == 0 then 0.0 else s / t as real;
    result := start;
    var rest := keys;
    while rest != {}
      invariant rest <= keys
      invariant result == Minus(start, SumP(keys - rest, Corrections(p, shift)))
      decreases rest
    {
      var l :| l in rest;
      if FirstZero(l) == |l| {
        result := Minus(result, Scale(p.cnet[l], s / t as real));
      }
      assert keys - (rest - {l}) - {l} == keys - rest;
      SumPRemove(keys - (rest - {l}), Corrections(p, shift), l);
      rest := rest - {l};
    }
    assert keys - rest == keys;
  }

  /** The two loops of `eval` together weight every control point by its corrected weight. */
  lemma CorrectionSplit(p: Patch, w: Index -> real)
    ensures SumP(p.cnet.Keys, Terms(p, CorrectedWeights(p, w)))
         == Minus(SumP(p.cnet.Keys, Terms(p, w)), SumP(p.cnet.Keys, Corrections(p, Shift(p, w))))
  {
    var sh := Shift(p, w);
    var f, g, h := Terms(p, w), Corrections(p, sh), Terms(p, CorrectedWeights(p, w));
    forall l | l in p.cnet.Keys
      ensures h(l) == Minus(f(l), g(l))
    {
      var c, b := p.cnet[l], w(l);
      if IsInterior(l) {
        assert c.x * (b - sh) == c.x * b - c.x * sh;
        assert c.y * (b - sh) == c.y * b - c.y * sh;
        assert c.z * (b - sh) == c.z * b - c.z * sh;
      }
    }
    SumPMinus(p.cnet.Keys, f, g, h);
  }

  /**
   * Partition of unity (2.6): when the net holds exactly T > 0 interior
   * control points, the corrected weights sum to one, whatever the weights.
   */
  lemma PartitionOfUnity(p: Patch, w: Index -> real)
    requires |InteriorKeys(p.cnet.Keys)| == NumControlPoints(p.n, p.m, true) > 0
    ensures SumR(p.cnet.Keys, CorrectedWeights(p, w)) == 1.0
  {
    var keys := p.cnet.Keys;
    var k := |InteriorKeys(keys)|;
    var sh := Shift(p, w);
    assert sh == (SumR(keys, w) - 1.0) / k as real;
    CorrectedSplit(p, w, sh);
    InteriorSum(keys, sh);
    UnitSum(SumR(keys, CorrectedWeights(p, w)), SumR(keys, w), SumR(keys, OnInterior(sh)), sh, k as real);
  }

  /** c on the interior keys, 0 elsewhere. */
  function OnInterior(c: real): Index -> real
  {
    l => if IsInterior(l) then c else 0.0
  }

  /** The corrected weights sum to the weights less the shift once per interior key. */
  lemma CorrectedSplit(p: Patch, w: Index -> real, sh: real)
    requires sh == Shift(p, w)
    ensures SumR(p.cnet.Keys, CorrectedWeights(p, w)) == SumR(p.cnet.Keys, w) - SumR(p.cnet.Keys, OnInterior(sh))
  {
    SumRMinus(p.cnet.Keys, w, OnInterior(sh), CorrectedWeights(p, w));
  }

  lemma InteriorSum(keys: set<Index>, c: real)
    ensures SumR(keys, OnInterior(c)) == c * |InteriorKeys(keys)| as real
  {
    var k := |InteriorKeys(keys)|;
    SumRInterior(keys, c);
    RepeatIsProduct(c, k);
  }

  /** Subtracting (total - 1) / k once per each of k keys leaves a sum of one. */
  lemma UnitSum(corrected: real, total: real, subtracted: real, shift: real, k: real)
    requires k > 0.0 && shift == (total - 1.0) / k
    requires subtracted == shift * k && corrected == total - subtracted
    ensures corrected == 1.0
  {
  }

  /**
   * Constant reproduction: a net whose control points all coincide
   * evaluates to that point.
   */
  lemma ReproducesConstant(p: Patch, w: Index -> real, c: Point3)
    requires |InteriorKeys(p.cnet.Keys)| == NumControlPoints(p.n, p.m, true) > 0
    requires forall l :: l in p.cnet ==> p.cnet[l] == c
    ensures SumP(p.cnet.Keys, Terms(p, CorrectedWeights(p, w))) == c
  {
    SumPScaled(p.cnet.Keys, Terms(p, CorrectedWeights(p, w)), CorrectedWeights(p, w), c);
    PartitionOfUnity(p, w);
  }

  /* ---------------------------------------------------------------------- */
  /* Loading                                                                 */
  /* ---------------------------------------------------------------------- */

  /**
   * The multi-index of record i when every record starts with n index
   * entries: entries i n .. i n + n - 1 of the index stream.
   */
  function RecordKey(n: nat, entries: seq<nat>, i: nat): (l: Index)
    requires i * n + n <= |entries|
    ensures |l| == n
  {
    entries[i * n .. i * n + n]
  }

  /**
   * The control net after inserting the first `count` records in order;
   * a later record with the same multi-index replaces an earlier one.
   */
  function NetOf(n: nat, entries: seq<nat>, points: seq<Point3>, count: nat): map<Index, Point3>
    requires count * n <= |entries| && count <= |points|
  {
    if count == 0 then map[]
    else
      MulSucc(count - 1, n);
      NetOf(n, entries, points, count - 1)[RecordKey(n, entries, count - 1) := points[count - 1]]
  }

  /**
   * `load`: read n and m, then numControlPoints(n, m, false) records of n
   * index entries and a point each. The stream is given as its index
   * entries and its points; a stream that ends early is an error.
   */
  method Load(n: nat, m: nat, entries: seq<nat>, points: seq<Point3>) returns (r: Result<Patch>)
    ensures var count := NumControlPoints(n, m, false);
            r.Ok? <==> count * n <= |entries| && count <= |points|
    ensures r.Ok? ==> var count := NumControlPoints(n, m, false);
                      count * n <= |entries| && count <= |points|
                      && r.value == Patch(n, m, NetOf(n, entries, points, count))
                      && WellFormed(r.value)
  {
    var count := NumControlPoints(n, m, false);
    if |entries| < count * n || |points| < count {
      return Err("input ends before the last control point");
    }
    var cnet := ReadRecords(n, entries, points, count);
    NetOfWellFormed(n, m, entries, points, count);
    r := Ok(Patch(n, m, cnet));
  }

  /** The record loop of `load`: insert `count` records into an empty net, in order. */
  method ReadRecords(n: nat, entries: seq<nat>, points: seq<Point3>, count: nat) returns (cnet: map<Index, Point3>)
    requires count * n <= |entries| && count <= |points|
    ensures cnet == NetOf(n, entries, points, count)
  {
    cnet := map[];
    var pos := 0;
    for i := 0 to count
      invariant pos == i * n <= count * n
      invariant cnet == NetOf(n, entries, points, i)
    {
      RecordInRange(n, i, count);
      var l := ReadIndex(entries, pos, n);
      cnet := cnet[l := points[i]];
      pos := pos + n;
    }
  }

  /** The n index entries of one record, read one at a time from position pos. */
  method ReadIndex(entries: seq<nat>, pos: nat, n: nat) returns (l: Index)
    requires pos + n <= |entries|
    ensures l == entries[pos .. pos + n]
  {
    l := [];
    for j := 0 to n
      invariant l == entries[pos .. pos + j]
    {
      l := l + [entries[pos + j]];
    }
  }

  /** Record i < count lies inside the first count records. */
  lemma RecordInRange(n: nat, i: nat, count: nat)
    requires i < count
    ensures (i + 1) * n == i * n + n <= count * n
  {
    MulLe(n, i + 1, count);
    assert n * (i + 1) == (i + 1) * n && n * count == count * n;
  }

  /** A loaded net is keyed by n-entry multi-indices only. */
  lemma {:induction false} NetOfWellFormed(n: nat, m: nat, entries: seq<nat>, points: seq<Point3>, count: nat)
    requires count * n <= |entries| && count <= |points|
    ensures WellFormed(Patch(n, m, NetOf(n, entries, points, count)))
  {
    if count > 0 {
      MulSucc(count - 1, n);
      NetOfWellFormed(n, m, entries, points, count - 1);
    }
  }

  /** The keys of the net are exactly the multi-indices of the records read. */
  lemma {:induction false} NetOfKeys(n: nat, entries: seq<nat>, points: seq<Point3>, count: nat, l: Index)
    requires count * n <= |entries| && count <= |points|
    ensures l in NetOf(n, entries, points, count)
            <==> exists i :: 0 <= i < count && i * n + n <= |entries| && RecordKey(n, entries, i) == l
  {
    if count > 0 {
      MulSucc(count - 1, n);
      NetOfKeys(n, entries, points, count - 1, l);
    }
  }

  /**
   * Later records win: the point stored under a key is the one of the last
   * record that carries it.
   */
  lemma {:induction false} NetOfLastWins(n: nat, entries: seq<nat>, points: seq<Point3>, count: nat, i: nat)
    requires count * n <= |entries| && count <= |points|
    requires i < count && i * n + n <= |entries|
    requires forall j :: i < j < count && j * n + n <= |entries| ==> RecordKey(n, entries, j) != RecordKey(n, entries, i)
    ensures RecordKey(n, entries, i) in NetOf(n, entries, points, count)
    ensures NetOf(n, entries, points, count)[RecordKey(n, entries, i)] == points[i]
  {
    MulSucc(count - 1, n);
    if i < count - 1 {
      NetOfLastWins(n, entries, points, count - 1, i);
    }
  }
}
