/**
 * The converter from the legacy control-point layout to the multi-index
 * layout read by the Zheng-Ball evaluator.
 *
 * The legacy file lists a center point and then the control points row by
 * row (row 0 on the boundary), side by side within a row, and column by
 * column within a side. The converter walks (side, row, col) with a single
 * counter loop and writes, for every legacy point, an n-entry multi-index.
 * Points are carried through unchanged.
 */
module Gbp2Zhb {
  import opened Lattice
  import opened ZhengBall

  /** A position of the legacy walk. */
  datatype Cursor = Cursor(side: nat, row: nat, col: nat)

  /** One output line: a multi-index and its control point. */
  datatype Line = Line(index: seq<nat>, point: Point3)

  /** The positions the walk visits: row < (d+1)/2 and row <= col < d - row. */
  predicate ValidCursor(n: nat, d: nat, c: Cursor)
  {
    c.side < n && c.row <= c.col < d - c.row
  }

  predicate AllValid(n: nat, d: nat, w: seq<Cursor>)
  {
    forall t :: 0 <= t < |w| ==> ValidCursor(n, d, w[t])
  }

  /* ---------------------------------------------------------------------- */
  /* The walk, as nested loops                                               */
  /* ---------------------------------------------------------------------- */

  /** Columns row .. stop - 1 of one side of one row. */
  function Cols(side: nat, row: nat, stop: int): seq<Cursor>
    decreases stop - row
  {
    if stop <= row then [] else Cols(side, row, stop - 1) + [Cursor(side, row, stop - 1)]
  }

  /** Sides 0 .. sides - 1 of row `row`, each with columns row .. d - row - 1. */
  function RowWalk(d: nat, row: nat, sides: nat): seq<Cursor>
  {
    if sides == 0 then [] else RowWalk(d, row, sides - 1) + Cols(sides - 1, row, d - row)
  }

  /** Rows 0 .. rows - 1 of an n-sided legacy net of degree d. */
  function Walk(n: nat, d: nat, rows: nat): seq<Cursor>
  {
    if rows == 0 then [] else Walk(n, d, rows - 1) + RowWalk(d, rows - 1, n)
  }

  /** The visited part of the walk when the cursor stands at (side, row, col). */
  function Prefix(n: nat, d: nat, side: nat, row: nat, col: int): seq<Cursor>
  {
    Walk(n, d, row) + RowWalk(d, row, side) + Cols(side, row, col)
  }

  /** The number of legacy control points besides the center. */
  function LegacyCount(n: nat, d: nat): nat
  {
    n * (1 + d / 2) * ((d + 1) / 2)
  }

  lemma {:induction false} ColsShape(side: nat, row: nat, stop: int)
    ensures |Cols(side, row, stop)| == if stop <= row then 0 else stop - row
    ensures forall t :: 0 <= t < |Cols(side, row, stop)| ==> Cols(side, row, stop)[t] == Cursor(side, row, row + t)
    decreases stop - row
  {
    if stop > row {
      ColsShape(side, row, stop - 1);
    }
  }

  lemma {:induction false} RowWalkShape(n: nat, d: nat, row: nat, sides: nat)
    requires sides <= n
    ensures |RowWalk(d, row, sides)| == if d <= 2 * row then 0 else sides * (d - 2 * row)
    ensures AllValid(n, d, RowWalk(d, row, sides))
    ensures forall t :: 0 <= t < |RowWalk(d, row, sides)| ==> RowWalk(d, row, sides)[t].row == row
  {
    if sides > 0 {
      RowWalkShape(n, d, row, sides - 1);
      ColsShape(sides - 1, row, d - row);
      var a, b := RowWalk(d, row, sides - 1), Cols(sides - 1, row, d - row);
      assert RowWalk(d, row, sides) == a + b;
      forall t | 0 <= t < |a + b|
        ensures ValidCursor(n, d, (a + b)[t]) && (a + b)[t].row == row
      {
        if t < |a| {
          assert (a + b)[t] == a[t];
        } else {
          assert (a + b)[t] == b[t - |a|];
        }
      }
      if d > 2 * row {
        MulSucc(sides - 1, d - 2 * row);
      }
    }
  }

  /** Each row r contributes n (d - 2r) positions: rows(d - rows + 1) n in all. */
  lemma {:induction false} WalkCount(n: nat, d: nat, rows: nat)
    requires 2 * rows <= d + 1
    ensures |Walk(n, d, rows)| == n * (rows * (d + 1 - rows))
  {
    if rows > 0 {
      var r := rows - 1;
      WalkCount(n, d, r);
      RowWalkSize(n, d, r);
      assert |Walk(n, d, rows)| == |Walk(n, d, r)| + |RowWalk(d, r, n)|;
      WalkCountStep(n, d, r, |Walk(n, d, r)|, |RowWalk(d, r, n)|);
    }
  }

  lemma WalkCountStep(n: nat, d: nat, r: nat, a: nat, b: nat)
    requires 2 * r < d && a == n * (r * (d + 1 - r)) && b == n * (d - 2 * r)
    ensures a + b == n * ((r + 1) * (d + 1 - (r + 1)))
  {
    assert (r * (d + 1 - r)) + (d - 2 * r) == (r + 1) * (d + 1 - (r + 1));
    assert n * (r * (d + 1 - r)) + n * (d - 2 * r) == n * ((r * (d + 1 - r)) + (d - 2 * r));
  }

  /** The full walk has cp - 1 = n (1 + d/2) ((d+1)/2) positions. */
  lemma FullWalkCount(n: nat, d: nat)
    ensures |Walk(n, d, (d + 1) / 2)| == LegacyCount(n, d)
  {
    var l := (d + 1) / 2;
    WalkCount(n, d, l);
    assert d + 1 - l == 1 + d / 2;
    assert n * (l * (1 + d / 2)) == n * (1 + d / 2) * l;
  }

  /** Every position of the walk is valid, and row r only holds cursors of row r. */
  lemma {:induction false} WalkValid(n: nat, d: nat, rows: nat)
    ensures AllValid(n, d, Walk(n, d, rows))
  {
    if rows > 0 {
      WalkValid(n, d, rows - 1);
      RowWalkShape(n, d, rows - 1, n);
      var a, b := Walk(n, d, rows - 1), RowWalk(d, rows - 1, n);
      AllValidAppend(n, d, a, b);
    }
  }

  lemma AllValidAppend(n: nat, d: nat, a: seq<Cursor>, b: seq<Cursor>)
    requires AllValid(n, d, a) && AllValid(n, d, b)
    ensures AllValid(n, d, a + b)
  {
    forall t | 0 <= t < |a + b|
      ensures ValidCursor(n, d, (a + b)[t])
    {
      if t < |a| {
        assert (a + b)[t] == a[t];
      } else {
        assert (a + b)[t] == b[t - |a|];
      }
    }
  }

  lemma {:induction false} ColsPrefix(side: nat, row: nat, c: int, stop: int)
    requires c <= stop
    ensures Cols(side, row, c) <= Cols(side, row, stop)
    decreases stop - c
  {
    if c < stop {
      ColsPrefix(side, row, c, stop - 1);
    }
  }

  lemma {:induction false} RowWalkPrefix(d: nat, row: nat, s: nat, sides: nat)
    requires s <= sides
    ensures RowWalk(d, row, s) <= RowWalk(d, row, sides)
  {
    if s < sides {
      RowWalkPrefix(d, row, s, sides - 1);
    }
  }

  lemma {:induction false} WalkPrefix(n: nat, d: nat, r: nat, rows: nat)
    requires r <= rows
    ensures Walk(n, d, r) <= Walk(n, d, rows)
  {
    if r < rows {
      WalkPrefix(n, d, r, rows - 1);
    }
  }

  /** Concatenation keeps prefixes. */
  lemma PrefixAppend(x: seq<Cursor>, a: seq<Cursor>, b: seq<Cursor>)
    requires a <= b
    ensures x + a <= x + b
  {
    assert (x + b)[..|x + a|] == x + b[..|a|];
  }

  /** Prefixes of prefixes are prefixes. */
  lemma PrefixTrans(a: seq<Cursor>, b: seq<Cursor>, c: seq<Cursor>)
    requires a <= b && b <= c
    ensures a <= c
  {
    assert c[..|a|] == c[..|b|][..|a|];
  }

  /** A valid cursor's visited part, with the cursor itself, is a prefix of the whole walk. */
  lemma PrefixInWalk(n: nat, d: nat, side: nat, row: nat, col: nat)
    requires side < n && 2 * row < d && row <= col < d - row
    ensures Prefix(n, d, side, row, col + 1) <= Walk(n, d, (d + 1) / 2)
  {
    var w, rw := Walk(n, d, row), RowWalk(d, row, side);
    var part, full := Cols(side, row, col + 1), Cols(side, row, d - row);
    ColsPrefix(side, row, col + 1, d - row);
    PrefixAppend(w + rw, part, full);
    assert w + rw + full == w + RowWalk(d, row, side + 1);
    RowWalkPrefix(d, row, side + 1, n);
    PrefixAppend(w, RowWalk(d, row, side + 1), RowWalk(d, row, n));
    PrefixTrans(w + rw + part, w + rw + full, Walk(n, d, row + 1));
    WalkPrefix(n, d, row + 1, (d + 1) / 2);
    PrefixTrans(w + rw + part, Walk(n, d, row + 1), Walk(n, d, (d + 1) / 2));
  }

  /** The number of columns of a side in row `row`. */
  function RowWidth(d: nat, row: nat): nat
  {
    if d <= 2 * row then 0 else d - 2 * row
  }

  /** The number of positions in rows 0 .. rows - 1. */
  function RowsSize(n: nat, d: nat, rows: nat): nat
  {
    if rows == 0 then 0 else RowsSize(n, d, rows - 1) + n * RowWidth(d, rows - 1)
  }

  /** The index in the walk of the cursor (side, row, col). */
  function Pos(n: nat, d: nat, c: Cursor): int
  {
    RowsSize(n, d, c.row) + c.side * RowWidth(d, c.row) + (c.col - c.row)
  }

  lemma {:induction false} RowsSizeMonotone(n: nat, d: nat, a: nat, b: nat)
    requires a <= b
    ensures RowsSize(n, d, a) <= RowsSize(n, d, b)
  {
    if a < b {
      RowsSizeMonotone(n, d, a, b - 1);
    }
  }

  lemma {:induction false} WalkSize(n: nat, d: nat, rows: nat)
    ensures |Walk(n, d, rows)| == RowsSize(n, d, rows)
  {
    if rows > 0 {
      WalkSize(n, d, rows - 1);
      RowWalkShape(n, d, rows - 1, n);
    }
  }

  /** The walk is empty when there is no side or no column. */
  lemma NonEmptyWalk(n: nat, d: nat)
    ensures |Walk(n, d, (d + 1) / 2)| > 0 ==> n >= 1 && d >= 1
  {
    if n == 0 {
      NoSides(d, (d + 1) / 2);
    }
  }

  lemma {:induction false} NoSides(d: nat, rows: nat)
    ensures Walk(0, d, rows) == []
  {
    if rows > 0 {
      NoSides(d, rows - 1);
    }
  }

  /** The walk visits the valid cursor c at index Pos(c). */
  lemma WalkAt(n: nat, d: nat, c: Cursor)
    requires ValidCursor(n, d, c)
    ensures 0 <= Pos(n, d, c) < |Walk(n, d, (d + 1) / 2)|
    ensures Walk(n, d, (d + 1) / 2)[Pos(n, d, c)] == c
  {
    var w := Walk(n, d, (d + 1) / 2);
    var before := Prefix(n, d, c.side, c.row, c.col);
    PrefixInWalk(n, d, c.side, c.row, c.col);
    ColsShape(c.side, c.row, c.col);
    ColsShape(c.side, c.row, c.col + 1);
    WalkSize(n, d, c.row);
    RowWalkShape(n, d, c.row, c.side);
    assert |before| == Pos(n, d, c);
    assert Prefix(n, d, c.side, c.row, c.col + 1) == before + [c];
  }

  /* ---------------------------------------------------------------------- */
  /* The multi-index of one legacy point                                     */
  /* ---------------------------------------------------------------------- */

  /**
   * The two sides a legacy point is tied to and its distances from them:
   * side a at distance la and side b at distance lb.
   */
  datatype Roles = Roles(a: nat, la: nat, b: nat, lb: nat)

  /**
   * In the first half of a side (col <= d/2) the point belongs to side
   * `side` and its predecessor; in the second half to the successor and
   * `side`, measured from the other end. Either way b precedes a.
   */
  function RolesOf(n: nat, d: nat, c: Cursor): (r: Roles)
    requires ValidCursor(n, d, c)
    ensures r.a < n && r.b < n && r.b == Pred(r.a, n)
    ensures r.la <= d && r.lb <= d
    ensures c.col <= d / 2 ==> r == Roles(c.side, c.row, Pred(c.side, n), c.col)
    ensures c.col > d / 2 ==> r == Roles(Succ(c.side, n), d - c.col, c.side, c.row)
  {
    if c.col > d / 2 then
      ModSmall(c.side + 1, n);
      ModSmall((c.side + 1) % n + n - 1, n);
      Roles((c.side + 1) % n, d - c.col, c.side, c.row)
    else
      ModSmall(c.side + n - 1, n);
      Roles(c.side, c.row, (c.side + n - 1) % n, c.col)
  }

  function Min(x: nat, y: nat): nat
  {
    if x <= y then x else y
  }

  /**
   * The multi-index of a legacy point: every entry starts at d - min(la,
   * lb); then, in this order, a gets la, b gets lb, the successor of a gets
   * d - lb and the predecessor of b gets d - la.
   */
  function LegacyIndex(n: nat, d: nat, c: Cursor): (l: seq<nat>)
    requires ValidCursor(n, d, c)
    ensures |l| == n
  {
    var r := RolesOf(n, d, c);
    Filled(n, d - Min(r.la, r.lb))[r.a := r.la][r.b := r.lb][Succ(r.a, n) := d - r.lb][Pred(r.b, n) := d - r.la]
  }

  /** n copies of x. */
  function Filled(n: nat, x: nat): (s: seq<nat>)
    ensures |s| == n && forall j :: 0 <= j < n ==> s[j] == x
  {
    seq(n, _ => x)
  }

  /** The loop body of the converter: the index vector, filled and then overwritten entry by entry. */
  method LegacyIndexOf(n: nat, d: nat, side: nat, row: nat, col: nat) returns (l: seq<nat>)
    requires ValidCursor(n, d, Cursor(side, row, col))
    ensures l == LegacyIndex(n, d, Cursor(side, row, col))
  {
    var a, la, b, lb := side, row, (side + n - 1) % n, col;
    if col > d / 2 {
      b := a;
      lb := la;
      a := (side + 1) % n;
      la := d - col;
    }
    LegacyIndexRoles(n, d, Cursor(side, row, col), a, la, b, lb);
    var fill := d - Min(la, lb);
    l := Filled(n, fill);
    l := l[a := la];
    l := l[b := lb];
    l := l[(a + 1) % n := d - lb];
    l := l[(b + n - 1) % n := d - la];
  }

  lemma LegacyIndexRoles(n: nat, d: nat, c: Cursor, a: nat, la: nat, b: nat, lb: nat)
    requires ValidCursor(n, d, c) && a < n && b < n
    requires c.col <= d / 2 ==> a == c.side && la == c.row && b == (c.side + n - 1) % n && lb == c.col
    requires c.col > d / 2 ==> a == (c.side + 1) % n && la == d - c.col && b == c.side && lb == c.row
    ensures LegacyIndex(n, d, c) == Filled(n, d - Min(la, lb))[a := la][b := lb][Succ(a, n) := d - lb][Pred(b, n) := d - la]
  {
    var r := RolesOf(n, d, c);
    assert r == Roles(a, la, b, lb);
  }

  /** Every entry of a converted multi-index lies in 0 .. d. */
  lemma EntriesBounded(n: nat, d: nat, c: Cursor)
    requires ValidCursor(n, d, c)
    ensures forall j :: 0 <= j < n ==> LegacyIndex(n, d, c)[j] <= d
  {
  }

  /**
   * A point of row 0 lies on side `side`: its entry there is 0, so the
   * evaluator treats it as a boundary point (n >= 3, where no later write
   * lands on that position).
   */
  lemma BoundaryRow(n: nat, d: nat, c: Cursor)
    requires n >= 3 && ValidCursor(n, d, c) && c.row == 0
    ensures LegacyIndex(n, d, c)[c.side] == 0
    ensures !IsInterior(LegacyIndex(n, d, c))
  {
    var r := RolesOf(n, d, c);
    var l := LegacyIndex(n, d, c);
    RowZeroRoles(n, d, c);
    UpdateAt(Filled(n, d - Min(r.la, r.lb)), r.a, r.la, r.b, r.lb, Succ(r.a, n), d - r.lb, Pred(r.b, n), d - r.la, c.side);
    assert l[c.side] == 0;
    InteriorMeansNoZero(l);
  }

  /**
   * In row 0 the zero entry sits at `side`, as a (left half) or as b (right
   * half), and neither of the two later writes lands on `side`.
   */
  lemma RowZeroRoles(n: nat, d: nat, c: Cursor)
    requires n >= 3 && ValidCursor(n, d, c) && c.row == 0
    ensures var r := RolesOf(n, d, c);
            Succ(r.a, n) != c.side && Pred(r.b, n) != c.side
            && (if c.col > d / 2 then r.b == c.side && r.lb == 0 else r.a == c.side && r.la == 0 && r.b != c.side)
  {
    var r := RolesOf(n, d, c);
    ModSmall(c.side + 1, n);
    ModSmall(c.side + n - 1, n);
    if c.col > d / 2 {
      ModSmall(r.a + 1, n);
    } else {
      ModSmall(r.b + n - 1, n);
    }
  }

  /** The entry j of a sequence after four writes: the last write to j wins. */
  lemma UpdateAt(s: seq<nat>, a: nat, va: nat, b: nat, vb: nat, c: nat, vc: nat, e: nat, ve: nat, j: nat)
    requires a < |s| && b < |s| && c < |s| && e < |s| && j < |s|
    ensures s[a := va][b := vb][c := vc][e := ve][j]
         == if j == e then ve else if j == c then vc else if j == b then vb else if j == a then va else s[j]
  {
  }

  /** A point of a later row has no zero entry: it is an interior point. */
  lemma InteriorRow(n: nat, d: nat, c: Cursor)
    requires ValidCursor(n, d, c) && c.row >= 1
    ensures forall j :: 0 <= j < n ==> LegacyIndex(n, d, c)[j] >= 1
    ensures IsInterior(LegacyIndex(n, d, c))
  {
    InteriorMeansNoZero(LegacyIndex(n, d, c));
  }

  /**
   * For three sides the successor of a and the predecessor of b are the
   * same position, so the later write d - la is the one that stays.
   */
  lemma ThreeSidedOverwrite(d: nat, c: Cursor)
    requires ValidCursor(3, d, c)
    ensures var r := RolesOf(3, d, c);
            Succ(r.a, 3) == Pred(r.b, 3) && LegacyIndex(3, d, c)[Succ(r.a, 3)] == d - r.la
  {
    var r := RolesOf(3, d, c);
    assert r.b == Pred(r.a, 3);
    assert Succ(r.a, 3) == Pred(r.b, 3);
  }

  /* ---------------------------------------------------------------------- */
  /* The converter                                                           */
  /* ---------------------------------------------------------------------- */

  /** Lines for the walk positions w, the t-th with legacy point pts[t]. */
  function WalkLines(n: nat, d: nat, w: seq<Cursor>, pts: seq<Point3>): (ls: seq<Line>)
    requires AllValid(n, d, w) && |pts| >= |w|
    ensures |ls| == |w|
    ensures forall t :: 0 <= t < |w| ==> ls[t] == Line(LegacyIndex(n, d, w[t]), pts[t])
  {
    if |w| == 0 then [] else WalkLines(n, d, w[..|w| - 1], pts) + [Line(LegacyIndex(n, d, w[|w| - 1]), pts[|w| - 1])]
  }

  /** Extending the walk by one position adds one line. */
  lemma WalkLinesSnoc(n: nat, d: nat, w: seq<Cursor>, t: nat, pts: seq<Point3>)
    requires AllValid(n, d, w) && t < |w| <= |pts|
    ensures WalkLines(n, d, w[..t + 1], pts) == WalkLines(n, d, w[..t], pts) + [Line(LegacyIndex(n, d, w[t]), pts[t])]
  {
    assert w[..t + 1][..t] == w[..t];
  }

  /** The center line: every entry d/2, written only for even d. */
  function CenterLines(n: nat, d: nat, center: Point3): seq<Line>
  {
    if d % 2 == 0 then [Line(seq(n, _ => d / 2), center)] else []
  }

  /**
   * The converted file: `points` holds the legacy center and then the
   * legacy control points in walk order.
   */
  function Converted(n: nat, d: nat, points: seq<Point3>): seq<Line>
    requires |points| >= LegacyCount(n, d) + 1
  {
    var w := Walk(n, d, (d + 1) / 2);
    WalkValid(n, d, (d + 1) / 2);
    FullWalkCount(n, d);
    CenterLines(n, d, points[0]) + WalkLines(n, d, w, points[1..])
  }

  /**
   * `main` of the converter: read n and d and the center, write the center
   * line for even d, then walk (side, row, col) once per remaining legacy
   * point. An input that ends early is an error.
   */
  method Convert(n: nat, d: nat, points: seq<Point3>) returns (r: Result<seq<Line>>)
    ensures r.Ok? <==> |points| >= LegacyCount(n, d) + 1
    ensures r.Ok? ==> |points| >= LegacyCount(n, d) + 1 && r.value == Converted(n, d, points)
  {
    var l := (d + 1) / 2;
    var cp := 1 + d / 2;
    cp := n * cp * l + 1;
    if |points| < cp {
      return Err("input ends before the last control point");
    }
    var out := [];
    if d % 2 == 0 {
      var center := [];
      for j := 0 to n
        invariant center == seq(j, _ => d / 2)
      {
        center := center + [d / 2];
      }
      out := [Line(center, points[0])];
    }
    var lines := WalkLoop(n, d, cp, points);
    r := Ok(out + lines);
  }

  /**
   * The counter loop of the converter: i runs from 1 below cp, and the
   * cursor (side, row, col) wraps to the next side or row at the end of
   * each side. Line i - 1 pairs legacy point i with its multi-index.
   */
  method WalkLoop(n: nat, d: nat, cp: nat, points: seq<Point3>) returns (out: seq<Line>)
    requires cp == LegacyCount(n, d) + 1 <= |points|
    ensures AllValid(n, d, Walk(n, d, (d + 1) / 2)) && |Walk(n, d, (d + 1) / 2)| == LegacyCount(n, d)
    ensures out == WalkLines(n, d, Walk(n, d, (d + 1) / 2), points[1..])
  {
    ghost var w := Walk(n, d, (d + 1) / 2);
    FullWalkCount(n, d);
    WalkValid(n, d, (d + 1) / 2);
    NonEmptyWalk(n, d);
    out := [];
    var side: nat, col: nat, row: nat := 0, 0, 0;
    for i := 1 to cp
      invariant row <= col <= d - row
      invariant Pos(n, d, Cursor(side, row, col)) == i - 1
      invariant i < cp ==> side < n && 2 * row < d
      invariant out == WalkLines(n, d, w[..i - 1], points[1..])
    {
      side, row, col, out := WalkStep(n, d, cp, points, w, i, side, row, col, out);
    }
    assert w[..cp - 1] == w;
  }

  /**
   * One turn of the counter loop: wrap the cursor if it is past the end of
   * its side, emit the line of legacy point i and move to the next column.
   */
  method WalkStep(n: nat, d: nat, cp: nat, points: seq<Point3>, ghost w: seq<Cursor>, i: nat,
                  side0: nat, row0: nat, col0: nat, out0: seq<Line>)
    returns (side: nat, row: nat, col: nat, out: seq<Line>)
    requires w == Walk(n, d, (d + 1) / 2) && AllValid(n, d, w) && |w| == LegacyCount(n, d)
    requires cp == |w| + 1 <= |points| && 1 <= i < cp
    requires row0 <= col0 <= d - row0 && side0 < n && 2 * row0 < d
    requires Pos(n, d, Cursor(side0, row0, col0)) == i - 1
    requires out0 == WalkLines(n, d, w[..i - 1], points[1..])
    ensures row <= col <= d - row && side < n && 2 * row < d
    ensures Pos(n, d, Cursor(side, row, col)) == i
    ensures out == WalkLines(n, d, w[..i], points[1..])
  {
    side, row, col := side0, row0, col0;
    if col >= d - row {
      assert Pos(n, d, Cursor(side, row, col)) < RowsSize(n, d, (d + 1) / 2) by {
        WalkSize(n, d, (d + 1) / 2);
      }
      side, row, col := Advance(n, d, side, row, col);
    }
    ghost var c := Cursor(side, row, col);
    assert ValidCursor(n, d, c) && Pos(n, d, c) == i - 1;
    WalkAt(n, d, c);
    WalkLinesSnoc(n, d, w, i - 1, points[1..]);
    var idx := LegacyIndexOf(n, d, side, row, col);
    out := out0 + [Line(idx, points[i])];
    col := col + 1;
    assert Pos(n, d, Cursor(side, row, col)) == Pos(n, d, c) + 1;
  }

  /**
   * The wrap of the converter walk: past the last column of a side go to
   * the next side, past the last side to the next row, and restart at
   * column `row`. The position in the walk stays the same.
   */
  method Advance(n: nat, d: nat, side0: nat, row0: nat, col0: nat) returns (side: nat, row: nat, col: nat)
    requires side0 < n && 2 * row0 < d && col0 == d - row0
    requires Pos(n, d, Cursor(side0, row0, col0)) < RowsSize(n, d, (d + 1) / 2)
    ensures side < n && 2 * row < d && row == col
    ensures Pos(n, d, Cursor(side, row, col)) == Pos(n, d, Cursor(side0, row0, col0))
  {
    side := side0 + 1;
    row := row0;
    MulSucc(side0, RowWidth(d, row0));
    if side >= n {
      side := 0;
      row := row + 1;
      if 2 * row >= d {
        RowsSizeMonotone(n, d, (d + 1) / 2, row);
        assert false;
      }
    }
    col := row;
  }

  /* ---------------------------------------------------------------------- */
  /* Counts                                                                  */
  /* ---------------------------------------------------------------------- */

  /** The number of lines whose multi-index has no zero entry. */
  function CountInterior(ls: seq<Line>): nat
  {
    if |ls| == 0 then 0
    else CountInterior(ls[..|ls| - 1]) + (if IsInterior(ls[|ls| - 1].index) then 1 else 0)
  }

  /** The number of walk positions past row 0. */
  function CountUpper(w: seq<Cursor>): nat
  {
    if |w| == 0 then 0 else CountUpper(w[..|w| - 1]) + (if w[|w| - 1].row >= 1 then 1 else 0)
  }

  lemma {:induction false} CountInteriorAppend(a: seq<Line>, b: seq<Line>)
    ensures CountInterior(a + b) == CountInterior(a) + CountInterior(b)
  {
    if |b| > 0 {
      CountInteriorAppend(a, b[..|b| - 1]);
      assert (a + b)[..|a + b| - 1] == a + b[..|b| - 1];
    } else {
      assert a + b == a;
    }
  }

  lemma {:induction false} CountUpperAppend(a: seq<Cursor>, b: seq<Cursor>)
    ensures CountUpper(a + b) == CountUpper(a) + CountUpper(b)
  {
    if |b| > 0 {
      CountUpperAppend(a, b[..|b| - 1]);
      assert (a + b)[..|a + b| - 1] == a + b[..|b| - 1];
    } else {
      assert a + b == a;
    }
  }

  /** Positions that all lie in one row are all counted, or none is. */
  lemma {:induction false} CountUpperOneRow(w: seq<Cursor>, row: nat)
    requires forall t :: 0 <= t < |w| ==> w[t].row == row
    ensures CountUpper(w) == if row >= 1 then |w| else 0
  {
    if |w| > 0 {
      CountUpperOneRow(w[..|w| - 1], row);
    }
  }

  /** Row `row` of the walk holds n RowWidth(d, row) positions. */
  lemma RowWalkSize(n: nat, d: nat, row: nat)
    ensures |RowWalk(d, row, n)| == n * RowWidth(d, row)
  {
    RowWalkShape(n, d, row, n);
  }

  /** Past row 0, every position of the walk is counted. */
  lemma {:induction false} CountUpperWalk(n: nat, d: nat, rows: nat)
    requires rows >= 1
    ensures CountUpper(Walk(n, d, rows)) + n * RowWidth(d, 0) == RowsSize(n, d, rows)
  {
    var r := rows - 1;
    var last := RowWalk(d, r, n);
    assert Walk(n, d, rows) == Walk(n, d, r) + last;
    RowWalkShape(n, d, r, n);
    CountUpperOneRow(last, r);
    CountUpperAppend(Walk(n, d, r), last);
    RowWalkSize(n, d, r);
    if r >= 1 {
      CountUpperWalk(n, d, r);
      assert CountUpper(last) == |last|;
      assert RowsSize(n, d, rows) == RowsSize(n, d, r) + |last|;
    } else {
      assert CountUpper(Walk(n, d, 0)) == 0;
      assert CountUpper(last) == 0;
      assert RowsSize(n, d, rows) == |last|;
    }
  }

  /**
   * For n >= 3 the lines of the walk without a zero entry are exactly the
   * ones past row 0.
   */
  lemma {:induction false} CountInteriorLines(n: nat, d: nat, w: seq<Cursor>, pts: seq<Point3>)
    requires n >= 3 && AllValid(n, d, w) && |pts| >= |w|
    ensures CountInterior(WalkLines(n, d, w, pts)) == CountUpper(w)
  {
    if |w| > 0 {
      var c := w[|w| - 1];
      CountInteriorLines(n, d, w[..|w| - 1], pts);
      if c.row == 0 {
        BoundaryRow(n, d, c);
      } else {
        InteriorRow(n, d, c);
      }
    }
  }

  lemma EvenIdentity(n: nat, h: nat)
    requires h >= 1
    ensures n * (1 + h) * h == n * (h - 1) * h + n * (2 * h)
  {
    assert (1 + h) * h == (h - 1) * h + 2 * h;
  }

  lemma OddIdentity(n: nat, h: nat)
    ensures n * (1 + h) * (h + 1) == n * h * h + n * (2 * h + 1)
  {
    assert (1 + h) * (h + 1) == h * h + (2 * h + 1);
  }

  /** The boundary adds n d points to the interior ones. */
  lemma BoundaryCount(n: nat, d: nat)
    ensures NumControlPoints(n, d, false) == NumControlPoints(n, d, true) + n * d
  {
    NumControlPointsExact(n, d);
  }

  /** The center, if any, and the walk add up to numControlPoints(n, d, false). */
  lemma LegacyCountTotal(n: nat, d: nat)
    ensures LegacyCount(n, d) + (if d % 2 == 0 then 1 else 0) == NumControlPoints(n, d, false)
  {
    NumControlPointsExact(n, d);
    var h := d / 2;
    if d % 2 == 0 {
      assert (d + 1) / 2 == h;
      assert LegacyCount(n, d) == n * (1 + h) * h;
      if h >= 1 {
        assert (d - 2) / 2 == h - 1;
        EvenIdentity(n, h);
      }
    } else {
      assert (d + 1) / 2 == h + 1 && (d - 1) / 2 == h;
      assert LegacyCount(n, d) == n * (1 + h) * (h + 1);
      OddIdentity(n, h);
    }
  }

  /**
   * The converter writes numControlPoints(n, d, false) lines, the count
   * the evaluator's `load` reads; for even d the first one is the center,
   * with every entry d/2.
   */
  lemma ConvertedCount(n: nat, d: nat, points: seq<Point3>)
    requires |points| >= LegacyCount(n, d) + 1
    ensures |Converted(n, d, points)| == NumControlPoints(n, d, false)
    ensures d % 2 == 0 ==> Converted(n, d, points)[0] == Line(seq(n, _ => d / 2), points[0])
  {
    FullWalkCount(n, d);
    LegacyCountTotal(n, d);
  }

  /** Every line's multi-index has n entries, each in 0 .. d. */
  lemma ConvertedEntries(n: nat, d: nat, points: seq<Point3>)
    requires |points| >= LegacyCount(n, d) + 1
    ensures forall t :: 0 <= t < |Converted(n, d, points)| ==>
              |Converted(n, d, points)[t].index| == n
              && forall j :: 0 <= j < n ==> Converted(n, d, points)[t].index[j] <= d
  {
    var w := Walk(n, d, (d + 1) / 2);
    FullWalkCount(n, d);
    WalkValid(n, d, (d + 1) / 2);
    var center := CenterLines(n, d, points[0]);
    var rest := WalkLines(n, d, w, points[1..]);
    var ls := Converted(n, d, points);
    forall t | 0 <= t < |ls|
      ensures |ls[t].index| == n && forall j :: 0 <= j < n ==> ls[t].index[j] <= d
    {
      if t >= |center| {
        assert ls[t] == rest[t - |center|];
        EntriesBounded(n, d, w[t - |center|]);
      }
    }
  }

  /** For n >= 3, all of the walk's lines but the n d of row 0 are interior. */
  lemma WalkInterior(n: nat, d: nat, pts: seq<Point3>)
    requires n >= 3 && d >= 1 && |pts| >= LegacyCount(n, d)
    ensures |Walk(n, d, (d + 1) / 2)| == LegacyCount(n, d)
    ensures AllValid(n, d, Walk(n, d, (d + 1) / 2))
    ensures CountInterior(WalkLines(n, d, Walk(n, d, (d + 1) / 2), pts)) + n * d == LegacyCount(n, d)
  {
    var l := (d + 1) / 2;
    var w := Walk(n, d, l);
    FullWalkCount(n, d);
    WalkValid(n, d, l);
    WalkSize(n, d, l);
    CountInteriorLines(n, d, w, pts);
    CountUpperWalk(n, d, l);
    assert RowWidth(d, 0) == d;
  }

  /**
   * For n >= 3 and d >= 1 the lines without a zero entry, the ones the
   * evaluator corrects, number exactly numControlPoints(n, d, true); the
   * other n d lie on the boundary.
   */
  lemma ConvertedInterior(n: nat, d: nat, points: seq<Point3>)
    requires n >= 3 && d >= 1 && |points| >= LegacyCount(n, d) + 1
    ensures CountInterior(Converted(n, d, points)) == NumControlPoints(n, d, true)
    ensures |Converted(n, d, points)| - CountInterior(Converted(n, d, points)) == n * d
  {
    var w := Walk(n, d, (d + 1) / 2);
    WalkInterior(n, d, points[1..]);
    var center := CenterLines(n, d, points[0]);
    var rest := WalkLines(n, d, w, points[1..]);
    assert Converted(n, d, points) == center + rest;
    CountInteriorAppend(center, rest);
    CenterInterior(n, d, points[0]);
    LegacyCountTotal(n, d);
    BoundaryCount(n, d);
  }

  /** The center line of an even degree is interior; odd degrees have none. */
  lemma CenterInterior(n: nat, d: nat, center: Point3)
    requires n >= 1 && d >= 1
    ensures |CenterLines(n, d, center)| == CountInterior(CenterLines(n, d, center))
    ensures CountInterior(CenterLines(n, d, center)) == if d % 2 == 0 then 1 else 0
  {
    var ls := CenterLines(n, d, center);
    if d % 2 == 0 {
      InteriorMeansNoZero(seq(n, _ => d / 2));
      assert ls[..0] == [];
    }
  }

  /* ---------------------------------------------------------------------- */
  /* Reading the output back                                                 */
  /* ---------------------------------------------------------------------- */

  /** The index entries of the written lines, in order, as `load` reads them. */
  function IndexStream(ls: seq<Line>): seq<nat>
  {
    if |ls| == 0 then [] else IndexStream(ls[..|ls| - 1]) + ls[|ls| - 1].index
  }

  /** The points of the written lines, in order. */
  function PointStream(ls: seq<Line>): (ps: seq<Point3>)
    ensures |ps| == |ls| && forall t :: 0 <= t < |ls| ==> ps[t] == ls[t].point
  {
    seq(|ls|, t requires 0 <= t < |ls| => ls[t].point)
  }

  /** Entries i n .. i n + n - 1 of the stream are the multi-index of line i. */
  predicate RecordAt(stream: seq<nat>, ls: seq<Line>, n: nat, i: nat)
  {
    i < |ls| && i * n + n <= |stream| && stream[i * n .. i * n + n] == ls[i].index
  }

  /** Record i of the index stream is the multi-index of line i. */
  lemma {:induction false} IndexStreamRecords(ls: seq<Line>, n: nat)
    requires forall t :: 0 <= t < |ls| ==> |ls[t].index| == n
    ensures |IndexStream(ls)| == |ls| * n
    ensures forall i :: 0 <= i < |ls| ==> RecordAt(IndexStream(ls), ls, n, i)
  {
    if |ls| > 0 {
      var k := |ls|;
      var pre := ls[..k - 1];
      IndexStreamRecords(pre, n);
      assert ls == pre + [ls[k - 1]];
      RecordsOfAppend(pre, ls[k - 1], n);
    }
  }

  /** Appending one line's entries to the stream appends one record. */
  lemma RecordsOfAppend(pre: seq<Line>, line: Line, n: nat)
    requires |line.index| == n && |IndexStream(pre)| == |pre| * n
    requires forall i :: 0 <= i < |pre| ==> RecordAt(IndexStream(pre), pre, n, i)
    ensures |IndexStream(pre + [line])| == |pre + [line]| * n
    ensures forall i :: 0 <= i < |pre + [line]| ==> RecordAt(IndexStream(pre + [line]), pre + [line], n, i)
  {
    var head := IndexStream(pre);
    assert (pre + [line])[..|pre|] == pre;
    assert IndexStream(pre + [line]) == head + line.index;
    MulSucc(|pre|, n);
    forall i | 0 <= i < |pre| + 1
      ensures RecordAt(head + line.index, pre + [line], n, i)
    {
      RecordOfAppend(pre, line, head, n, i);
    }
  }

  /** Record i of the stream extended by one line's entries. */
  lemma RecordOfAppend(pre: seq<Line>, line: Line, head: seq<nat>, n: nat, i: nat)
    requires |head| == |pre| * n && |line.index| == n && i <= |pre|
    requires forall i :: 0 <= i < |pre| ==> RecordAt(head, pre, n, i)
    ensures RecordAt(head + line.index, pre + [line], n, i)
  {
    MulSucc(|pre|, n);
    if i < |pre| {
      assert RecordAt(head, pre, n, i);
      SliceLeft(head, line.index, i * n, i * n + n);
    } else {
      SliceRight(head, line.index);
    }
  }

  lemma SliceLeft(a: seq<nat>, b: seq<nat>, lo: nat, hi: nat)
    requires lo <= hi <= |a|
    ensures (a + b)[lo..hi] == a[lo..hi]
  {
  }

  lemma SliceRight(a: seq<nat>, b: seq<nat>)
    ensures (a + b)[|a|..|a| + |b|] == b
  {
  }

  /**
   * `load` accepts what the converter writes: the stream holds the
   * numControlPoints(n, d, false) records it reads, and the loaded net is
   * keyed by exactly the multi-indices the converter produced.
   */
  lemma ConvertedLoads(n: nat, d: nat, points: seq<Point3>)
    requires |points| >= LegacyCount(n, d) + 1
    ensures var ls := Converted(n, d, points);
            var count := NumControlPoints(n, d, false);
            count * n <= |IndexStream(ls)| && count <= |PointStream(ls)|
            && forall l :: l in NetOf(n, IndexStream(ls), PointStream(ls), count)
                           <==> exists t :: 0 <= t < |ls| && ls[t].index == l
  {
    var ls := Converted(n, d, points);
    var count := NumControlPoints(n, d, false);
    ConvertedCount(n, d, points);
    ConvertedEntries(n, d, points);
    IndexStreamRecords(ls, n);
    var entries, pts := IndexStream(ls), PointStream(ls);
    forall i | 0 <= i < count
      ensures i * n + n <= |entries| && RecordKey(n, entries, i) == ls[i].index
    {
      assert RecordAt(entries, ls, n, i);
    }
    forall l | true
      ensures l in NetOf(n, entries, pts, count) <==> exists t :: 0 <= t < |ls| && ls[t].index == l
    {
      NetOfKeys(n, entries, pts, count, l);
    }
  }
}
