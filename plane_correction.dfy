/**
  The import correction of `GeometryBuilder.correctPlans`: faces are taken highest priority first;
  a face with fixed points (points already pinned by three independent planes) has its offset d
  set by Cramer's rule from each fixed point's reduced constraint rows, and then it joins the
  constraint list of each of its points.  As written, the face's own plane is reduced together
  with the constraints, which leaves the fourth row without a normal and the offset at 0
  (`AsWrittenLosesFixedPoint`); the model reduces the constraints alone and appends the face, which
  puts the face through every point the first three reduced rows meet at (`ShiftedThroughFixedPoints`).

  `PriorityFace` keeps its instances and the per-point constraint lists in static tables; here they
  are the fields of `PriorityFaces`.  `ExactMatrix.rank` and `ExactMatrix.reducedMatrix` are the
  fields of `CorrectionOracles`, and the controller's face borders are an input.
*/
module PlaneCorrection {
  import opened Wrappers
  import opened ExactGeometry

  /** `ExactMatrix.rank` and `ExactMatrix.reducedMatrix` on stacked plane rows, which are not part of this model. */
  datatype CorrectionOracles = CorrectionOracles(rank: seq<Plane> -> nat, reduce: seq<Plane> -> seq<Plane>)

  const TooManyConstraints := "Correction impossible, to many constraint on a face."
  const DivisionByZero := "Division by zero"
  const MissingRow := "TypeError: Cannot read properties of undefined (reading 'slice')"

  // ----- the offset of a face through a fixed point -----

  /** The determinant of the normals (a, b, c) of three planes, expanded along the first row. */
  function Det3(p: Plane, q: Plane, r: Plane): real {
    p.a * (q.b * r.c - q.c * r.b) - p.b * (q.a * r.c - q.c * r.a) + p.c * (q.a * r.b - q.b * r.a)
  }

  /**
    Lines 419-447 on the four reduced rows e: Ai is the determinant of the normals without row i,
    and d4 = (d1·A1 − d2·A2 + d3·A3) / A4, which the exact division refuses when A4 is zero.
  */
  function D4(e: seq<Plane>): Result<real>
    requires |e| >= 4
  {
    var a1 := Det3(e[1], e[2], e[3]);
    var a2 := Det3(e[0], e[2], e[3]);
    var a3 := Det3(e[0], e[1], e[3]);
    var a4 := Det3(e[0], e[1], e[2]);
    if a4 == 0.0 then Err(DivisionByZero) else Ok(Cramer(e[0].d, e[1].d, e[2].d, a1, a2, a3, a4))
  }

  /** Cramer's rule for the fourth offset, from the first three offsets and the four cofactors. */
  function Cramer(d0: real, d1: real, d2: real, a1: real, a2: real, a3: real, a4: real): real
    requires a4 != 0.0
  {
    (d0 * a1 - d1 * a2 + d2 * a3) / a4
  }

  /** A cofactor expansion of a 4 × 4 determinant with a repeated column: x0·A1 − x1·A2 + x2·A3 − x3·A4 = 0. */
  lemma {:induction false} CofactorIdentity(p0: Plane, p1: Plane, p2: Plane, p3: Plane)
    ensures p0.a * Det3(p1, p2, p3) - p1.a * Det3(p0, p2, p3) + p2.a * Det3(p0, p1, p3) - p3.a * Det3(p0, p1, p2) == 0.0
    ensures p0.b * Det3(p1, p2, p3) - p1.b * Det3(p0, p2, p3) + p2.b * Det3(p0, p1, p3) - p3.b * Det3(p0, p1, p2) == 0.0
    ensures p0.c * Det3(p1, p2, p3) - p1.c * Det3(p0, p2, p3) + p2.c * Det3(p0, p1, p3) - p3.c * Det3(p0, p1, p2) == 0.0
  {
    CofactorA(p0, p1, p2, p3);
    CofactorB(p0, p1, p2, p3);
    CofactorC(p0, p1, p2, p3);
  }

  /** The a column repeated. */
  lemma {:induction false} CofactorA(p0: Plane, p1: Plane, p2: Plane, p3: Plane)
    ensures p0.a * Det3(p1, p2, p3) - p1.a * Det3(p0, p2, p3) + p2.a * Det3(p0, p1, p3) - p3.a * Det3(p0, p1, p2) == 0.0
  {
    ColumnA(p1, p2, p3); ColumnA(p0, p2, p3); ColumnA(p0, p1, p3); ColumnA(p0, p1, p2);
    Alternating(p0.a, p1.a, p2.a, p3.a, MinorA(p0, p1), MinorA(p0, p2), MinorA(p0, p3), MinorA(p1, p2), MinorA(p1, p3), MinorA(p2, p3),
      Det3(p1, p2, p3), Det3(p0, p2, p3), Det3(p0, p1, p3), Det3(p0, p1, p2));
  }

  /** The b column repeated. */
  lemma {:induction false} CofactorB(p0: Plane, p1: Plane, p2: Plane, p3: Plane)
    ensures p0.b * Det3(p1, p2, p3) - p1.b * Det3(p0, p2, p3) + p2.b * Det3(p0, p1, p3) - p3.b * Det3(p0, p1, p2) == 0.0
  {
    ColumnB(p1, p2, p3); ColumnB(p0, p2, p3); ColumnB(p0, p1, p3); ColumnB(p0, p1, p2);
    Alternating(p0.b, p1.b, p2.b, p3.b, MinorB(p0, p1), MinorB(p0, p2), MinorB(p0, p3), MinorB(p1, p2), MinorB(p1, p3), MinorB(p2, p3),
      Det3(p1, p2, p3), Det3(p0, p2, p3), Det3(p0, p1, p3), Det3(p0, p1, p2));
  }

  /** The c column repeated. */
  lemma {:induction false} CofactorC(p0: Plane, p1: Plane, p2: Plane, p3: Plane)
    ensures p0.c * Det3(p1, p2, p3) - p1.c * Det3(p0, p2, p3) + p2.c * Det3(p0, p1, p3) - p3.c * Det3(p0, p1, p2) == 0.0
  {
    ColumnC(p1, p2, p3); ColumnC(p0, p2, p3); ColumnC(p0, p1, p3); ColumnC(p0, p1, p2);
    Alternating(p0.c, p1.c, p2.c, p3.c, MinorC(p0, p1), MinorC(p0, p2), MinorC(p0, p3), MinorC(p1, p2), MinorC(p1, p3), MinorC(p2, p3),
      Det3(p1, p2, p3), Det3(p0, p2, p3), Det3(p0, p1, p3), Det3(p0, p1, p2));
  }

  /** The signed 2 × 2 minors left when the a, the b or the c column is struck out. */
  function MinorA(x: Plane, y: Plane): real { x.b * y.c - x.c * y.b }
  function MinorB(x: Plane, y: Plane): real { x.c * y.a - x.a * y.c }
  function MinorC(x: Plane, y: Plane): real { x.a * y.b - x.b * y.a }

  /** The 3 × 3 determinant expanded down its a column. */
  lemma {:induction false} ColumnA(x: Plane, y: Plane, z: Plane)
    ensures Det3(x, y, z) == x.a * MinorA(y, z) - y.a * MinorA(x, z) + z.a * MinorA(x, y)
  {
  }

  /** The 3 × 3 determinant expanded down its b column. */
  lemma {:induction false} ColumnB(x: Plane, y: Plane, z: Plane)
    ensures Det3(x, y, z) == x.b * MinorB(y, z) - y.b * MinorB(x, z) + z.b * MinorB(x, y)
  {
  }

  /** The 3 × 3 determinant expanded down its c column. */
  lemma {:induction false} ColumnC(x: Plane, y: Plane, z: Plane)
    ensures Det3(x, y, z) == x.c * MinorC(y, z) - y.c * MinorC(x, z) + z.c * MinorC(x, y)
  {
  }

  /** Expanding four column expansions that share their minors: every product appears twice, with opposite signs. */
  lemma {:induction false} Alternating(x0: real, x1: real, x2: real, x3: real, m01: real, m02: real, m03: real, m12: real, m13: real, m23: real,
                                       d123: real, d023: real, d013: real, d012: real)
    requires d123 == x1 * m23 - x2 * m13 + x3 * m12
    requires d023 == x0 * m23 - x2 * m03 + x3 * m02
    requires d013 == x0 * m13 - x1 * m03 + x3 * m01
    requires d012 == x0 * m12 - x1 * m02 + x2 * m01
    ensures x0 * d123 - x1 * d023 + x2 * d013 - x3 * d012 == 0.0
  {
    calc {
      x0 * d123 - x1 * d023 + x2 * d013 - x3 * d012;
    ==
      x0 * (x1 * m23 - x2 * m13 + x3 * m12) - x1 * (x0 * m23 - x2 * m03 + x3 * m02)
      + x2 * (x0 * m13 - x1 * m03 + x3 * m01) - x3 * (x0 * m12 - x1 * m02 + x2 * m01);
    ==
      0.0;
    }
  }

  /** Regrouping the normal parts by coordinate, with the four determinants held fixed. */
  lemma {:induction false} Regroup(p0: Plane, p1: Plane, p2: Plane, p3: Plane, pt: Point, a1: real, a2: real, a3: real, a4: real)
    ensures NormalDot(p0, pt) * a1 - NormalDot(p1, pt) * a2 + NormalDot(p2, pt) * a3 - NormalDot(p3, pt) * a4
         == pt.x * (p0.a * a1 - p1.a * a2 + p2.a * a3 - p3.a * a4)
          + pt.y * (p0.b * a1 - p1.b * a2 + p2.b * a3 - p3.b * a4)
          + pt.z * (p0.c * a1 - p1.c * a2 + p2.c * a3 - p3.c * a4)
  {
  }

  /** The normal parts at any point combine with the cofactors to zero. */
  lemma {:induction false} CombinationVanishes(p0: Plane, p1: Plane, p2: Plane, p3: Plane, pt: Point)
    ensures NormalDot(p0, pt) * Det3(p1, p2, p3) - NormalDot(p1, pt) * Det3(p0, p2, p3)
          + NormalDot(p2, pt) * Det3(p0, p1, p3) - NormalDot(p3, pt) * Det3(p0, p1, p2) == 0.0
  {
    CofactorIdentity(p0, p1, p2, p3);
    Regroup(p0, p1, p2, p3, pt, Det3(p1, p2, p3), Det3(p0, p2, p3), Det3(p0, p1, p3), Det3(p0, p1, p2));
  }

  /** The offset equation solved: with A4 nonzero, d4·A4 = d0·A1 − d1·A2 + d2·A3 and dk = −nk, d4 is −n3. */
  lemma {:induction false} OffsetFromCofactors(d4: real, a1: real, a2: real, a3: real, a4: real, d0: real, d1: real, d2: real, n0: real, n1: real, n2: real, n3: real)
    requires a4 != 0.0 && d4 == (d0 * a1 - d1 * a2 + d2 * a3) / a4
    requires d0 == -n0 && d1 == -n1 && d2 == -n2
    requires n0 * a1 - n1 * a2 + n2 * a3 - n3 * a4 == 0.0
    ensures d4 == -n3
  {
    calc {
      d4 * a4;
    ==
      d0 * a1 - d1 * a2 + d2 * a3;
    ==
      (-n0) * a1 - (-n1) * a2 + (-n2) * a3;
    ==
      -(n0 * a1 - n1 * a2 + n2 * a3);
    ==
      -(n3 * a4);
    ==
      (-n3) * a4;
    }
  }

  /** With the first three reduced planes through pt, d4 is minus the fourth normal part at pt. */
  lemma {:induction false} D4Solves(e: seq<Plane>, pt: Point)
    requires |e| >= 4 && D4(e).Ok?
    requires NormalDot(e[0], pt) == -e[0].d && NormalDot(e[1], pt) == -e[1].d && NormalDot(e[2], pt) == -e[2].d
    ensures D4(e).value == -NormalDot(e[3], pt)
  {
    var p0, p1, p2, p3 := e[0], e[1], e[2], e[3];
    var a1, a2, a3, a4 := Det3(p1, p2, p3), Det3(p0, p2, p3), Det3(p0, p1, p3), Det3(p0, p1, p2);
    var n0, n1, n2, n3 := NormalDot(p0, pt), NormalDot(p1, pt), NormalDot(p2, pt), NormalDot(p3, pt);
    assert D4(e).value == Cramer(p0.d, p1.d, p2.d, a1, a2, a3, a4);
    CombinationVanishes(p0, p1, p2, p3, pt);
    OffsetFromCofactors(D4(e).value, a1, a2, a3, a4, p0.d, p1.d, p2.d, n0, n1, n2, n3);
  }

  /**
    The offset does what the correction wants: when the first three reduced planes meet at a point,
    the fourth plane with offset d4 passes through that point as well, and no other offset does.
  */
  lemma {:induction false} D4ThroughCommonPoint(e: seq<Plane>, pt: Point)
    requires |e| >= 4 && D4(e).Ok?
    requires OnPlane(e[0], pt) && OnPlane(e[1], pt) && OnPlane(e[2], pt)
    ensures OnPlane(e[3].(d := D4(e).value), pt)
    ensures forall d :: OnPlane(e[3].(d := d), pt) ==> d == D4(e).value
  {
    OnPlaneNormalDot(e[0], pt);
    OnPlaneNormalDot(e[1], pt);
    OnPlaneNormalDot(e[2], pt);
    D4Solves(e, pt);
    forall d
      ensures OnPlane(e[3].(d := d), pt) <==> d == -NormalDot(e[3], pt)
    {
      OnPlaneWithOffset(e[3], d, pt);
    }
  }

  /** A point lies on a plane exactly when its normal part is minus the offset. */
  lemma {:induction false} OnPlaneNormalDot(p: Plane, pt: Point)
    ensures OnPlane(p, pt) <==> NormalDot(p, pt) == -p.d
  {
  }

  /** Changing only the offset keeps the normal part: the plane passes through pt for exactly one offset. */
  lemma {:induction false} OnPlaneWithOffset(p: Plane, d: real, pt: Point)
    ensures OnPlane(p.(d := d), pt) <==> d == -NormalDot(p, pt)
  {
    assert NormalDot(p.(d := d), pt) == NormalDot(p, pt);
  }

  // ----- constraints, priorities and fixed points -----

  /** The planes of the listed faces, in order. */
  function PlanesOf(planes: seq<Plane>, faces: seq<int>): (r: seq<Plane>)
    requires forall k :: 0 <= k < |faces| ==> 0 <= faces[k] < |planes|
    ensures |r| == |faces| && forall k :: 0 <= k < |faces| ==> r[k] == planes[faces[k]]
  {
    seq(|faces|, k requires 0 <= k < |faces| => planes[faces[k]])
  }

  /** The points of `points` constrained by at least three faces, counted with repetition (lines 639-644). */
  function CountConstrained(points: seq<int>, constraints: seq<seq<int>>): (r: nat)
    requires forall k :: 0 <= k < |points| ==> 0 <= points[k] < |constraints|
    ensures r <= |points|
  {
    if points == [] then 0
    else CountConstrained(points[..|points| - 1], constraints) + (if |constraints[points[|points| - 1]]| >= 3 then 1 else 0)
  }

  /** Growing the constraint lists never lowers a priority. */
  lemma {:induction false} CountConstrainedMonotone(points: seq<int>, c1: seq<seq<int>>, c2: seq<seq<int>>)
    requires |c1| == |c2| && forall p :: 0 <= p < |c1| ==> |c1[p]| <= |c2[p]|
    requires forall k :: 0 <= k < |points| ==> 0 <= points[k] < |c1|
    ensures CountConstrained(points, c1) <= CountConstrained(points, c2)
    decreases |points|
  {
    if points != [] {
      CountConstrainedMonotone(points[..|points| - 1], c1, c2);
    }
  }

  /** The rank of the planes constraining point p (lines 659-667). */
  function NbConstraints(planes: seq<Plane>, constraints: seq<seq<int>>, rank: seq<Plane> -> nat, p: int): nat
    requires 0 <= p < |constraints| && forall k :: 0 <= k < |constraints[p]| ==> 0 <= constraints[p][k] < |planes|
  {
    rank(PlanesOf(planes, constraints[p]))
  }

  /** Every constraint list names faces that have a plane. */
  ghost predicate ConstraintsInRange(planes: seq<Plane>, constraints: seq<seq<int>>) {
    forall p, k :: 0 <= p < |constraints| && 0 <= k < |constraints[p]| ==> 0 <= constraints[p][k] < |planes|
  }

  /** `getFixedPoints` (lines 649-657): the points, in order, whose constraining planes have rank at least 3. */
  function FixedPoints(points: seq<int>, planes: seq<Plane>, constraints: seq<seq<int>>, rank: seq<Plane> -> nat): (r: seq<int>)
    requires forall k :: 0 <= k < |points| ==> 0 <= points[k] < |constraints|
    requires ConstraintsInRange(planes, constraints)
    ensures |r| <= |points|
    ensures forall j :: 0 <= j < |r| ==> 0 <= r[j] < |constraints|
    ensures forall x :: x in r <==> x in points && NbConstraints(planes, constraints, rank, x) >= 3
  {
    if points == [] then []
    else
      var last := points[|points| - 1];
      var front := FixedPoints(points[..|points| - 1], planes, constraints, rank);
      assert forall x :: x in points <==> x in points[..|points| - 1] || x == last;
      if NbConstraints(planes, constraints, rank, last) >= 3 then front + [last] else front
  }

  /**
    Lines 413-447 as written for fixed point p of face f: the planes constraining p and then f's own
    are reduced together, and d4 is taken from the first four reduced rows.
  */
  function FixedPointD4AsWritten(planes: seq<Plane>, constraints: seq<seq<int>>, o: CorrectionOracles, f: int, p: int): Result<real>
    requires 0 <= f < |planes| && 0 <= p < |constraints| && ConstraintsInRange(planes, constraints)
  {
    var e := o.reduce(PlanesOf(planes, constraints[p]) + [planes[f]]);
    if |e| < 4 then Err(MissingRow) else D4(e)
  }

  /** The planes x = 1, y = 1, z = 1 pinning the corner (1, 1, 1), and a face x + y + z − 3 = 0 through it. */
  const CornerPlanes: seq<Plane> := CubeCorner + [Plane(1.0, 1.0, 1.0, -3.0)]

  /**
    The reduced row echelon form of the four planes of `CornerPlanes` stacked: the face's row minus
    the three others is zero, so the fourth row has lost its normal.
  */
  const CornerEchelon: seq<Plane> := CubeCorner + [Plane(0.0, 0.0, 0.0, 0.0)]

  /**
    Reducing the face's own plane with the constraints empties the fourth row, so the offset as
    written is 0 whatever the face: the face through (1, 1, 1) is moved to x + y + z = 0, off the
    point it had to keep.  Reducing the constraints alone and appending the face keeps it on the point.
  */
  lemma {:induction false} AsWrittenLosesFixedPoint(o: CorrectionOracles)
    requires o.reduce(PlanesOf(CornerPlanes, [0, 1, 2]) + [CornerPlanes[3]]) == CornerEchelon
    requires o.reduce(PlanesOf(CornerPlanes, [0, 1, 2])) == CubeCorner
    ensures OnPlane(CornerPlanes[3], Point(1.0, 1.0, 1.0))
    ensures FixedPointD4AsWritten(CornerPlanes, [[0, 1, 2]], o, 3, 0) == Ok(0.0)
    ensures !OnPlane(CornerPlanes[3].(d := 0.0), Point(1.0, 1.0, 1.0))
    ensures FixedPointD4(CornerPlanes, [[0, 1, 2]], o, 3, 0) == Ok(-3.0)
  {
    CornerShape();
    EchelonOffset();
    CornerOffset();
  }

  /** The example's four planes are indexed by its constraint list, and the face's row follows the three corner planes. */
  lemma {:induction false} CornerShape()
    ensures |CornerPlanes| == 4 && ConstraintsInRange(CornerPlanes, [[0, 1, 2]])
    ensures CubeCorner[..3] + [CornerPlanes[3]] == CornerPlanes
    ensures OnPlane(CornerPlanes[3], Point(1.0, 1.0, 1.0)) && !OnPlane(CornerPlanes[3].(d := 0.0), Point(1.0, 1.0, 1.0))
  {
  }

  /** On the echelon form the three cofactors of the fourth row vanish, so d4 is 0. */
  lemma {:induction false} EchelonOffset()
    ensures D4(CornerEchelon) == Ok(0.0)
  {
    assert CornerEchelon == [Plane(1.0, 0.0, 0.0, -1.0), Plane(0.0, 1.0, 0.0, -1.0), Plane(0.0, 0.0, 1.0, -1.0), Plane(0.0, 0.0, 0.0, 0.0)];
    D4OfRows(Plane(1.0, 0.0, 0.0, -1.0), Plane(0.0, 1.0, 0.0, -1.0), Plane(0.0, 0.0, 1.0, -1.0), Plane(0.0, 0.0, 0.0, 0.0));
    assert Det3(Plane(1.0, 0.0, 0.0, -1.0), Plane(0.0, 1.0, 0.0, -1.0), Plane(0.0, 0.0, 1.0, -1.0)) == 1.0;
  }

  /** With the face's own row kept, d4 is the face's offset −3 again. */
  lemma {:induction false} CornerOffset()
    ensures D4(CornerPlanes) == Ok(-3.0)
  {
    assert CornerPlanes == [Plane(1.0, 0.0, 0.0, -1.0), Plane(0.0, 1.0, 0.0, -1.0), Plane(0.0, 0.0, 1.0, -1.0), Plane(1.0, 1.0, 1.0, -3.0)];
    D4OfRows(Plane(1.0, 0.0, 0.0, -1.0), Plane(0.0, 1.0, 0.0, -1.0), Plane(0.0, 0.0, 1.0, -1.0), Plane(1.0, 1.0, 1.0, -3.0));
    assert Det3(Plane(0.0, 1.0, 0.0, -1.0), Plane(0.0, 0.0, 1.0, -1.0), Plane(1.0, 1.0, 1.0, -3.0)) == 1.0;
    assert Det3(Plane(1.0, 0.0, 0.0, -1.0), Plane(0.0, 0.0, 1.0, -1.0), Plane(1.0, 1.0, 1.0, -3.0)) == -1.0;
    assert Det3(Plane(1.0, 0.0, 0.0, -1.0), Plane(0.0, 1.0, 0.0, -1.0), Plane(1.0, 1.0, 1.0, -3.0)) == 1.0;
    assert Det3(Plane(1.0, 0.0, 0.0, -1.0), Plane(0.0, 1.0, 0.0, -1.0), Plane(0.0, 0.0, 1.0, -1.0)) == 1.0;
    assert Cramer(-1.0, -1.0, -1.0, 1.0, -1.0, 1.0, 1.0) == -3.0;
  }

  /** D4 of four rows written out: the cofactors of the rows, and Cramer's rule when the fourth is not zero. */
  lemma {:induction false} D4OfRows(p0: Plane, p1: Plane, p2: Plane, p3: Plane)
    ensures D4([p0, p1, p2, p3]) ==
      if Det3(p0, p1, p2) == 0.0 then Err(DivisionByZero)
      else Ok(Cramer(p0.d, p1.d, p2.d, Det3(p1, p2, p3), Det3(p0, p2, p3), Det3(p0, p1, p3), Det3(p0, p1, p2)))
  {
    var e := [p0, p1, p2, p3];
    assert e[0] == p0 && e[1] == p1 && e[2] == p2 && e[3] == p3;
  }

  /**
    Lines 413-447 for fixed point p of face f, corrected: the planes constraining p are reduced by
    the exact matrix engine, f's own plane is appended to the first three reduced rows, and d4
    comes from those four rows.
  */
  function FixedPointD4(planes: seq<Plane>, constraints: seq<seq<int>>, o: CorrectionOracles, f: int, p: int): Result<real>
    requires 0 <= f < |planes| && 0 <= p < |constraints| && ConstraintsInRange(planes, constraints)
  {
    var c := o.reduce(PlanesOf(planes, constraints[p]));
    if |c| < 3 then Err(MissingRow) else D4(c[..3] + [planes[f]])
  }

  /**
    When the first three reduced constraint rows of p pass through a point, the face with the offset
    d4 passes through it too, and no other offset of that face does.
  */
  lemma {:induction false} FixedPointD4Through(planes: seq<Plane>, constraints: seq<seq<int>>, o: CorrectionOracles, f: int, p: int, pt: Point)
    requires 0 <= f < |planes| && 0 <= p < |constraints| && ConstraintsInRange(planes, constraints)
    requires FixedPointD4(planes, constraints, o, f, p).Ok?
    requires forall k :: 0 <= k < 3 ==> OnPlane(o.reduce(PlanesOf(planes, constraints[p]))[k], pt)
    ensures OnPlane(planes[f].(d := FixedPointD4(planes, constraints, o, f, p).value), pt)
    ensures forall d :: OnPlane(planes[f].(d := d), pt) ==> d == FixedPointD4(planes, constraints, o, f, p).value
  {
    var c := o.reduce(PlanesOf(planes, constraints[p]));
    var e := c[..3] + [planes[f]];
    assert e[0] == c[0] && e[1] == c[1] && e[2] == c[2] && e[3] == planes[f];
    assert OnPlane(c[0], pt) && OnPlane(c[1], pt) && OnPlane(c[2], pt);
    D4ThroughCommonPoint(e, pt);
  }

  /**
    Lines 403-457 from fixed point k on: each fixed point's d4 must equal the one before it, and the
    first disagreement makes the correction impossible.
  */
  function AgreedD4(planes: seq<Plane>, constraints: seq<seq<int>>, o: CorrectionOracles, f: int, fixed: seq<int>, k: nat, d4: Option<real>): Result<Option<real>>
    requires 0 <= f < |planes| && ConstraintsInRange(planes, constraints)
    requires forall j :: 0 <= j < |fixed| ==> 0 <= fixed[j] < |constraints|
    decreases |fixed| - k
  {
    if k >= |fixed| then Ok(d4)
    else
      match FixedPointD4(planes, constraints, o, f, fixed[k])
      case Err(m) => Err(m)
      case Ok(d) =>
        if d4.Some? && d4.value != d then Err(TooManyConstraints)
        else AgreedD4(planes, constraints, o, f, fixed, k + 1, Some(d))
  }

  /**
    The agreement succeeds exactly when every fixed point yields an offset and all the offsets are
    equal; the offset kept is then that common value.
  */
  lemma {:induction false} AgreedD4Common(planes: seq<Plane>, constraints: seq<seq<int>>, o: CorrectionOracles, f: int, fixed: seq<int>, k: nat, d: real)
    requires 0 <= f < |planes| && ConstraintsInRange(planes, constraints)
    requires forall j :: 0 <= j < |fixed| ==> 0 <= fixed[j] < |constraints|
    requires k < |fixed|
    ensures AgreedD4(planes, constraints, o, f, fixed, k, Some(d)) == Ok(Some(d)) <==>
      forall j :: k <= j < |fixed| ==> FixedPointD4(planes, constraints, o, f, fixed[j]) == Ok(d)
    decreases |fixed| - k
  {
    if k + 1 < |fixed| {
      AgreedD4Common(planes, constraints, o, f, fixed, k + 1, d);
    }
  }

  /**
    With at least one fixed point, the face's offset is set exactly when all fixed points agree on
    it; an agreed offset is each fixed point's own d4.
  */
  lemma {:induction false} AgreedD4Spec(planes: seq<Plane>, constraints: seq<seq<int>>, o: CorrectionOracles, f: int, fixed: seq<int>)
    requires 0 <= f < |planes| && ConstraintsInRange(planes, constraints)
    requires forall j :: 0 <= j < |fixed| ==> 0 <= fixed[j] < |constraints|
    requires |fixed| >= 1
    ensures forall d :: AgreedD4(planes, constraints, o, f, fixed, 0, None) == Ok(Some(d)) <==>
      forall j :: 0 <= j < |fixed| ==> FixedPointD4(planes, constraints, o, f, fixed[j]) == Ok(d)
  {
    forall d
      ensures AgreedD4(planes, constraints, o, f, fixed, 0, None) == Ok(Some(d)) <==>
        forall j :: 0 <= j < |fixed| ==> FixedPointD4(planes, constraints, o, f, fixed[j]) == Ok(d)
    {
      if FixedPointD4(planes, constraints, o, f, fixed[0]) == Ok(d) {
        assert AgreedD4(planes, constraints, o, f, fixed, 0, None) == AgreedD4(planes, constraints, o, f, fixed, 1, Some(d));
        if |fixed| > 1 {
          AgreedD4Common(planes, constraints, o, f, fixed, 1, d);
        }
      } else if FixedPointD4(planes, constraints, o, f, fixed[0]).Ok? {
        var d0 := FixedPointD4(planes, constraints, o, f, fixed[0]).value;
        if |fixed| > 1 {
          AgreedD4Common(planes, constraints, o, f, fixed, 1, d0);
        }
        AgreedD4Keeps(planes, constraints, o, f, fixed, 1, d0);
      }
    }
  }

  /** Once an offset is kept, the agreement can only confirm it or fail. */
  lemma {:induction false} AgreedD4Keeps(planes: seq<Plane>, constraints: seq<seq<int>>, o: CorrectionOracles, f: int, fixed: seq<int>, k: nat, d: real)
    requires 0 <= f < |planes| && ConstraintsInRange(planes, constraints)
    requires forall j :: 0 <= j < |fixed| ==> 0 <= fixed[j] < |constraints|
    ensures AgreedD4(planes, constraints, o, f, fixed, k, Some(d)).Ok? ==> AgreedD4(planes, constraints, o, f, fixed, k, Some(d)) == Ok(Some(d))
    decreases |fixed| - k
  {
    if k < |fixed| {
      AgreedD4Keeps(planes, constraints, o, f, fixed, k + 1, d);
    }
  }

  /** Lines 504-512: face f appended to the constraint list of each of its points, in order. */
  function Recorded(constraints: seq<seq<int>>, points: seq<int>, f: int): (r: seq<seq<int>>)
    requires forall k :: 0 <= k < |points| ==> 0 <= points[k] < |constraints|
    ensures |r| == |constraints|
  {
    if points == [] then constraints
    else
      var c := Recorded(constraints, points[..|points| - 1], f);
      var p := points[|points| - 1];
      c[p := c[p] + [f]]
  }

  /** Recording a face adds it to exactly the lists of its points and keeps every earlier entry. */
  lemma {:induction false} RecordedLists(constraints: seq<seq<int>>, points: seq<int>, f: int)
    requires forall k :: 0 <= k < |points| ==> 0 <= points[k] < |constraints|
    ensures forall p :: 0 <= p < |constraints| ==>
      && |Recorded(constraints, points, f)[p]| >= |constraints[p]|
      && Recorded(constraints, points, f)[p][..|constraints[p]|] == constraints[p]
      && forall g :: g in Recorded(constraints, points, f)[p] <==> g in constraints[p] || (g == f && p in points)
    decreases |points|
  {
    if points != [] {
      var front := points[..|points| - 1];
      RecordedLists(constraints, front, f);
      var c := Recorded(constraints, front, f);
      var last := points[|points| - 1];
      assert forall p :: p in points <==> p in front || p == last;
      forall p | 0 <= p < |constraints|
        ensures |Recorded(constraints, points, f)[p]| >= |constraints[p]|
        ensures Recorded(constraints, points, f)[p][..|constraints[p]|] == constraints[p]
      {
        if p == last {
          assert (c[p] + [f])[..|constraints[p]|] == c[p][..|constraints[p]|];
        }
      }
    }
  }

  /** One face of lines 400-514: the offset moved through its fixed points, or the error that stops the correction. */
  function Shifted(planes: seq<Plane>, constraints: seq<seq<int>>, o: CorrectionOracles, f: int, points: seq<int>): Result<seq<Plane>>
    requires 0 <= f < |planes| && ConstraintsInRange(planes, constraints)
    requires forall k :: 0 <= k < |points| ==> 0 <= points[k] < |constraints|
  {
    var fixed := FixedPoints(points, planes, constraints, o.rank);
    if |fixed| == 0 then Ok(planes)
    else
      match AgreedD4(planes, constraints, o, f, fixed, 0, None)
      case Err(m) => Err(m)
      case Ok(None) => Ok(planes)
      case Ok(Some(d)) => Ok(planes[f := planes[f].(d := d)])
  }

  /**
    Shifting a face changes only that face's offset: when its points fix nothing the planes stay,
    and otherwise its new offset is the d4 that every one of its fixed points yields.
  */
  lemma {:induction false} ShiftedMovesOnlyOffset(planes: seq<Plane>, constraints: seq<seq<int>>, o: CorrectionOracles, f: int, points: seq<int>)
    requires 0 <= f < |planes| && ConstraintsInRange(planes, constraints)
    requires forall k :: 0 <= k < |points| ==> 0 <= points[k] < |constraints|
    requires Shifted(planes, constraints, o, f, points).Ok?
    ensures var r := Shifted(planes, constraints, o, f, points).value;
      && |r| == |planes|
      && (forall g :: 0 <= g < |planes| && g != f ==> r[g] == planes[g])
      && r[f] == planes[f].(d := r[f].d)
      && (FixedPoints(points, planes, constraints, o.rank) == [] ==> r == planes)
      && (forall p :: p in FixedPoints(points, planes, constraints, o.rank) ==> FixedPointD4(planes, constraints, o, f, p) == Ok(r[f].d))
  {
    var fixed := FixedPoints(points, planes, constraints, o.rank);
    if |fixed| > 0 {
      var a := AgreedD4(planes, constraints, o, f, fixed, 0, None);
      match FixedPointD4(planes, constraints, o, f, fixed[0])
      case Err(m) =>
      case Ok(d0) =>
        assert a == AgreedD4(planes, constraints, o, f, fixed, 1, Some(d0));
        AgreedD4Keeps(planes, constraints, o, f, fixed, 1, d0);
        AgreedD4Spec(planes, constraints, o, f, fixed);
        forall p | p in fixed
          ensures FixedPointD4(planes, constraints, o, f, p) == Ok(d0)
        {
          var j :| 0 <= j < |fixed| && fixed[j] == p;
        }
    }
  }

  /**
    The correction's purpose: after a successful shift, face f passes through every point that its
    fixed points' reduced constraint rows meet at.
  */
  lemma {:induction false} ShiftedThroughFixedPoints(planes: seq<Plane>, constraints: seq<seq<int>>, o: CorrectionOracles, f: int, points: seq<int>, p: int, pt: Point)
    requires 0 <= f < |planes| && ConstraintsInRange(planes, constraints)
    requires forall k :: 0 <= k < |points| ==> 0 <= points[k] < |constraints|
    requires Shifted(planes, constraints, o, f, points).Ok?
    requires p in FixedPoints(points, planes, constraints, o.rank)
    requires 0 <= p < |constraints| && |o.reduce(PlanesOf(planes, constraints[p]))| >= 3
    requires forall k :: 0 <= k < 3 ==> OnPlane(o.reduce(PlanesOf(planes, constraints[p]))[k], pt)
    ensures OnPlane(Shifted(planes, constraints, o, f, points).value[f], pt)
  {
    ShiftedMovesOnlyOffset(planes, constraints, o, f, points);
    FixedPointD4Through(planes, constraints, o, f, p, pt);
  }

  /** The shift of a face is its agreed offset written into its plane, or the agreement's error. */
  lemma {:induction false} ShiftedFromOffset(planes: seq<Plane>, constraints: seq<seq<int>>, o: CorrectionOracles, f: int, points: seq<int>)
    requires 0 <= f < |planes| && ConstraintsInRange(planes, constraints)
    requires forall k :: 0 <= k < |points| ==> 0 <= points[k] < |constraints|
    ensures var a := AgreedD4(planes, constraints, o, f, FixedPoints(points, planes, constraints, o.rank), 0, None);
      && (a.Err? ==> Shifted(planes, constraints, o, f, points) == Err(a.message))
      && (a.Ok? && a.value.None? ==> Shifted(planes, constraints, o, f, points) == Ok(planes))
      && (a.Ok? && a.value.Some? ==> Shifted(planes, constraints, o, f, points) == Ok(planes[f := planes[f].(d := a.value.value)]))
  {
  }

  /** A failed shift reports one of the three errors of the offset computation. */
  lemma {:induction false} AgreedD4Errors(planes: seq<Plane>, constraints: seq<seq<int>>, o: CorrectionOracles, f: int, fixed: seq<int>, k: nat, d4: Option<real>)
    requires 0 <= f < |planes| && ConstraintsInRange(planes, constraints)
    requires forall j :: 0 <= j < |fixed| ==> 0 <= fixed[j] < |constraints|
    ensures AgreedD4(planes, constraints, o, f, fixed, k, d4).Err? ==>
      AgreedD4(planes, constraints, o, f, fixed, k, d4).message in {TooManyConstraints, DivisionByZero, MissingRow}
    decreases |fixed| - k
  {
    if k < |fixed| {
      match FixedPointD4(planes, constraints, o, f, fixed[k])
      case Err(m) =>
      case Ok(d) => AgreedD4Errors(planes, constraints, o, f, fixed, k + 1, Some(d));
    }
  }

  /** Recording a face whose id has a plane keeps every constraint list naming faces with a plane. */
  lemma {:induction false} RecordedInRange(planes: seq<Plane>, constraints: seq<seq<int>>, points: seq<int>, f: int)
    requires 0 <= f < |planes| && ConstraintsInRange(planes, constraints)
    requires forall k :: 0 <= k < |points| ==> 0 <= points[k] < |constraints|
    ensures ConstraintsInRange(planes, Recorded(constraints, points, f))
    decreases |points|
  {
    if points != [] {
      RecordedInRange(planes, constraints, points[..|points| - 1], f);
    }
  }

  /** Some queued face has id f. */
  ghost predicate Queued(queue: seq<PriorityFace>, f: int) {
    exists k :: 0 <= k < |queue| && queue[k].id == f
  }

  /** Removing one queued face leaves every other queued id queued. */
  lemma {:induction false} QueuedAfterRemoval(queue: seq<PriorityFace>, k: nat, f: int)
    requires k < |queue| && Queued(queue, f) && f != queue[k].id
    ensures Queued(queue[..k] + queue[k + 1..], f)
  {
    var j :| 0 <= j < |queue| && queue[j].id == f;
    var rest := queue[..k] + queue[k + 1..];
    if j < k {
      assert rest[j] == queue[j];
    } else {
      assert rest[j - 1] == queue[j];
    }
  }

  /**
    The queue of lines 401-514: distinct faces not yet processed, each with the points of its
    borders, and with every face either processed or still queued.
  */
  ghost predicate QueueCovers(queue: seq<PriorityFace>, borders: seq<seq<int>>, processed: set<int>, nFaces: nat) {
    && (forall k :: 0 <= k < |queue| ==> 0 <= queue[k].id < nFaces && queue[k].id < |borders| && queue[k].pointsId == borders[queue[k].id])
    && (forall k :: 0 <= k < |queue| ==> queue[k].id !in processed)
    && (forall k, l :: 0 <= k < l < |queue| ==> queue[k].id != queue[l].id)
    && (forall f :: 0 <= f < nFaces ==> f in processed || Queued(queue, f))
  }

  /** Popping face k processes it and keeps the queue covering every face. */
  lemma {:induction false} PopKeepsQueue(queue: seq<PriorityFace>, k: nat, borders: seq<seq<int>>, processed: set<int>, nFaces: nat)
    requires k < |queue| && QueueCovers(queue, borders, processed, nFaces)
    ensures QueueCovers(queue[..k] + queue[k + 1..], borders, processed + {queue[k].id}, nFaces)
  {
    var rest := queue[..k] + queue[k + 1..];
    forall j | 0 <= j < |rest|
      ensures rest[j] == queue[if j < k then j else j + 1]
      ensures rest[j].id != queue[k].id
    {
      var j' := if j < k then j else j + 1;
      assert rest[j] == queue[j'];
      if j' < k {
        assert queue[j'].id != queue[k].id;
      } else {
        assert queue[k].id != queue[j'].id;
      }
    }
    forall a, b | 0 <= a < b < |rest|
      ensures rest[a].id != rest[b].id
    {
      var a', b' := if a < k then a else a + 1, if b < k then b else b + 1;
      assert queue[a'].id != queue[b'].id;
    }
    forall f | 0 <= f < nFaces && f !in processed + {queue[k].id}
      ensures Queued(rest, f)
    {
      QueuedAfterRemoval(queue, k, f);
    }
  }

  /** Each point is constrained by exactly the processed faces whose borders contain it. */
  ghost predicate ConstrainedExactly(constraints: seq<seq<int>>, borders: seq<seq<int>>, processed: set<int>, nPoints: nat, nFaces: nat)
    requires |borders| == nFaces && |constraints| == nPoints
  {
    forall p, f :: 0 <= p < nPoints && 0 <= f < nFaces ==> (f in constraints[p] <==> f in processed && p in borders[f])
  }

  /** Recording a newly processed face keeps the constraint lists exact. */
  lemma {:induction false} RecordKeepsConstraints(constraints: seq<seq<int>>, borders: seq<seq<int>>, processed: set<int>, f0: int, nPoints: nat, nFaces: nat)
    requires |borders| == nFaces && |constraints| == nPoints && 0 <= f0 < nFaces
    requires forall k :: 0 <= k < |borders[f0]| ==> 0 <= borders[f0][k] < nPoints
    requires ConstrainedExactly(constraints, borders, processed, nPoints, nFaces)
    ensures ConstrainedExactly(Recorded(constraints, borders[f0], f0), borders, processed + {f0}, nPoints, nFaces)
  {
    RecordedLists(constraints, borders[f0], f0);
  }

  // ----- the faces and their static tables -----

  /** One face of the correction queue: its priority, its id and the points of its borders. */
  class PriorityFace {
    var priority: int
    const id: int
    const pointsId: seq<int>

    /** The face starts with priority 0. */
    constructor (fId: int, points: seq<int>)
      ensures priority == 0 && id == fId && pointsId == points
    {
      priority := 0;
      id := fId;
      pointsId := points;
    }

    /** `getFixedPoints` (lines 649-657): its points, in order, pinned by planes of rank at least 3. */
    method GetFixedPoints(statics: PriorityFaces, rank: seq<Plane> -> nat) returns (fixed: seq<int>)
      requires statics.Valid() && forall k :: 0 <= k < |pointsId| ==> 0 <= pointsId[k] < |statics.constraints|
      ensures fixed == FixedPoints(pointsId, statics.planes, statics.constraints, rank)
    {
      fixed := [];
      var i := 0;
      while i < |pointsId|
        invariant 0 <= i <= |pointsId|
        invariant fixed == FixedPoints(pointsId[..i], statics.planes, statics.constraints, rank)
      {
        var n := statics.GetNbConstraints(pointsId[i], rank);
        assert pointsId[..i + 1][..i] == pointsId[..i];
        if n >= 3 {
          fixed := fixed + [pointsId[i]];
        }
        i := i + 1;
      }
      assert pointsId[..|pointsId|] == pointsId;
    }
  }

  /** The static side of `PriorityFace`: its instances, the faces constraining each point, and the controller's face planes. */
  class PriorityFaces {
    var instances: seq<PriorityFace>
    var constraints: seq<seq<int>>
    var planes: seq<Plane>

    /** Constraints name faces with a plane, and every face's points have a constraint list. */
    ghost predicate Valid()
      reads this
    {
      && ConstraintsInRange(planes, constraints)
      && forall i, k :: 0 <= i < |instances| && 0 <= k < |instances[i].pointsId| ==> 0 <= instances[i].pointsId[k] < |constraints|
    }

    /** The `PriorityFace` constructor's `instances.push(this)`. */
    method Register(fId: int, points: seq<int>) returns (face: PriorityFace)
      modifies this
      ensures fresh(face) && face.priority == 0 && face.id == fId && face.pointsId == points
      ensures instances == old(instances) + [face]
      ensures constraints == old(constraints) && planes == old(planes)
    {
      face := new PriorityFace(fId, points);
      instances := instances + [face];
    }

    /** `getNbConstraints` (lines 659-667): the rank of the planes constraining p. */
    method GetNbConstraints(p: int, rank: seq<Plane> -> nat) returns (n: nat)
      requires Valid() && 0 <= p < |constraints|
      ensures n == NbConstraints(planes, constraints, rank, p)
    {
      var equations: seq<Plane> := [];
      var i := 0;
      while i < |constraints[p]|
        invariant 0 <= i <= |constraints[p]|
        invariant equations == PlanesOf(planes, constraints[p][..i])
      {
        equations := equations + [planes[constraints[p][i]]];
        i := i + 1;
      }
      assert constraints[p][..|constraints[p]|] == constraints[p];
      n := rank(equations);
    }

    /** `updatePriorities` (lines 637-647): each face's priority becomes the number of its points with three constraints or more. */
    method UpdatePriorities()
      requires Valid()
      modifies set f | f in instances
      ensures forall k :: 0 <= k < |instances| ==> instances[k].priority == CountConstrained(instances[k].pointsId, constraints)
    {
      var i := 0;
      while i < |instances|
        invariant 0 <= i <= |instances|
        invariant forall k :: 0 <= k < i ==> instances[k].priority == CountConstrained(instances[k].pointsId, constraints)
      {
        var instance := instances[i];
        var prio := 0;
        var j := 0;
        while j < |instance.pointsId|
          invariant 0 <= j <= |instance.pointsId|
          invariant prio == CountConstrained(instance.pointsId[..j], constraints)
        {
          assert instance.pointsId[..j + 1][..j] == instance.pointsId[..j];
          if |constraints[instance.pointsId[j]]| >= 3 {
            prio := prio + 1;
          }
          j := j + 1;
        }
        assert instance.pointsId[..|instance.pointsId|] == instance.pointsId;
        instance.priority := prio;
        i := i + 1;
      }
    }

    /** Lines 413-447 for one fixed point, corrected: the constraining planes reduced, the face's own appended, then d4. */
    method FixedPointOffset(o: CorrectionOracles, f: int, p: int) returns (r: Result<real>)
      requires Valid() && 0 <= f < |planes| && 0 <= p < |constraints|
      ensures r == FixedPointD4(planes, constraints, o, f, p)
    {
      var equations: seq<Plane> := [];
      var i := 0;
      while i < |constraints[p]|
        invariant 0 <= i <= |constraints[p]|
        invariant equations == PlanesOf(planes, constraints[p][..i])
      {
        equations := equations + [planes[constraints[p][i]]];
        i := i + 1;
      }
      assert constraints[p][..|constraints[p]|] == constraints[p];
      var c := o.reduce(equations);
      if |c| < 3 {
        return Err(MissingRow);
      }
      var e := c[..3] + [planes[f]];
      var a1 := Det3(e[1], e[2], e[3]);
      var a2 := Det3(e[0], e[2], e[3]);
      var a3 := Det3(e[0], e[1], e[3]);
      var a4 := Det3(e[0], e[1], e[2]);
      if a4 == 0.0 {
        return Err(DivisionByZero);
      }
      return Ok(Cramer(e[0].d, e[1].d, e[2].d, a1, a2, a3, a4));
    }

    /** Lines 400-496: the offset of face f from its fixed points, which must all agree when there are several. */
    method FaceOffset(o: CorrectionOracles, f: int, fixed: seq<int>) returns (r: Result<Option<real>>)
      requires Valid() && 0 <= f < |planes| && forall j :: 0 <= j < |fixed| ==> 0 <= fixed[j] < |constraints|
      ensures r == AgreedD4(planes, constraints, o, f, fixed, 0, None)
    {
      if |fixed| > 1 {
        var d4: Option<real> := None;
        var i := 0;
        while i < |fixed|
          invariant 0 <= i <= |fixed|
          invariant AgreedD4(planes, constraints, o, f, fixed, i, d4) == AgreedD4(planes, constraints, o, f, fixed, 0, None)
        {
          var d := FixedPointOffset(o, f, fixed[i]);
          if d.Err? {
            return Err(d.message);
          }
          if d4.Some? {
            if d4.value != d.value {
              return Err(TooManyConstraints);
            }
          } else {
            d4 := Some(d.value);
          }
          i := i + 1;
        }
        return Ok(d4);
      } else if |fixed| == 1 {
        var d := FixedPointOffset(o, f, fixed[0]);
        if d.Err? {
          return Err(d.message);
        }
        return Ok(Some(d.value));
      }
      return Ok(None);
    }

    /** Lines 504-512: the face appended to the constraint list of each of its points. */
    method RecordFace(face: PriorityFace)
      requires Valid() && face in instances && 0 <= face.id < |planes|
      modifies this
      ensures constraints == Recorded(old(constraints), face.pointsId, face.id)
      ensures planes == old(planes) && instances == old(instances) && Valid()
    {
      var j :| 0 <= j < |instances| && instances[j] == face;
      ghost var c0 := constraints;
      var i := 0;
      while i < |face.pointsId|
        invariant 0 <= i <= |face.pointsId|
        invariant planes == old(planes) && instances == old(instances)
        invariant constraints == Recorded(c0, face.pointsId[..i], face.id)
      {
        assert face.pointsId[..i + 1][..i] == face.pointsId[..i];
        var p := face.pointsId[i];
        constraints := constraints[p := constraints[p] + [face.id]];
        i := i + 1;
      }
      assert face.pointsId[..|face.pointsId|] == face.pointsId;
      RecordedInRange(planes, c0, face.pointsId, face.id);
    }

    /**
      One iteration of lines 401-514 for the popped face: its offset moved through its fixed points,
      the face recorded as a constraint of each of its points, and every priority recomputed.
    */
    method ProcessFace(face: PriorityFace, o: CorrectionOracles) returns (r: Result<()>)
      requires Valid() && face in instances && 0 <= face.id < |planes|
      modifies this, set f | f in instances
      ensures instances == old(instances)
      ensures var s := Shifted(old(planes), old(constraints), o, face.id, face.pointsId);
        && (r.Err? <==> s.Err?)
        && (r.Err? ==> r.message == s.message && planes == old(planes) && constraints == old(constraints))
        && (r.Ok? ==> planes == s.value && constraints == Recorded(old(constraints), face.pointsId, face.id))
      ensures r.Ok? ==> Valid()
      ensures r.Ok? ==> forall k :: 0 <= k < |instances| ==> instances[k].priority == CountConstrained(instances[k].pointsId, constraints)
    {
      var j :| 0 <= j < |instances| && instances[j] == face;
      var fixed := face.GetFixedPoints(this, o.rank);
      var d4 := FaceOffset(o, face.id, fixed);
      ShiftedFromOffset(planes, constraints, o, face.id, face.pointsId);
      if d4.Err? {
        return Err(d4.message);
      }
      if d4.value.Some? {
        planes := planes[face.id := planes[face.id].(d := d4.value.value)];
      }
      RecordFace(face);
      UpdatePriorities();
      return Ok(());
    }

    /** Lines 376-399: empty constraint lists for every point, and one queued face of priority 0 per face, in order. */
    method Enqueue(borders: seq<seq<int>>, nPoints: nat) returns (queue: seq<PriorityFace>)
      requires |borders| == |planes|
      requires forall f, k :: 0 <= f < |borders| && 0 <= k < |borders[f]| ==> 0 <= borders[f][k] < nPoints
      modifies this
      ensures planes == old(planes) && constraints == seq(nPoints, _ => []) && Valid()
      ensures instances == queue && |queue| == |planes|
      ensures forall k :: 0 <= k < |queue| ==> queue[k].id == k && queue[k].pointsId == borders[k] && queue[k].priority == 0
      ensures forall f :: f in instances ==> fresh(f)
    {
      instances := [];
      constraints := seq(nPoints, _ => []);
      queue := [];
      var i := 0;
      while i < |planes|
        invariant 0 <= i <= |planes| && planes == old(planes)
        invariant constraints == seq(nPoints, _ => [])
        invariant instances == queue && |queue| == i
        invariant forall k :: 0 <= k < i ==> queue[k].id == k && queue[k].pointsId == borders[k] && queue[k].priority == 0
        invariant forall f :: f in instances ==> fresh(f)
      {
        var face := Register(i, borders[i]);
        queue := queue + [face];
        i := i + 1;
      }
    }

    /**
      One turn of the loop of lines 401-514: the face of highest priority popped and placed; on
      success it joins the processed faces and the queue shrinks.
    */
    method PlaceNext(queue: seq<PriorityFace>, borders: seq<seq<int>>, nPoints: nat, o: CorrectionOracles, ghost processed: set<int>)
      returns (rest: seq<PriorityFace>, r: Result<()>, ghost processed': set<int>)
      requires |queue| > 0 && |borders| == |planes| && |constraints| == nPoints && Valid()
      requires forall k :: 0 <= k < |queue| ==> queue[k] in instances
      requires QueueCovers(queue, borders, processed, |planes|)
      requires ConstrainedExactly(constraints, borders, processed, nPoints, |planes|)
      modifies this, set f | f in instances
      ensures instances == old(instances) && |planes| == |old(planes)|
      ensures forall f :: 0 <= f < |planes| ==> planes[f] == old(planes)[f].(d := planes[f].d)
      ensures r.Err? ==> r.message in {TooManyConstraints, DivisionByZero, MissingRow}
      ensures r.Ok? ==> |rest| < |queue| && |constraints| == nPoints && Valid()
      ensures r.Ok? ==> forall k :: 0 <= k < |rest| ==> rest[k] in instances
      ensures r.Ok? ==> QueueCovers(rest, borders, processed', |planes|)
      ensures r.Ok? ==> ConstrainedExactly(constraints, borders, processed', nPoints, |planes|)
    {
      var k := PopMax(queue);
      var face := queue[k];
      PopKeepsQueue(queue, k, borders, processed, |planes|);
      rest := queue[..k] + queue[k + 1..];
      processed' := processed + {face.id};
      r := ProcessFace(face, o);
      if r.Err? {
        AgreedD4Errors(old(planes), old(constraints), o, face.id, FixedPoints(face.pointsId, old(planes), old(constraints), o.rank), 0, None);
        return;
      }
      ShiftedMovesOnlyOffset(old(planes), old(constraints), o, face.id, face.pointsId);
      RecordKeepsConstraints(old(constraints), borders, processed, face.id, nPoints, |planes|);
    }

    /**
      `correctPlans` (lines 375-517): every face queued with the points of its borders, then, face by
      face in priority order, its offset moved through the points it shares with faces already
      placed.  Only offsets ever change; on success each point is constrained by exactly the faces
      whose borders contain it.
    */
    method CorrectPlans(borders: seq<seq<int>>, nPoints: nat, o: CorrectionOracles) returns (r: Result<()>)
      requires |borders| == |planes|
      requires forall f, k :: 0 <= f < |borders| && 0 <= k < |borders[f]| ==> 0 <= borders[f][k] < nPoints
      modifies this
      ensures |planes| == |old(planes)|
      ensures forall f :: 0 <= f < |planes| ==> planes[f] == old(planes)[f].(d := planes[f].d)
      ensures r.Err? ==> r.message in {TooManyConstraints, DivisionByZero, MissingRow}
      ensures r.Ok? ==> |constraints| == nPoints
      ensures r.Ok? ==> forall p, f :: 0 <= p < nPoints && 0 <= f < |planes| ==> (f in constraints[p] <==> p in borders[f])
    {
      var queue := Enqueue(borders, nPoints);
      forall f | 0 <= f < |planes|
        ensures Queued(queue, f)
      {
        assert queue[f].id == f;
      }
      ghost var processed: set<int> := {};
      while |queue| > 0
        invariant |planes| == |old(planes)| && |constraints| == nPoints && Valid()
        invariant forall f :: 0 <= f < |planes| ==> planes[f] == old(planes)[f].(d := planes[f].d)
        invariant forall f :: f in instances ==> fresh(f)
        invariant forall k :: 0 <= k < |queue| ==> queue[k] in instances
        invariant QueueCovers(queue, borders, processed, |planes|)
        invariant ConstrainedExactly(constraints, borders, processed, nPoints, |planes|)
        decreases |queue|
      {
        queue, r, processed := PlaceNext(queue, borders, nPoints, o, processed);
        if r.Err? {
          return;
        }
      }
      return Ok(());
    }
  }

  /** The heap's `pop`: a queued face of highest priority, as the comparator `b.priority - a.priority` orders them. */
  method PopMax(queue: seq<PriorityFace>) returns (k: nat)
    requires |queue| > 0
    ensures k < |queue| && forall j :: 0 <= j < |queue| ==> queue[j].priority <= queue[k].priority
  {
    k := 0;
    var i := 1;
    while i < |queue|
      invariant k < i <= |queue|
      invariant forall j :: 0 <= j < i ==> queue[j].priority <= queue[k].priority
    {
      if queue[i].priority > queue[k].priority {
        k := i;
      }
      i := i + 1;
    }
  }
}
