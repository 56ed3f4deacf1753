/**
  Exact plane, vector and point arithmetic of the kernel.  The arbitrary-precision
  rationals of the source are Dafny's `real`, which is exact, so every identity below
  holds without rounding.
*/
module ExactGeometry {
  import opened Wrappers

  /** A plane a·x + b·y + c·z + d = 0. */
  datatype Plane = Plane(a: real, b: real, c: real, d: real)

  datatype Vector = Vector(x: real, y: real, z: real)

  datatype Point = Point(x: real, y: real, z: real)

  const Origin: Point := Point(0.0, 0.0, 0.0)

  /** The left-hand side a·x + b·y + c·z + d of the plane equation at `pt`. */
  function Eval(p: Plane, pt: Point): real {
    p.a * pt.x + p.b * pt.y + p.c * pt.z + p.d
  }

  /** The point lies on the plane, exactly. */
  predicate OnPlane(p: Plane, pt: Point) {
    Eval(p, pt) == 0.0
  }

  /** The normal part a·x + b·y + c·z of the plane equation. */
  function NormalDot(p: Plane, pt: Point): real {
    p.a * pt.x + p.b * pt.y + p.c * pt.z
  }

  /** `ExactMathPlane.add`: a new plane, the coefficientwise sum. */
  function Add(p: Plane, q: Plane): (r: Plane)
    ensures forall pt :: Eval(r, pt) == Eval(p, pt) + Eval(q, pt)
    ensures Sub(r, q) == p
  {
    Plane(p.a + q.a, p.b + q.b, p.c + q.c, p.d + q.d)
  }

  /** `ExactMathPlane.sub`: a new plane, the coefficientwise difference. */
  function Sub(p: Plane, q: Plane): (r: Plane)
    ensures forall pt :: Eval(r, pt) == Eval(p, pt) - Eval(q, pt)
  {
    Plane(p.a - q.a, p.b - q.b, p.c - q.c, p.d - q.d)
  }

  /** `ExactMathPlane.mul`: every coefficient times `x`. */
  function Mul(p: Plane, x: real): (r: Plane)
    ensures forall pt :: Eval(r, pt) == x * Eval(p, pt)
    ensures x != 0.0 ==> forall pt :: OnPlane(r, pt) <==> OnPlane(p, pt)
  {
    Plane(p.a * x, p.b * x, p.c * x, p.d * x)
  }

  /** `ExactMathPlane.div`: throws "Division by 0" for a zero divisor. */
  function Div(p: Plane, x: real): (r: Result<Plane>)
    ensures r.Err? <==> x == 0.0
    ensures r.Err? ==> r.message == "Division by 0"
    ensures r.Ok? ==> Mul(r.value, x) == p
  {
    if x == 0.0 then Err("Division by 0")
    else Ok(Plane(p.a / x, p.b / x, p.c / x, p.d / x))
  }

  /** `ExactMathPlane.toExactArray`: the coefficients in the order a, b, c, d. */
  function ToExactArray(p: Plane): (r: seq<real>)
    ensures |r| == 4 && Plane(r[0], r[1], r[2], r[3]) == p
  {
    [p.a, p.b, p.c, p.d]
  }

  /** The product of a coefficient with itself. */
  function Square(x: real): real {
    x * x
  }

  lemma {:induction false} SquareNonNegative(x: real)
    ensures Square(x) >= 0.0
  {
    if x < 0.0 {
      calc {
        Square(x);
      ==
        (-x) * (-x);
      >=
        0.0;
      }
    }
  }

  lemma {:induction false} SquarePositive(x: real)
    requires x != 0.0
    ensures Square(x) > 0.0
  {
    if x > 0.0 {
      calc {
        Square(x);
      ==
        x * x;
      >
        0.0;
      }
    } else {
      calc {
        Square(x);
      ==
        (-x) * (-x);
      >
        0.0;
      }
    }
  }

  /** `ExactVector.normeSquared`: x·x + y·y + z·z, never negative. */
  function NormSquared(v: Vector): (r: real)
    ensures r >= 0.0
  {
    SquareNonNegative(v.x);
    SquareNonNegative(v.y);
    SquareNonNegative(v.z);
    Square(v.x) + Square(v.y) + Square(v.z)
  }

  /** The squared norm vanishes exactly on the zero vector. */
  lemma {:induction false} NormSquaredZeroIff(v: Vector)
    ensures NormSquared(v) == 0.0 <==> v == Vector(0.0, 0.0, 0.0)
  {
    SquareNonNegative(v.x);
    SquareNonNegative(v.y);
    SquareNonNegative(v.z);
    if v.x != 0.0 {
      SquarePositive(v.x);
    } else if v.y != 0.0 {
      SquarePositive(v.y);
    } else if v.z != 0.0 {
      SquarePositive(v.z);
    }
  }

  /**
    `ExactMathPoint.squareDistance` as written: it is guarded by a comparison of the string that
    `typeof` yields with a class, which never holds, so the method falls off its end and returns
    undefined for every argument.
  */
  function SquareDistanceAsWritten(p: Point, q: Point): Option<real> {
    var guard := false;
    if guard then Some(SquareDistance(p, q)) else None
  }

  /** The discrepancy: for two distinct points the method as written yields no distance. */
  lemma {:induction false} SquareDistanceAsWrittenIsUndefined()
    ensures SquareDistanceAsWritten(Origin, Point(1.0, 0.0, 0.0)) == None
    ensures SquareDistance(Origin, Point(1.0, 0.0, 0.0)) == 1.0
  {
    var u := Vector(0.0 - 1.0, 0.0 - 0.0, 0.0 - 0.0);
    assert SquareDistance(Origin, Point(1.0, 0.0, 0.0)) == NormSquared(u);
    assert NormSquared(u) == Square(-1.0) + Square(0.0) + Square(0.0);
    assert Square(-1.0) == 1.0 && Square(0.0) == 0.0;
  }

  /** The gated body: the squared norm of the difference vector this − other. */
  function SquareDistance(p: Point, q: Point): (r: real)
    ensures r >= 0.0
  {
    NormSquared(Vector(p.x - q.x, p.y - q.y, p.z - q.z))
  }

  /** The squared distance is symmetric and vanishes exactly when the two points coincide. */
  lemma {:induction false} SquareDistanceMetric(p: Point, q: Point)
    ensures SquareDistance(p, q) == SquareDistance(q, p)
    ensures SquareDistance(p, q) == 0.0 <==> p == q
  {
    var u := Vector(p.x - q.x, p.y - q.y, p.z - q.z);
    var w := Vector(q.x - p.x, q.y - p.y, q.z - p.z);
    assert Square(u.x) == Square(w.x) by { assert u.x == -w.x; }
    assert Square(u.y) == Square(w.y) by { assert u.y == -w.y; }
    assert Square(u.z) == Square(w.z) by { assert u.z == -w.z; }
    NormSquaredZeroIff(u);
  }

  /**
    The exact matrix engine's `solve`: for rows (a, b, c) and right-hand sides d it yields the
    unique x with A·x = D, or None when the system has no unique solution.  The engine is not part
    of this model; `SolverSound` is all that callers rely on.
  */
  type Solver = (seq<seq<real>>, seq<real>) -> Option<seq<real>>

  ghost predicate Solves(A: seq<seq<real>>, D: seq<real>, x: seq<real>) {
    && |x| == 3
    && |A| == |D|
    && forall i :: 0 <= i < |A| ==> |A[i]| == 3 && A[i][0] * x[0] + A[i][1] * x[1] + A[i][2] * x[2] == D[i]
  }

  ghost predicate SolverSound(solve: Solver) {
    forall A, D :: solve(A, D).Some? ==> Solves(A, D, solve(A, D).value)
  }

  /** The rows (a, b, c) of the stacked planes. */
  function NormalRows(planes: seq<Plane>): (A: seq<seq<real>>)
    ensures |A| == |planes|
    ensures forall i :: 0 <= i < |planes| ==> A[i] == [planes[i].a, planes[i].b, planes[i].c]
  {
    seq(|planes|, i requires 0 <= i < |planes| => [planes[i].a, planes[i].b, planes[i].c])
  }

  /** The right-hand sides d of the stacked planes. */
  function Offsets(planes: seq<Plane>): (D: seq<real>)
    ensures |D| == |planes|
    ensures forall i :: 0 <= i < |planes| ==> D[i] == planes[i].d
  {
    seq(|planes|, i requires 0 <= i < |planes| => planes[i].d)
  }

  /**
    The stacked system is the planes' equations: the negated point solves A·x = D exactly when
    the point lies on every plane.
  */
  lemma {:induction false} RowsSolveIffOnPlanes(planes: seq<Plane>, pt: Point)
    ensures Solves(NormalRows(planes), Offsets(planes), [-pt.x, -pt.y, -pt.z]) <==>
      forall i :: 0 <= i < |planes| ==> OnPlane(planes[i], pt)
  {
    var A, D, x := NormalRows(planes), Offsets(planes), [-pt.x, -pt.y, -pt.z];
    forall i | 0 <= i < |planes|
      ensures A[i][0] * x[0] + A[i][1] * x[1] + A[i][2] * x[2] == D[i] <==> OnPlane(planes[i], pt)
    {
      var p := planes[i];
      assert A[i][0] * x[0] + A[i][1] * x[1] + A[i][2] * x[2] == -(p.a * pt.x + p.b * pt.y + p.c * pt.z);
    }
  }

  const UnderconstrainedPlan := "Underconstrained plan"
  const NoCommonPoint := "Planes doen't intersect in one same point"

  /**
    `ExactMathPlane.computeIntersectionPoint`, as intended: fewer than three planes are reported as
    underconstrained; otherwise A·x = D is solved with A the rows (a, b, c) and D the offsets d, and
    the point is the negated solution, since a·x + b·y + c·z = −d on every plane.
  */
  function ComputeIntersectionPoint(planes: seq<Plane>, solve: Solver): (r: Result<Point>)
    ensures |planes| < 3 ==> r == Err(UnderconstrainedPlan)
    ensures |planes| >= 3 && solve(NormalRows(planes), Offsets(planes)).None? ==> r == Err(NoCommonPoint)
    ensures r.Ok? ==> |planes| >= 3
  {
    if |planes| < 3 then Err(UnderconstrainedPlan)
    else
      match solve(NormalRows(planes), Offsets(planes))
      case None => Err(NoCommonPoint)
      case Some(x) =>
        if |x| == 3 then Ok(Point(-x[0], -x[1], -x[2])) else Err(NoCommonPoint)
  }

  /** Round trip: a point the resolver returns satisfies every plane it was computed from. */
  lemma {:induction false} IntersectionOnAllPlanes(planes: seq<Plane>, solve: Solver, pt: Point)
    requires SolverSound(solve)
    requires ComputeIntersectionPoint(planes, solve) == Ok(pt)
    ensures forall i :: 0 <= i < |planes| ==> OnPlane(planes[i], pt)
  {
    var x := solve(NormalRows(planes), Offsets(planes)).value;
    assert x == [-pt.x, -pt.y, -pt.z];
    RowsSolveIffOnPlanes(planes, pt);
  }

  /**
    `ExactMathPlane.computeIntersectionPoint` as written: for fewer than three planes it logs and
    then returns the undeclared `p`, and otherwise it constructs an `ExactMatrix` that the file never
    imports; both are ReferenceErrors, so every call throws.
  */
  function ComputeIntersectionPointAsWritten(planes: seq<Plane>): Result<Point> {
    if |planes| < 3 then Err("p is not defined") else Err("ExactMatrix is not defined")
  }

  /** The three planes x = 1, y = 1, z = 1 of the cube fixture meet at (1, 1, 1). */
  const CubeCorner: seq<Plane> := [Plane(1.0, 0.0, 0.0, -1.0), Plane(0.0, 1.0, 0.0, -1.0), Plane(0.0, 0.0, 1.0, -1.0)]

  /** The discrepancy: the as-written function throws on the cube corner that the intended one resolves. */
  lemma {:induction false} ComputeIntersectionPointAsWrittenThrows(solve: Solver)
    requires SolverSound(solve)
    requires solve(NormalRows(CubeCorner), Offsets(CubeCorner)).Some?
    ensures ComputeIntersectionPointAsWritten(CubeCorner).Err?
    ensures ComputeIntersectionPoint(CubeCorner, solve) == Ok(Point(1.0, 1.0, 1.0))
  {
    var A, D := NormalRows(CubeCorner), Offsets(CubeCorner);
    var x := solve(A, D).value;
    assert Solves(A, D, x);
    assert A[0] == [1.0, 0.0, 0.0] && A[1] == [0.0, 1.0, 0.0] && A[2] == [0.0, 0.0, 1.0];
    assert x[0] == -1.0 && x[1] == -1.0 && x[2] == -1.0;
  }
}
