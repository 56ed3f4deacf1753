/**
  `isTopologicallyValid`: a sequence of checks over the four tables of the store, each run only
  when every earlier one passed.  The method below follows the source check by check and loop by
  loop, reads the tables without changing them, and is proved equal to the pure verdict
  `Verdict`; the lemmas at the end state what a positive verdict guarantees about the mesh.

  The controller's adjacency queries, its exact point computation and the exact matrix rank are
  not part of this model: they are the fields of `Oracles`.  The issue text is what the source
  logs next to its result.
*/
module ValidityCheck {
  import opened Wrappers
  import opened ExactGeometry
  import opened MeshStore

  /** The collaborators the check calls: the controller's queries and `ExactMatrix.rank`. */
  datatype Oracles = Oracles(
    adjacentFaces: int -> seq<int>,
    supportEdges: int -> seq<int>,
    coords: int -> Point,
    rank: seq<Plane> -> nat)

  // ----- decimal text for the issue messages -----

  function DigitChar(d: nat): char
    requires d < 10
  {
    "0123456789"[d]
  }

  function NatToString(n: nat): string
    decreases n
  {
    if n < 10 then [DigitChar(n)] else NatToString(n / 10) + [DigitChar(n % 10)]
  }

  function IntToString(n: int): string {
    if n < 0 then "-" + NatToString(-n) else NatToString(n)
  }

  // ----- checks 1 to 5: no border, no undefined slot -----

  /** Every half-edge has an opposite that is neither null nor itself. */
  ghost predicate NoBorders(he: HalfEdgeData)
    reads he
  {
    forall i :: 0 <= i < he.count ==> he.Opposite(i) != i && he.Opposite(i) != NULL
  }

  ghost predicate PointsDefined(pts: PointData)
    reads pts
  {
    forall i :: 0 <= i < pts.count ==> At(pts.heIndex, i) != NULL
  }

  ghost predicate HalfEdgesDefined(he: HalfEdgeData)
    reads he
  {
    forall i :: 0 <= i < he.count ==>
      && At(he.pIndex, i) != NULL && At(he.oppIndex, i) != NULL && At(he.nextIndex, i) != NULL
      && At(he.fIndex, i) != NULL && At(he.eIndex, i) != NULL
  }

  ghost predicate EdgesDefined(ed: EdgeData)
    reads ed
  {
    forall i :: 0 <= i < ed.count ==> At(ed.heIndex, i) != NULL
  }

  /** Face i has a plane, an exterior half-edge and a list of interior half-edges. */
  predicate FaceDefined(fd: FaceData, i: int)
    reads fd
  {
    0 <= i < |fd.planeEquation| && fd.planeEquation[i].Some? && At(fd.hExtIndex, i) != NULL && i < |fd.hIntIndices|
  }

  ghost predicate FacesDefined(fd: FaceData)
    reads fd
  {
    forall i :: 0 <= i < fd.count ==> FaceDefined(fd, i)
  }

  method CheckNoBorders(he: HalfEdgeData) returns (valid: bool)
    ensures valid == NoBorders(he)
  {
    valid := true;
    var i := 0;
    while i < he.count
      invariant 0 <= i && valid
      invariant forall k :: 0 <= k < i && k < he.count ==> he.Opposite(k) != k && he.Opposite(k) != NULL
    {
      var o := he.Opposite(i);
      valid := o != i && o != NULL;
      if !valid {
        return;
      }
      i := i + 1;
    }
  }

  method CheckPointsDefined(pts: PointData) returns (valid: bool)
    ensures valid == PointsDefined(pts)
  {
    valid := true;
    var i := 0;
    while i < pts.count
      invariant 0 <= i && valid
      invariant forall k :: 0 <= k < i && k < pts.count ==> At(pts.heIndex, k) != NULL
    {
      valid := At(pts.heIndex, i) != NULL;
      if !valid {
        return;
      }
      i := i + 1;
    }
  }

  method CheckHalfEdgesDefined(he: HalfEdgeData) returns (valid: bool)
    ensures valid == HalfEdgesDefined(he)
  {
    valid := true;
    var i := 0;
    while i < he.count
      invariant 0 <= i && valid
      invariant forall k :: 0 <= k < i && k < he.count ==>
        && At(he.pIndex, k) != NULL && At(he.oppIndex, k) != NULL && At(he.nextIndex, k) != NULL
        && At(he.fIndex, k) != NULL && At(he.eIndex, k) != NULL
    {
      var p, o, n, f, e := At(he.pIndex, i), At(he.oppIndex, i), At(he.nextIndex, i), At(he.fIndex, i), At(he.eIndex, i);
      valid := p != NULL && o != NULL && n != NULL && f != NULL && e != NULL;
      if !valid {
        return;
      }
      i := i + 1;
    }
  }

  method CheckEdgesDefined(ed: EdgeData) returns (valid: bool)
    ensures valid == EdgesDefined(ed)
  {
    valid := true;
    var i := 0;
    while i < ed.count
      invariant 0 <= i && valid
      invariant forall k :: 0 <= k < i && k < ed.count ==> At(ed.heIndex, k) != NULL
    {
      valid := At(ed.heIndex, i) != NULL;
      if !valid {
        return;
      }
      i := i + 1;
    }
  }

  method CheckFacesDefined(fd: FaceData) returns (valid: bool)
    ensures valid == FacesDefined(fd)
  {
    valid := true;
    var i := 0;
    while i < fd.count
      invariant 0 <= i && valid
      invariant forall k :: 0 <= k < i && k < fd.count ==> FaceDefined(fd, k)
    {
      valid := FaceDefined(fd, i);
      if !valid {
        return;
      }
      i := i + 1;
    }
  }

  // ----- the bounded do-while walks of checks 6 and 7 -----

  /**
    One do-while walk of the source from h: record h as visited, take one step, count it, and go
    on while the walk is not back at h0 and the shared counter j is still at most `bound`.  The
    result is the final counter and the visited set.
  */
  ghost function Walk(step: int -> int, h0: int, h: int, j: int, bound: int, visited: set<int>): (int, set<int>)
    decreases bound - j
  {
    if h0 != step(h) && j + 1 <= bound then Walk(step, h0, step(h), j + 1, bound, visited + {h})
    else (j + 1, visited + {h})
  }

  /**
    The interior rings of a face walked one after the other with the counter carried over; None
    as soon as one of them exceeds the bound.
  */
  ghost function Interiors(step: int -> int, starts: seq<int>, k: nat, j: int, bound: int, visited: set<int>): Option<(int, set<int>)>
    requires k <= |starts|
    decreases |starts| - k
  {
    if k == |starts| then Some((j, visited))
    else
      var r := Walk(step, starts[k], starts[k], j, bound, visited);
      if r.0 <= bound then Interiors(step, starts, k + 1, r.0, bound, r.1) else None
  }

  /** Every half-edge among the first n whose tag (face or origin) is i has been visited. */
  ghost predicate Covers(tags: seq<int>, n: int, i: int, visited: set<int>) {
    forall k :: 0 <= k < n && At(tags, k) == i ==> k in visited
  }

  method WalkLoop(he: HalfEdgeData, spin: bool, h0: int, j0: int, bound: int, visited0: set<int>) returns (j: int, visited: set<int>)
    ensures (j, visited) == Walk(if spin then SpinStep(he.oppIndex, he.nextIndex) else NextStep(he.nextIndex), h0, h0, j0, bound, visited0)
  {
    ghost var step := if spin then SpinStep(he.oppIndex, he.nextIndex) else NextStep(he.nextIndex);
    var h := h0;
    visited := visited0 + {h};
    h := if spin then he.Next(he.Opposite(h)) else he.Next(h);
    j := j0 + 1;
    while h0 != h && j <= bound
      invariant Walk(step, h0, h0, j0, bound, visited0) ==
        if h0 != h && j <= bound then Walk(step, h0, h, j, bound, visited) else (j, visited)
      decreases bound - j
    {
      visited := visited + {h};
      h := if spin then he.Next(he.Opposite(h)) else he.Next(h);
      j := j + 1;
    }
  }

  // ----- check 6: face borders -----

  datatype FaceStatus = FaceOk | ExteriorLoopIssue | InteriorLoopIssue | HalfEdgeNotVisited

  function FaceIssue(s: FaceStatus): string {
    match s
    case FaceOk => ""
    case ExteriorLoopIssue => "exterior loop issue"
    case InteriorLoopIssue => "interior loop issue"
    case HalfEdgeNotVisited => "half-edge not visited"
  }

  function InteriorStarts(fd: FaceData, i: int): seq<int>
    reads fd
  {
    if 0 <= i < |fd.hIntIndices| then fd.hIntIndices[i] else []
  }

  /**
    Face i: its exterior loop must close within nb_he steps, then each interior loop with the
    same counter, and every half-edge of face i must have been visited on the way.
  */
  ghost function FaceCheck(he: HalfEdgeData, fd: FaceData, i: int): FaceStatus
    reads he, fd
  {
    var ext := At(fd.hExtIndex, i);
    var r := Walk(NextStep(he.nextIndex), ext, ext, 0, he.count, {});
    if r.0 > he.count then ExteriorLoopIssue
    else
      match Interiors(NextStep(he.nextIndex), InteriorStarts(fd, i), 0, r.0, he.count, r.1)
      case None => InteriorLoopIssue
      case Some(r2) => if Covers(he.fIndex, he.count, i, r2.1) then FaceOk else HalfEdgeNotVisited
  }

  /** The status of the first face from i on that fails, or FaceOk. */
  ghost function FacesFrom(he: HalfEdgeData, fd: FaceData, i: nat): FaceStatus
    reads he, fd
    decreases fd.count - i
  {
    if i >= fd.count then FaceOk
    else if FaceCheck(he, fd, i) != FaceOk then FaceCheck(he, fd, i)
    else FacesFrom(he, fd, i + 1)
  }

  method CheckFace(he: HalfEdgeData, fd: FaceData, i: nat) returns (status: FaceStatus)
    requires i < fd.count && FacesDefined(fd)
    ensures status == FaceCheck(he, fd, i)
  {
    ghost var step := NextStep(he.nextIndex);
    var nb := he.count;
    var ext := At(fd.hExtIndex, i);
    assert FaceDefined(fd, i);
    var hi := fd.hIntIndices[i];
    var j, visited := WalkLoop(he, false, ext, 0, nb, {});
    if !(j <= nb) {
      return ExteriorLoopIssue;
    }
    ghost var j1, v1 := j, visited;
    var k := 0;
    while k < |hi|
      invariant 0 <= k <= |hi| && j <= nb
      invariant Interiors(step, hi, 0, j1, nb, v1) == Interiors(step, hi, k, j, nb, visited)
    {
      j, visited := WalkLoop(he, false, hi[k], j, nb, visited);
      if !(j <= nb) {
        return InteriorLoopIssue;
      }
      k := k + 1;
    }
    k := 0;
    while k < he.count
      invariant 0 <= k
      invariant forall t :: 0 <= t < k && t < he.count && At(he.fIndex, t) == i ==> t in visited
    {
      if he.Face(k) == i && k !in visited {
        return HalfEdgeNotVisited;
      }
      k := k + 1;
    }
    return FaceOk;
  }

  method CheckFaceBorders(he: HalfEdgeData, fd: FaceData) returns (status: FaceStatus)
    requires FacesDefined(fd)
    ensures status == FacesFrom(he, fd, 0)
  {
    status := FaceOk;
    var i := 0;
    while i < fd.count
      invariant 0 <= i && status == FaceOk
      invariant FacesFrom(he, fd, 0) == FacesFrom(he, fd, i)
    {
      status := CheckFace(he, fd, i);
      if status != FaceOk {
        return;
      }
      i := i + 1;
    }
  }

  // ----- check 7: point orbits -----

  /** The opposite-then-next orbit from the half-edge of point i closes and visits all its half-edges. */
  ghost predicate OrbitOk(he: HalfEdgeData, pts: PointData, i: int)
    reads he, pts
  {
    var s := At(pts.heIndex, i);
    var r := Walk(SpinStep(he.oppIndex, he.nextIndex), s, s, 0, he.count, {});
    r.0 <= he.count && Covers(he.pIndex, he.count, i, r.1)
  }

  ghost predicate OrbitsClosed(he: HalfEdgeData, pts: PointData)
    reads he, pts
  {
    forall i :: 0 <= i < pts.count ==> OrbitOk(he, pts, i)
  }

  method CheckOrbits(he: HalfEdgeData, pts: PointData) returns (valid: bool)
    ensures valid == OrbitsClosed(he, pts)
  {
    valid := true;
    var nb := he.count;
    var i := 0;
    while i < pts.count
      invariant 0 <= i && valid
      invariant forall t :: 0 <= t < i && t < pts.count ==> OrbitOk(he, pts, t)
    {
      var start := At(pts.heIndex, i);
      var j, visited := WalkLoop(he, true, start, 0, nb, {});
      valid := j <= nb;
      if !valid {
        assert !OrbitOk(he, pts, i);
        return;
      }
      var k := 0;
      while k < he.count
        invariant 0 <= k
        invariant forall t :: 0 <= t < k && t < he.count && At(he.pIndex, t) == i ==> t in visited
      {
        if he.Vertex(k) == i {
          valid := k in visited;
          if !valid {
            assert !Covers(he.pIndex, he.count, i, visited);
            assert !OrbitOk(he, pts, i);
            return;
          }
        }
        k := k + 1;
      }
      i := i + 1;
    }
  }

  // ----- check 8: opposite is an involution -----

  ghost predicate OppositeInvolutive(he: HalfEdgeData)
    reads he
  {
    forall i :: 0 <= i < he.count ==> he.Opposite(i) != i && he.Opposite(he.Opposite(i)) == i
  }

  method CheckInvolution(he: HalfEdgeData) returns (valid: bool)
    ensures valid == OppositeInvolutive(he)
  {
    valid := true;
    var i := 0;
    while i < he.count
      invariant 0 <= i && valid
      invariant forall k :: 0 <= k < i && k < he.count ==> he.Opposite(k) != k && he.Opposite(he.Opposite(k)) == k
    {
      var o := he.Opposite(i);
      var oo := he.Opposite(o);
      valid := i != o && i == oo;
      if !valid {
        return;
      }
      i := i + 1;
    }
  }

  // ----- check 9: rank of the planes around each point -----

  /**
    The TypeError thrown when a slot without a plane (`null`, a hole, or an index past the end)
    is spread with `[...]` or destructured into `[a, b, c, d]`.
  */
  const NotIterable := "TypeError: plane slot is not iterable"

  /** The plane in slot id, when the slot exists and holds one. */
  function Slot(slots: seq<Option<Plane>>, id: int): Option<Plane> {
    if 0 <= id < |slots| then slots[id] else None
  }

  /** Every listed slot holds a plane. */
  predicate AllSet(ids: seq<int>, slots: seq<Option<Plane>>) {
    forall k :: 0 <= k < |ids| ==> Slot(slots, ids[k]).Some?
  }

  /** The slot holds a plane and the point lies on it. */
  predicate OnSlot(slots: seq<Option<Plane>>, id: int, pt: Point) {
    Slot(slots, id).Some? && OnPlane(Slot(slots, id).value, pt)
  }

  /** The listed slots' planes in order; a slot without a plane makes the spread throw. */
  function PlanesOf(ids: seq<int>, slots: seq<Option<Plane>>): (r: Result<seq<Plane>>)
    ensures r.Ok? <==> AllSet(ids, slots)
    ensures r.Err? ==> r.message == NotIterable
    ensures r.Ok? ==> |r.value| == |ids| && forall k :: 0 <= k < |ids| ==> Slot(slots, ids[k]) == Some(r.value[k])
  {
    if AllSet(ids, slots) then Ok(seq(|ids|, k requires 0 <= k < |ids| => Slot(slots, ids[k]).value))
    else Err(NotIterable)
  }

  /** The planes stacked for point i: its faces' planes, then its support edges' planes. */
  function PointPlanes(fd: FaceData, ed: EdgeData, g: Oracles, i: int): Result<seq<Plane>>
    reads fd, ed
  {
    var faces := PlanesOf(g.adjacentFaces(i), fd.planeEquation);
    var support := PlanesOf(g.supportEdges(i), ed.supportPlanEquation);
    if faces.Err? then faces else if support.Err? then support else Ok(faces.value + support.value)
  }

  /** Point t's planes can all be read and have rank 3. */
  ghost predicate RankThree(fd: FaceData, ed: EdgeData, g: Oracles, t: int)
    reads fd, ed
  {
    PointPlanes(fd, ed, g, t).Ok? && g.rank(PointPlanes(fd, ed, g, t).value) == 3
  }

  /** From point i on: the first point whose planes cannot be read (a throw) or lack rank 3. */
  ghost function FirstRankFailure(pts: PointData, fd: FaceData, ed: EdgeData, g: Oracles, i: nat): Result<Option<(nat, nat)>>
    reads pts, fd, ed
    decreases pts.count - i
  {
    if i >= pts.count then Ok(None)
    else match PointPlanes(fd, ed, g, i)
      case Err(e) => Err(e)
      case Ok(ps) => if g.rank(ps) != 3 then Ok(Some((i, g.rank(ps)))) else FirstRankFailure(pts, fd, ed, g, i + 1)
  }

  /** The first failure is a real one, a throw comes from a slot without a plane, and every point before either has rank 3. */
  lemma {:induction false} FirstRankFailureIsFirst(pts: PointData, fd: FaceData, ed: EdgeData, g: Oracles, i: nat)
    ensures FirstRankFailure(pts, fd, ed, g, i) == Ok(None) <==>
      forall t :: i <= t < pts.count ==> RankThree(fd, ed, g, t)
    ensures FirstRankFailure(pts, fd, ed, g, i).Ok? && FirstRankFailure(pts, fd, ed, g, i).value.Some? ==>
      var (p, r) := FirstRankFailure(pts, fd, ed, g, i).value.value;
      && i <= p < pts.count && PointPlanes(fd, ed, g, p).Ok? && r != 3 && r == g.rank(PointPlanes(fd, ed, g, p).value)
      && forall t :: i <= t < p ==> RankThree(fd, ed, g, t)
    ensures FirstRankFailure(pts, fd, ed, g, i).Err? ==>
      && FirstRankFailure(pts, fd, ed, g, i).message == NotIterable
      && exists p :: i <= p < pts.count && PointPlanes(fd, ed, g, p).Err? && forall t :: i <= t < p ==> RankThree(fd, ed, g, t)
    decreases pts.count - i
  {
    if i < pts.count {
      if !RankThree(fd, ed, g, i) {
        assert !(forall t :: i <= t < pts.count ==> RankThree(fd, ed, g, t)) by {
          assert i <= i < pts.count;
        }
        if PointPlanes(fd, ed, g, i).Err? {
          assert i <= i < pts.count && PointPlanes(fd, ed, g, i).Err?;
        }
      } else {
        FirstRankFailureIsFirst(pts, fd, ed, g, i + 1);
        if FirstRankFailure(pts, fd, ed, g, i).Err? {
          var p :| i + 1 <= p < pts.count && PointPlanes(fd, ed, g, p).Err? && forall t :: i + 1 <= t < p ==> RankThree(fd, ed, g, t);
          assert i <= p < pts.count && PointPlanes(fd, ed, g, p).Err? && forall t :: i <= t < p ==> RankThree(fd, ed, g, t);
        }
      }
    }
  }

  /** The faces' planes then the support planes, spread and pushed one by one as the source does. */
  method CollectPlanes(fd: FaceData, ed: EdgeData, g: Oracles, i: int) returns (r: Result<seq<Plane>>)
    ensures r == PointPlanes(fd, ed, g, i)
  {
    var faces := g.adjacentFaces(i);
    var values: seq<Plane> := [];
    var k := 0;
    while k < |faces|
      invariant 0 <= k <= |faces| && |values| == k
      invariant forall t :: 0 <= t < k ==> Slot(fd.planeEquation, faces[t]) == Some(values[t])
    {
      var plane := Slot(fd.planeEquation, faces[k]);
      if plane.None? {
        assert !AllSet(faces, fd.planeEquation);
        return Err(NotIterable);
      }
      values := values + [plane.value];
      k := k + 1;
    }
    assert AllSet(faces, fd.planeEquation);
    assert PlanesOf(faces, fd.planeEquation).value == values;
    var supportEdges := g.supportEdges(i);
    var supportValues: seq<Plane> := [];
    k := 0;
    while k < |supportEdges|
      invariant 0 <= k <= |supportEdges| && |supportValues| == k
      invariant forall t :: 0 <= t < k ==> Slot(ed.supportPlanEquation, supportEdges[t]) == Some(supportValues[t])
    {
      var plane := Slot(ed.supportPlanEquation, supportEdges[k]);
      if plane.None? {
        assert !AllSet(supportEdges, ed.supportPlanEquation);
        return Err(NotIterable);
      }
      supportValues := supportValues + [plane.value];
      k := k + 1;
    }
    assert AllSet(supportEdges, ed.supportPlanEquation);
    assert PlanesOf(supportEdges, ed.supportPlanEquation).value == supportValues;
    return Ok(values + supportValues);
  }

  method RankPhase(pts: PointData, fd: FaceData, ed: EdgeData, g: Oracles) returns (failure: Result<Option<(nat, nat)>>)
    ensures failure == FirstRankFailure(pts, fd, ed, g, 0)
  {
    var i: nat := 0;
    while i < pts.count
      invariant FirstRankFailure(pts, fd, ed, g, 0) == FirstRankFailure(pts, fd, ed, g, i)
    {
      var values := CollectPlanes(fd, ed, g, i);
      if values.Err? {
        return Err(values.message);
      }
      var rank := g.rank(values.value);
      if rank != 3 {
        return Ok(Some((i, rank)));
      }
      i := i + 1;
    }
    return Ok(None);
  }

  /**
    The message of a rank failure as intended: the point and the rank it reached.  As written the
    message reads `rank`, a variable declared inside the loop, so building it throws instead.
  */
  function RankIssue(point: nat, rank: nat): string {
    "Adjacent faces does not intersect on point " + NatToString(point) + " (rank=" + NatToString(rank) + ")"
  }

  /** Line 240 as written: reaching the message after a failed rank check throws a ReferenceError. */
  function RankOutcomeAsWritten(failure: Option<(nat, nat)>): Result<bool> {
    match failure
    case None => Ok(true)
    case Some(_) => Err("ReferenceError: rank is not defined")
  }

  /** As intended: a failed rank check makes the verdict false with its message. */
  function RankOutcome(failure: Option<(nat, nat)>): (r: Result<bool>)
    ensures r.Ok?
    ensures r.value <==> failure.None?
  {
    match failure
    case None => Ok(true)
    case Some(_) => Ok(false)
  }

  /** The discrepancy: a point whose planes reach rank 2 makes the check throw instead of answer. */
  lemma {:induction false} RankFailureThrowsAsWritten()
    ensures RankOutcomeAsWritten(Some((0, 2))).Err?
    ensures RankOutcome(Some((0, 2))) == Ok(false)
    ensures RankIssue(0, 2) == "Adjacent faces does not intersect on point 0 (rank=2)"
  {
  }

  // ----- check 10: the computed point lies on every plane -----

  /**
    From position k on, the first id whose plane misses `pt`; a slot without a plane met first
    makes the destructuring throw.
  */
  function FirstMiss(ids: seq<int>, slots: seq<Option<Plane>>, pt: Point, k: nat): (r: Result<Option<int>>)
    requires k <= |ids|
    ensures r == Ok(None) <==> forall t :: k <= t < |ids| ==> OnSlot(slots, ids[t], pt)
    ensures r.Ok? && r.value.Some? ==> exists t :: (k <= t < |ids| && ids[t] == r.value.value
      && Slot(slots, ids[t]).Some? && !OnPlane(Slot(slots, ids[t]).value, pt)
      && forall u :: k <= u < t ==> OnSlot(slots, ids[u], pt))
    ensures r.Err? ==> r.message == NotIterable
    ensures r.Err? ==> exists t :: (k <= t < |ids| && Slot(slots, ids[t]).None?
      && forall u :: k <= u < t ==> OnSlot(slots, ids[u], pt))
    decreases |ids| - k
  {
    if k == |ids| then Ok(None)
    else match Slot(slots, ids[k])
      case None => Err(NotIterable)
      case Some(p) => if !OnPlane(p, pt) then Ok(Some(ids[k])) else FirstMiss(ids, slots, pt, k + 1)
  }

  const PlaneInFace := "plane in face"
  const SupportPlaneInEdge := "support plane in edge"

  /**
    As intended: the first face plane the point misses, else the first support plane it misses;
    a slot without a plane met before any miss throws.
  */
  function PointMiss(pt: Point, faces: seq<int>, facePlanes: seq<Option<Plane>>,
                     support: seq<int>, supportPlanes: seq<Option<Plane>>): (r: Result<Option<(string, int)>>)
    ensures r == Ok(None) <==>
      (forall t :: 0 <= t < |faces| ==> OnSlot(facePlanes, faces[t], pt))
      && (forall t :: 0 <= t < |support| ==> OnSlot(supportPlanes, support[t], pt))
    ensures r.Err? ==> r.message == NotIterable
    ensures r.Err? ==>
      (exists t :: 0 <= t < |faces| && Slot(facePlanes, faces[t]).None?)
      || (exists t :: 0 <= t < |support| && Slot(supportPlanes, support[t]).None?)
  {
    match FirstMiss(faces, facePlanes, pt, 0)
    case Err(e) => Err(e)
    case Ok(Some(f)) => Ok(Some((PlaneInFace, f)))
    case Ok(None) =>
      match FirstMiss(support, supportPlanes, pt, 0)
      case Err(e) => Err(e)
      case Ok(Some(e)) => Ok(Some((SupportPlaneInEdge, e)))
      case Ok(None) => Ok(None)
  }

  /**
    Lines 252-276 as written: the support-plane loop runs even after a face plane failed and
    overwrites `valid`, so when the point has support edges only they decide; each loop throws at
    a slot without a plane.
  */
  function PointMissAsWritten(pt: Point, faces: seq<int>, facePlanes: seq<Option<Plane>>,
                              support: seq<int>, supportPlanes: seq<Option<Plane>>): Result<Option<(string, int)>>
  {
    var faceScan := FirstMiss(faces, facePlanes, pt, 0);
    if faceScan.Err? then Err(faceScan.message)
    else if |support| > 0 then
      match FirstMiss(support, supportPlanes, pt, 0)
      case Err(e) => Err(e)
      case Ok(Some(e)) => Ok(Some((SupportPlaneInEdge, e)))
      case Ok(None) => Ok(None)
    else if faceScan.value.Some? then Ok(Some((PlaneInFace, faceScan.value.value)))
    else Ok(None)
  }

  /** The two loops of one point as written: a later support loop overwrites a failed face check. */
  method CheckPointAsWritten(pt: Point, faces: seq<int>, facePlanes: seq<Option<Plane>>,
                             support: seq<int>, supportPlanes: seq<Option<Plane>>) returns (r: Result<Option<(string, int)>>)
    ensures r == PointMissAsWritten(pt, faces, facePlanes, support, supportPlanes)
  {
    var valid := true;
    var kind, id := "", NULL;
    var j := 0;
    while j < |faces|
      invariant 0 <= j <= |faces| && valid
      invariant FirstMiss(faces, facePlanes, pt, 0) == FirstMiss(faces, facePlanes, pt, j)
    {
      var plane := Slot(facePlanes, faces[j]);
      if plane.None? {
        return Err(NotIterable);
      }
      valid := OnPlane(plane.value, pt);
      if !valid {
        kind, id := PlaneInFace, faces[j];
        break;
      }
      j := j + 1;
    }
    ghost var faceScan := FirstMiss(faces, facePlanes, pt, 0);
    assert faceScan == (if valid then Ok(None) else Ok(Some(id)));
    ghost var faceValid, faceKind, faceId := valid, kind, id;
    j := 0;
    while j < |support|
      invariant 0 <= j <= |support|
      invariant j > 0 ==> valid
      invariant j == 0 ==> valid == faceValid && kind == faceKind && id == faceId
      invariant FirstMiss(support, supportPlanes, pt, 0) == FirstMiss(support, supportPlanes, pt, j)
    {
      var plane := Slot(supportPlanes, support[j]);
      if plane.None? {
        return Err(NotIterable);
      }
      valid := OnPlane(plane.value, pt);
      if !valid {
        kind, id := SupportPlaneInEdge, support[j];
        break;
      }
      j := j + 1;
    }
    if valid {
      return Ok(None);
    }
    return Ok(Some((kind, id)));
  }

  /** One point as intended: the support planes are examined only when every face plane passed. */
  method CheckPoint(pt: Point, faces: seq<int>, facePlanes: seq<Option<Plane>>,
                    support: seq<int>, supportPlanes: seq<Option<Plane>>) returns (miss: Result<Option<(string, int)>>)
    ensures miss == PointMiss(pt, faces, facePlanes, support, supportPlanes)
  {
    var j := 0;
    while j < |faces|
      invariant 0 <= j <= |faces|
      invariant FirstMiss(faces, facePlanes, pt, 0) == FirstMiss(faces, facePlanes, pt, j)
    {
      var plane := Slot(facePlanes, faces[j]);
      if plane.None? {
        return Err(NotIterable);
      }
      if !OnPlane(plane.value, pt) {
        return Ok(Some((PlaneInFace, faces[j])));
      }
      j := j + 1;
    }
    j := 0;
    while j < |support|
      invariant 0 <= j <= |support|
      invariant FirstMiss(support, supportPlanes, pt, 0) == FirstMiss(support, supportPlanes, pt, j)
    {
      var plane := Slot(supportPlanes, support[j]);
      if plane.None? {
        return Err(NotIterable);
      }
      if !OnPlane(plane.value, pt) {
        return Ok(Some((SupportPlaneInEdge, support[j])));
      }
      j := j + 1;
    }
    return Ok(None);
  }

  /**
    The discrepancy: the point (0, 0, 0) misses the plane x = 1 of its face but lies on the
    support plane x = 0 of its edge; as written the point passes, as intended it fails on the face.
  */
  lemma {:induction false} PointCheckMasksFaceMiss()
    ensures PointMissAsWritten(Origin, [0], [Some(Plane(1.0, 0.0, 0.0, -1.0))], [0], [Some(Plane(1.0, 0.0, 0.0, 0.0))]) == Ok(None)
    ensures PointMiss(Origin, [0], [Some(Plane(1.0, 0.0, 0.0, -1.0))], [0], [Some(Plane(1.0, 0.0, 0.0, 0.0))]) == Ok(Some((PlaneInFace, 0)))
  {
    var faces, support := [Some(Plane(1.0, 0.0, 0.0, -1.0))], [Some(Plane(1.0, 0.0, 0.0, 0.0))];
    assert Eval(Slot(faces, 0).value, Origin) == -1.0;
    assert Eval(Slot(support, 0).value, Origin) == 0.0;
    assert FirstMiss([0], faces, Origin, 1) == Ok(None);
    assert FirstMiss([0], faces, Origin, 0) == Ok(Some(0));
    assert FirstMiss([0], support, Origin, 1) == Ok(None);
    assert FirstMiss([0], support, Origin, 0) == Ok(None);
  }

  /**
    A support edge whose slot holds no plane makes both the rank phase and the point check throw,
    rather than count as a plane every point lies on.
  */
  lemma {:induction false} UnsetSupportSlotThrows(pt: Point)
    ensures PlanesOf([0], [None]) == Err(NotIterable)
    ensures PointMiss(pt, [], [], [0], [None]) == Err(NotIterable)
    ensures PointMissAsWritten(pt, [], [], [0], [None]) == Err(NotIterable)
  {
    assert !AllSet([0], [None]) by {
      assert Slot([None], [0][0]).None?;
    }
    assert FirstMiss([], [], pt, 0) == Ok(None);
    assert FirstMiss([0], [None], pt, 0) == Err(NotIterable);
  }

  /** The first point from i on that misses one of its planes, with the plane's kind and id, or the throw. */
  ghost function FirstPlaneMiss(pts: PointData, fd: FaceData, ed: EdgeData, g: Oracles, i: nat): Result<Option<(nat, string, int)>>
    reads pts, fd, ed
    decreases pts.count - i
  {
    if i >= pts.count then Ok(None)
    else match PointMiss(g.coords(i), g.adjacentFaces(i), fd.planeEquation, g.supportEdges(i), ed.supportPlanEquation)
      case Err(e) => Err(e)
      case Ok(Some(m)) => Ok(Some((i, m.0, m.1)))
      case Ok(None) => FirstPlaneMiss(pts, fd, ed, g, i + 1)
  }

  method PointPhase(pts: PointData, fd: FaceData, ed: EdgeData, g: Oracles) returns (failure: Result<Option<(nat, string, int)>>)
    ensures failure == FirstPlaneMiss(pts, fd, ed, g, 0)
  {
    var i: nat := 0;
    while i < pts.count
      invariant FirstPlaneMiss(pts, fd, ed, g, 0) == FirstPlaneMiss(pts, fd, ed, g, i)
    {
      var miss := CheckPoint(g.coords(i), g.adjacentFaces(i), fd.planeEquation, g.supportEdges(i), ed.supportPlanEquation);
      if miss.Err? {
        return Err(miss.message);
      }
      if miss.value.Some? {
        return Ok(Some((i, miss.value.value.0, miss.value.value.1)));
      }
      i := i + 1;
    }
    return Ok(None);
  }

  function PointIssue(point: nat, kind: string, id: int): string {
    "Point " + NatToString(point) + " does not belong to " + kind + " " + IntToString(id)
  }

  /** When every point's planes could be read in the rank phase, the point phase reads them all again without throwing. */
  lemma {:induction false} PointPhaseNeverThrows(pts: PointData, fd: FaceData, ed: EdgeData, g: Oracles, i: nat)
    requires forall t :: i <= t < pts.count ==> PointPlanes(fd, ed, g, t).Ok?
    ensures FirstPlaneMiss(pts, fd, ed, g, i).Ok?
    decreases pts.count - i
  {
    if i < pts.count {
      assert PointPlanes(fd, ed, g, i).Ok?;
      var faces, support := g.adjacentFaces(i), g.supportEdges(i);
      assert AllSet(faces, fd.planeEquation) && AllSet(support, ed.supportPlanEquation);
      var m := PointMiss(g.coords(i), faces, fd.planeEquation, support, ed.supportPlanEquation);
      if m.Err? {
        assert false;
      }
      if m == Ok(None) {
        PointPhaseNeverThrows(pts, fd, ed, g, i + 1);
      }
    }
  }

  // ----- the whole check -----

  /** Checks 1 to 5: the first table with a border or an undefined slot. */
  ghost function TableIssue(pts: PointData, he: HalfEdgeData, ed: EdgeData, fd: FaceData): Option<string>
    reads pts, he, ed, fd
  {
    if !NoBorders(he) then Some("borders exists")
    else if !PointsDefined(pts) then Some("there are undifined point data")
    else if !HalfEdgesDefined(he) then Some("there are undifined half-edge data")
    else if !EdgesDefined(ed) then Some("there are undifined edge data")
    else if !FacesDefined(fd) then Some("there are undifined face data")
    else None
  }

  /** Checks 6 to 8: face borders, point orbits, opposite pairing. */
  ghost function ShapeIssue(pts: PointData, he: HalfEdgeData, fd: FaceData): Option<string>
    reads pts, he, fd
  {
    if FacesFrom(he, fd, 0) != FaceOk then Some("borders are not well defined : " + FaceIssue(FacesFrom(he, fd, 0)))
    else if !OrbitsClosed(he, pts) then Some("points' orbits are not well defined")
    else if !OppositeInvolutive(he) then Some("edges are not well defined")
    else None
  }

  /** Checks 9 and 10: the rank around each point, then each point against its planes, or the throw. */
  ghost function GeometryIssue(pts: PointData, ed: EdgeData, fd: FaceData, g: Oracles): Result<Option<string>>
    reads pts, ed, fd
  {
    match FirstRankFailure(pts, fd, ed, g, 0)
    case Err(e) => Err(e)
    case Ok(Some((p, r))) => Ok(Some(RankIssue(p, r)))
    case Ok(None) =>
      match FirstPlaneMiss(pts, fd, ed, g, 0)
      case Err(e) => Err(e)
      case Ok(Some((p, kind, id))) => Ok(Some(PointIssue(p, kind, id)))
      case Ok(None) => Ok(None)
  }

  /** The verdict and the logged issue, check by check in the source's order, or the thrown error. */
  ghost function Verdict(pts: PointData, he: HalfEdgeData, ed: EdgeData, fd: FaceData, g: Oracles): Result<(bool, string)>
    reads pts, he, ed, fd
  {
    if TableIssue(pts, he, ed, fd).Some? then Ok((false, TableIssue(pts, he, ed, fd).value))
    else if ShapeIssue(pts, he, fd).Some? then Ok((false, ShapeIssue(pts, he, fd).value))
    else match GeometryIssue(pts, ed, fd, g)
      case Err(e) => Err(e)
      case Ok(Some(issue)) => Ok((false, issue))
      case Ok(None) => Ok((true, ""))
  }

  method CheckTables(pts: PointData, he: HalfEdgeData, ed: EdgeData, fd: FaceData) returns (issue: Option<string>)
    ensures issue == TableIssue(pts, he, ed, fd)
  {
    var valid := CheckNoBorders(he);
    if !valid {
      return Some("borders exists");
    }
    valid := CheckPointsDefined(pts);
    if !valid {
      return Some("there are undifined point data");
    }
    valid := CheckHalfEdgesDefined(he);
    if !valid {
      return Some("there are undifined half-edge data");
    }
    valid := CheckEdgesDefined(ed);
    if !valid {
      return Some("there are undifined edge data");
    }
    valid := CheckFacesDefined(fd);
    if !valid {
      return Some("there are undifined face data");
    }
    return None;
  }

  method CheckShape(pts: PointData, he: HalfEdgeData, fd: FaceData) returns (issue: Option<string>)
    requires FacesDefined(fd)
    ensures issue == ShapeIssue(pts, he, fd)
  {
    var status := CheckFaceBorders(he, fd);
    if status != FaceOk {
      return Some("borders are not well defined : " + FaceIssue(status));
    }
    var valid := CheckOrbits(he, pts);
    if !valid {
      return Some("points' orbits are not well defined");
    }
    valid := CheckInvolution(he);
    if !valid {
      return Some("edges are not well defined");
    }
    return None;
  }

  method CheckGeometry(pts: PointData, ed: EdgeData, fd: FaceData, g: Oracles) returns (issue: Result<Option<string>>)
    ensures issue == GeometryIssue(pts, ed, fd, g)
  {
    var rankFailure := RankPhase(pts, fd, ed, g);
    if rankFailure.Err? {
      return Err(rankFailure.message);
    }
    if rankFailure.value.Some? {
      return Ok(Some(RankIssue(rankFailure.value.value.0, rankFailure.value.value.1)));
    }
    var planeMiss := PointPhase(pts, fd, ed, g);
    if planeMiss.Err? {
      return Err(planeMiss.message);
    }
    if planeMiss.value.Some? {
      return Ok(Some(PointIssue(planeMiss.value.value.0, planeMiss.value.value.1, planeMiss.value.value.2)));
    }
    return Ok(None);
  }

  /**
    `isTopologicallyValid`, with the rank failure answered by false and each point checked against
    all its planes.  A plane slot that holds no plane makes the call throw, which `Err` carries.
    It changes nothing in the four tables.
  */
  method IsTopologicallyValid(pts: PointData, he: HalfEdgeData, ed: EdgeData, fd: FaceData, g: Oracles)
    returns (r: Result<(bool, string)>)
    ensures r == Verdict(pts, he, ed, fd, g)
  {
    var found := CheckTables(pts, he, ed, fd);
    if found.None? {
      found := CheckShape(pts, he, fd);
    }
    if found.Some? {
      return Ok((false, found.value));
    }
    var geometry := CheckGeometry(pts, ed, fd, g);
    if geometry.Err? {
      return Err(geometry.message);
    }
    if geometry.value.Some? {
      return Ok((false, geometry.value.value));
    }
    return Ok((true, ""));
  }

  /**
    Checks 9 and 10 throw exactly when, before any point fails the rank check, some point names a
    face or support edge whose slot holds no plane; the throw is that TypeError.
  */
  lemma {:induction false} GeometryThrowsOnlyOnUnsetPlane(pts: PointData, ed: EdgeData, fd: FaceData, g: Oracles)
    ensures GeometryIssue(pts, ed, fd, g).Err? <==>
      exists p :: 0 <= p < pts.count && PointPlanes(fd, ed, g, p).Err? && forall t :: 0 <= t < p ==> RankThree(fd, ed, g, t)
    ensures GeometryIssue(pts, ed, fd, g).Err? ==> GeometryIssue(pts, ed, fd, g).message == NotIterable
  {
    FirstRankFailureIsFirst(pts, fd, ed, g, 0);
    var rf := FirstRankFailure(pts, fd, ed, g, 0);
    if rf == Ok(None) {
      forall t | 0 <= t < pts.count
        ensures PointPlanes(fd, ed, g, t).Ok?
      {
        assert RankThree(fd, ed, g, t);
      }
      PointPhaseNeverThrows(pts, fd, ed, g, 0);
    } else if rf.Ok? {
      var q := rf.value.value.0;
      forall p | 0 <= p < pts.count && PointPlanes(fd, ed, g, p).Err?
        ensures exists t :: 0 <= t < p && !RankThree(fd, ed, g, t)
      {
        assert p < q ==> RankThree(fd, ed, g, p);
        assert 0 <= q < p && !RankThree(fd, ed, g, q);
      }
    }
  }

  /** The whole check throws exactly when checks 1 to 8 pass and checks 9 and 10 throw. */
  lemma {:induction false} VerdictThrowsOnlyOnUnsetPlane(pts: PointData, he: HalfEdgeData, ed: EdgeData, fd: FaceData, g: Oracles)
    ensures Verdict(pts, he, ed, fd, g).Err? <==>
      && TableIssue(pts, he, ed, fd).None? && ShapeIssue(pts, he, fd).None?
      && exists p :: 0 <= p < pts.count && PointPlanes(fd, ed, g, p).Err? && forall t :: 0 <= t < p ==> RankThree(fd, ed, g, t)
    ensures Verdict(pts, he, ed, fd, g).Err? ==> Verdict(pts, he, ed, fd, g).message == NotIterable
  {
    GeometryThrowsOnlyOnUnsetPlane(pts, ed, fd, g);
  }

  // ----- what a positive verdict guarantees -----

  /** A walk that stays within the bound went round a closed cycle and visited only its elements. */
  lemma {:induction false} WalkStaysOnCycle(step: int -> int, h0: int, h: int, j: int, bound: int, visited: set<int>, t0: int)
    requires t0 <= j && h == Iterate(step, h0, j - t0)
    requires Walk(step, h0, h, j, bound, visited).0 <= bound
    ensures j < Walk(step, h0, h, j, bound, visited).0
    ensures Iterate(step, h0, Walk(step, h0, h, j, bound, visited).0 - t0) == h0
    ensures forall x :: x in Walk(step, h0, h, j, bound, visited).1 ==>
      x in visited || exists t :: 0 <= t < Walk(step, h0, h, j, bound, visited).0 - t0 && Iterate(step, h0, t) == x
    decreases bound - j
  {
    var r := Walk(step, h0, h, j, bound, visited);
    assert Iterate(step, h0, j + 1 - t0) == step(h);
    assert Iterate(step, h0, j - t0) == h;
    if h0 != step(h) && j + 1 <= bound {
      WalkStaysOnCycle(step, h0, step(h), j + 1, bound, visited + {h}, t0);
      assert r == Walk(step, h0, step(h), j + 1, bound, visited + {h});
    } else {
      assert r == (j + 1, visited + {h});
    }
    forall x | x in r.1 && x !in visited
      ensures exists t :: 0 <= t < r.0 - t0 && Iterate(step, h0, t) == x
    {
      if x == h {
        assert 0 <= j - t0 < r.0 - t0 && Iterate(step, h0, j - t0) == x;
      }
    }
    assert forall x :: x in Walk(step, h0, h, j, bound, visited).1 ==>
      x in visited || exists t :: 0 <= t < Walk(step, h0, h, j, bound, visited).0 - t0 && Iterate(step, h0, t) == x;
  }

  /** x lies on a closed cycle of `step` of length at most bound. */
  ghost predicate OnCycle(step: int -> int, x: int, bound: int) {
    exists L :: 1 <= L <= bound && Iterate(step, x, L) == x
  }

  /** Everything a bounded walk from h0 (counter starting at t0 >= 0) visits lies on a short closed cycle. */
  lemma {:induction false} WalkVisitsCycle(step: int -> int, h0: int, t0: int, bound: int, visited: set<int>)
    requires 0 <= t0 && Walk(step, h0, h0, t0, bound, visited).0 <= bound
    ensures forall x :: x in Walk(step, h0, h0, t0, bound, visited).1 ==> x in visited || OnCycle(step, x, bound)
  {
    var r := Walk(step, h0, h0, t0, bound, visited);
    WalkStaysOnCycle(step, h0, h0, t0, bound, visited, t0);
    var L := r.0 - t0;
    forall x | x in r.1 && x !in visited
      ensures OnCycle(step, x, bound)
    {
      var t :| 0 <= t < L && Iterate(step, h0, t) == x;
      IteratePeriodic(step, h0, L, t);
    }
  }

  lemma {:induction false} InteriorsVisitCycles(step: int -> int, starts: seq<int>, k: nat, j: int, bound: int, visited: set<int>)
    requires k <= |starts| && 0 <= j
    requires Interiors(step, starts, k, j, bound, visited).Some?
    ensures forall x :: x in Interiors(step, starts, k, j, bound, visited).value.1 ==> x in visited || OnCycle(step, x, bound)
    decreases |starts| - k
  {
    if k < |starts| {
      var r := Walk(step, starts[k], starts[k], j, bound, visited);
      WalkVisitsCycle(step, starts[k], j, bound, visited);
      WalkStaysOnCycle(step, starts[k], starts[k], j, bound, visited, j);
      InteriorsVisitCycles(step, starts, k + 1, r.0, bound, r.1);
    }
  }

  lemma {:induction false} FacesFromAllOk(he: HalfEdgeData, fd: FaceData, i: nat, f: int)
    requires FacesFrom(he, fd, i) == FaceOk && i <= f < fd.count
    ensures FaceCheck(he, fd, f) == FaceOk
    decreases fd.count - i
  {
    if i < f {
      FacesFromAllOk(he, fd, i + 1, f);
    }
  }

  /**
    After a positive verdict every half-edge of an existing face lies on a closed next-cycle of
    at most count half-edges, which is what `HalfEdgeData.previous` needs to stop.
  */
  lemma {:induction false} ValidFaceHalfEdgesOnCycles(pts: PointData, he: HalfEdgeData, ed: EdgeData, fd: FaceData, g: Oracles, k: int)
    requires Verdict(pts, he, ed, fd, g).Ok? && Verdict(pts, he, ed, fd, g).value.0
    requires 0 <= k < he.count && 0 <= he.Face(k) < fd.count
    ensures exists L :: 1 <= L <= he.count && he.Follow(k, L) == k
  {
    var f := he.Face(k);
    var step := NextStep(he.nextIndex);
    FacesFromAllOk(he, fd, 0, f);
    var ext := At(fd.hExtIndex, f);
    var r := Walk(step, ext, ext, 0, he.count, {});
    assert r.0 <= he.count;
    WalkVisitsCycle(step, ext, 0, he.count, {});
    WalkStaysOnCycle(step, ext, ext, 0, he.count, {}, 0);
    var r2 := Interiors(step, InteriorStarts(fd, f), 0, r.0, he.count, r.1);
    assert r2.Some? && Covers(he.fIndex, he.count, f, r2.value.1);
    InteriorsVisitCycles(step, InteriorStarts(fd, f), 0, r.0, he.count, r.1);
    assert k in r2.value.1;
    assert OnCycle(step, k, he.count);
    var L :| 1 <= L <= he.count && Iterate(step, k, L) == k;
    assert he.Follow(k, L) == k;
  }

  /** A point orbit that passed check 7 closes within count steps and meets every half-edge of the point. */
  lemma {:induction false} OrbitOkCloses(he: HalfEdgeData, pts: PointData, p: int, k: int)
    requires OrbitOk(he, pts, p)
    requires 0 <= k < he.count && he.Vertex(k) == p
    ensures exists L :: (1 <= L <= he.count && he.Spin(At(pts.heIndex, p), L) == At(pts.heIndex, p)
      && exists t :: 0 <= t < L && he.Spin(At(pts.heIndex, p), t) == k)
  {
    var s := At(pts.heIndex, p);
    var step := SpinStep(he.oppIndex, he.nextIndex);
    var r := Walk(step, s, s, 0, he.count, {});
    assert r.0 <= he.count && Covers(he.pIndex, he.count, p, r.1);
    WalkStaysOnCycle(step, s, s, 0, he.count, {}, 0);
    assert k in r.1;
    var t :| 0 <= t < r.0 && Iterate(step, s, t) == k;
    assert he.Spin(s, t) == k;
    assert he.Spin(s, r.0) == s;
  }

  /**
    After a positive verdict the orbit of every point closes within count steps and passes
    through every half-edge leaving that point, which is what `getAdjacentHalfEdges` needs.
  */
  lemma {:induction false} ValidPointOrbitsClosed(pts: PointData, he: HalfEdgeData, ed: EdgeData, fd: FaceData, g: Oracles, p: int, k: int)
    requires Verdict(pts, he, ed, fd, g).Ok? && Verdict(pts, he, ed, fd, g).value.0
    requires 0 <= p < pts.count && 0 <= k < he.count && he.Vertex(k) == p
    ensures exists L :: (1 <= L <= he.count && he.Spin(At(pts.heIndex, p), L) == At(pts.heIndex, p)
      && exists t :: 0 <= t < L && he.Spin(At(pts.heIndex, p), t) == k)
  {
    assert ShapeIssue(pts, he, fd).None?;
    assert OrbitOk(he, pts, p);
    OrbitOkCloses(he, pts, p, k);
  }

  /**
    After a positive verdict `opposite` pairs the half-edges: it is defined, never the identity,
    and undoes itself.
  */
  lemma {:induction false} ValidOppositeIsInvolution(pts: PointData, he: HalfEdgeData, ed: EdgeData, fd: FaceData, g: Oracles, i: int)
    requires Verdict(pts, he, ed, fd, g).Ok? && Verdict(pts, he, ed, fd, g).value.0
    requires 0 <= i < he.count
    ensures 0 <= he.Opposite(i) < |he.oppIndex|
    ensures he.Opposite(i) != i && he.Opposite(he.Opposite(i)) == i
  {
    assert OppositeInvolutive(he);
    assert he.Opposite(he.Opposite(i)) == i;
  }

  lemma {:induction false} FirstPlaneMissNone(pts: PointData, fd: FaceData, ed: EdgeData, g: Oracles, i: nat, t: int)
    requires FirstPlaneMiss(pts, fd, ed, g, i) == Ok(None) && i <= t < pts.count
    ensures PointMiss(g.coords(t), g.adjacentFaces(t), fd.planeEquation, g.supportEdges(t), ed.supportPlanEquation) == Ok(None)
    decreases pts.count - i
  {
    if i < t {
      FirstPlaneMissNone(pts, fd, ed, g, i + 1, t);
    }
  }

  /**
    After a positive verdict the planes around every point have rank 3 and the point the
    controller computes lies on each of them: its faces' planes and its support edges' planes.
  */
  lemma {:induction false} ValidPointsOnTheirPlanes(pts: PointData, he: HalfEdgeData, ed: EdgeData, fd: FaceData, g: Oracles, p: int)
    requires Verdict(pts, he, ed, fd, g).Ok? && Verdict(pts, he, ed, fd, g).value.0
    requires 0 <= p < pts.count
    ensures PointPlanes(fd, ed, g, p).Ok? && g.rank(PointPlanes(fd, ed, g, p).value) == 3
    ensures forall f :: f in g.adjacentFaces(p) ==> OnSlot(fd.planeEquation, f, g.coords(p))
    ensures forall e :: e in g.supportEdges(p) ==> OnSlot(ed.supportPlanEquation, e, g.coords(p))
  {
    assert GeometryIssue(pts, ed, fd, g) == Ok(None);
    FirstRankFailureIsFirst(pts, fd, ed, g, 0);
    assert RankThree(fd, ed, g, p);
    FirstPlaneMissNone(pts, fd, ed, g, 0, p);
    var faces, support := g.adjacentFaces(p), g.supportEdges(p);
    forall f | f in faces
      ensures OnSlot(fd.planeEquation, f, g.coords(p))
    {
      var t :| 0 <= t < |faces| && faces[t] == f;
    }
    forall e | e in support
      ensures OnSlot(ed.supportPlanEquation, e, g.coords(p))
    {
      var t :| 0 <= t < |support| && support[t] == e;
    }
  }
}
