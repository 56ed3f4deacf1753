/**
  `GeometryBuilder.build`: the raw point, half-edge, edge and face tables of one building are
  filled from its polygons' rings, the half-edges are paired with their opposites, edge ids are
  handed out, every point's number of adjacent faces is counted and every edge whose two faces
  do not pin it down gets a support plane; the four store objects are then made from the tables.

  Each step is a method of the builder that changes its tables and is proved equal to a pure
  stage function; the lemmas state what the stages guarantee.  The input is given as rings of
  point indices (the ids already shifted by the building's smallest point and face ids).  The
  exact matrix rank and `Utils.normalize` are the fields of `BuildOracles`.
*/
module GeometryBuilders {
  import opened Wrappers
  import opened ExactGeometry
  import opened MeshStore

  /** One polygon of the building: its face index, its plane and its rings of point indices. */
  datatype Polygon = Polygon(face: int, plane: Plane, exterior: seq<int>, interiors: seq<seq<int>>)

  /** The building as the builder reads it: the exact point coordinates, the face count, the polygons. */
  datatype Building = Building(coords: seq<Point>, nFaces: nat, polygons: seq<Polygon>)

  /** `ExactMatrix.rank` and `Utils.normalize`, which are not part of this model. */
  datatype BuildOracles = BuildOracles(rank: seq<Plane> -> nat, normalize: Vector -> Vector)

  /** The builder's `point_data`, `halfedge_data`, `edge_data` and `face_data` records. */
  datatype PointTables = PointTables(heIndex: seq<int>, nbAdjacentFaces: seq<int>, coords: seq<Point>, supportPlanEquation: seq<Option<Plane>>)
  datatype HalfEdgeTables = HalfEdgeTables(pIndex: seq<int>, oppIndex: seq<int>, nextIndex: seq<int>, fIndex: seq<int>, eIndex: seq<int>)
  datatype EdgeTables = EdgeTables(heIndex: seq<int>, supportPlanEquation: seq<Option<Plane>>, underconstrained: seq<bool>)
  datatype FaceTables = FaceTables(hExtIndex: seq<int>, hIntIndices: seq<seq<int>>, planeEquation: seq<Option<Plane>>)

  datatype Tables = Tables(points: PointTables, halfEdges: HalfEdgeTables, edges: EdgeTables, faces: FaceTables)

  /** The exterior rings name existing points and every polygon an existing face (how ids are shifted guarantees this). */
  ghost predicate WellFormed(b: Building) {
    forall k :: 0 <= k < |b.polygons| ==>
      && 0 <= b.polygons[k].face < b.nFaces
      && forall i :: 0 <= i < |b.polygons[k].exterior| ==> 0 <= b.polygons[k].exterior[i] < |b.coords|
  }

  /** The tables that `build` starts from: sized arrays of undefined slots and empty half-edge and edge lists. */
  function InitialTables(b: Building): Tables {
    Tables(
      PointTables(seq(|b.coords|, _ => NULL), seq(|b.coords|, _ => NULL), b.coords, seq(|b.coords|, _ => None)),
      HalfEdgeTables([], [], [], [], []),
      EdgeTables([], [], []),
      FaceTables(seq(b.nFaces, _ => NULL), seq(b.nFaces, _ => []), seq(b.nFaces, _ => None)))
  }

  // ----- rings -----

  /** The nexts of a ring of n half-edges numbered from nb: each one's successor, the last one's being the first. */
  function RingNext(nb: int, n: nat): seq<int> {
    seq(n, i requires 0 <= i < n => if i + 1 < n then nb + i + 1 else nb)
  }

  /** The three half-edge lists grown by one ring of the given face. */
  function WithRing(he: HalfEdgeTables, ring: seq<int>, face: int): HalfEdgeTables {
    he.(pIndex := he.pIndex + ring,
        nextIndex := he.nextIndex + RingNext(|he.pIndex|, |ring|),
        fIndex := he.fIndex + seq(|ring|, _ => face))
  }

  /** The three lists that the ring loops push to have one length. */
  ghost predicate Aligned(he: HalfEdgeTables) {
    |he.nextIndex| == |he.pIndex| && |he.fIndex| == |he.pIndex|
  }

  /** One step inside a ring laid out from nb: the k-th half-edge's next is the (k + 1)-th, or the first for the last. */
  lemma {:induction false} RingStep(next: seq<int>, nb: nat, n: nat, k: nat)
    requires nb + n <= |next| && next[nb..nb + n] == RingNext(nb, n) && k < n
    ensures At(next, nb + k) == nb + (if k + 1 < n then k + 1 else 0)
  {
    assert next[nb + k] == next[nb..nb + n][k];
  }

  /**
    A ring of n half-edges laid out from nb walks round: t <= n steps from its i-th half-edge lead
    to its (i + t)-th one, counted round the ring.
  */
  lemma {:induction false} RingWalk(next: seq<int>, nb: nat, n: nat, i: nat, t: nat)
    requires nb + n <= |next| && next[nb..nb + n] == RingNext(nb, n) && i < n && t <= n
    ensures Iterate(NextStep(next), nb + i, t) == nb + (if i + t < n then i + t else i + t - n)
    decreases t
  {
    if t > 0 {
      RingWalk(next, nb, n, i, t - 1);
      var k := if i + t - 1 < n then i + t - 1 else i + t - 1 - n;
      RingStep(next, nb, n, k);
      assert Iterate(NextStep(next), nb + i, t) == At(next, nb + k);
    }
  }

  /** A ring of n half-edges laid out from nb is a closed next-cycle of length exactly n. */
  lemma {:induction false} RingIsClosedCycle(next: seq<int>, nb: nat, n: nat, i: nat, h: int)
    requires nb + n <= |next| && next[nb..nb + n] == RingNext(nb, n) && i < n && h == nb + i
    ensures Iterate(NextStep(next), h, n) == h
    ensures forall t :: 0 < t < n ==> Iterate(NextStep(next), h, t) != h
  {
    RingWalk(next, nb, n, i, n);
    forall t | 0 < t < n
      ensures Iterate(NextStep(next), h, t) != h
    {
      RingWalk(next, nb, n, i, t);
    }
  }

  /** After a ring is appended its half-edges lie at the end with the ring's nexts and the face. */
  lemma {:induction false} WithRingLayout(he: HalfEdgeTables, ring: seq<int>, face: int)
    requires Aligned(he)
    ensures var r := WithRing(he, ring, face); var nb := |he.pIndex|;
      && Aligned(r) && |r.pIndex| == nb + |ring|
      && r.nextIndex[nb..nb + |ring|] == RingNext(nb, |ring|)
      && r.pIndex[..nb] == he.pIndex && r.nextIndex[..nb] == he.nextIndex && r.fIndex[..nb] == he.fIndex
      && (forall i :: 0 <= i < |ring| ==> r.pIndex[nb + i] == ring[i] && r.fIndex[nb + i] == face)
  {
  }

  /**
    A ring of n points laid out from nb is a closed `next`-cycle of length exactly n through its
    half-edges, each of which starts at its point of the ring and belongs to the ring's face.
  */
  lemma {:induction false} LaidRingIsClosedCycle(he: HalfEdgeTables, ring: seq<int>, face: int, i: nat)
    requires Aligned(he) && i < |ring|
    ensures var r := WithRing(he, ring, face); var h := |he.pIndex| + i;
      && Iterate(NextStep(r.nextIndex), h, |ring|) == h
      && (forall t :: 0 < t < |ring| ==> Iterate(NextStep(r.nextIndex), h, t) != h)
      && r.pIndex[h] == ring[i] && r.fIndex[h] == face
  {
    var r := WithRing(he, ring, face);
    var nb := |he.pIndex|;
    WithRingLayout(he, ring, face);
    RingIsClosedCycle(r.nextIndex, nb, |ring|, i, nb + i);
    assert r.pIndex[nb + i] == ring[i] && r.fIndex[nb + i] == face;
  }

  /** The heads written by the exterior loop, `heIndex[ring[i]] = [nb + i]` in ring order from position k. */
  function Heads(heIndex: seq<int>, ring: seq<int>, nb: int, k: nat): (r: seq<int>)
    requires k <= |ring| && forall i :: 0 <= i < |ring| ==> 0 <= ring[i] < |heIndex|
    ensures |r| == |heIndex|
    ensures forall p :: 0 <= p < |heIndex| && p in ring[k..] ==> nb + k <= r[p] < nb + |ring| && ring[r[p] - nb] == p
    ensures forall p :: 0 <= p < |heIndex| && p !in ring[k..] ==> r[p] == heIndex[p]
    decreases |ring| - k
  {
    if k == |ring| then heIndex
    else
      assert ring[k..] == [ring[k]] + ring[k + 1..];
      Heads(heIndex[ring[k] := nb + k], ring, nb, k + 1)
  }

  // ----- orientation of the exterior ring -----

  /** Some half-edge from position j on runs from o to t. */
  function HasDirected(he: HalfEdgeTables, o: int, t: int, j: nat): (r: bool)
    ensures r <==> exists k :: j <= k < |he.pIndex| && At(he.pIndex, k) == o && At(he.pIndex, At(he.nextIndex, k)) == t
    decreases |he.pIndex| - j
  {
    if j >= |he.pIndex| then false
    else (At(he.pIndex, j) == o && At(he.pIndex, At(he.nextIndex, j)) == t) || HasDirected(he, o, t, j + 1)
  }

  function Reverse<T>(s: seq<T>): (r: seq<T>)
    ensures |r| == |s| && forall i :: 0 <= i < |s| ==> r[i] == s[|s| - 1 - i]
  {
    seq(|s|, i requires 0 <= i < |s| => s[|s| - 1 - i])
  }

  lemma {:induction false} ReverseReverse<T>(s: seq<T>)
    ensures Reverse(Reverse(s)) == s
  {
  }

  /**
    Lines 75-88: going round the exterior from position i, the polygon is reversed whenever the
    current ring's i-th side already exists as a half-edge with the same direction; the walk goes
    on over the reversed ring. `polygon.reverse()` is taken to reverse the exterior positions
    only; the interior rings and the plane are left as they are.
  */
  ghost function Orient(he: HalfEdgeTables, ring: seq<int>, i: nat): seq<int>
    decreases |ring| - i
  {
    if i >= |ring| then ring
    else
      var n := |ring|;
      Orient(he, if HasDirected(he, ring[i], ring[(i + 1) % n], 0) then Reverse(ring) else ring, i + 1)
  }

  /** Orienting never changes a ring except by turning it round. */
  lemma {:induction false} OrientIsRingOrReverse(he: HalfEdgeTables, ring: seq<int>, i: nat)
    ensures Orient(he, ring, i) == ring || Orient(he, ring, i) == Reverse(ring)
    decreases |ring| - i
  {
    if i < |ring| {
      var n := |ring|;
      var next := if HasDirected(he, ring[i], ring[(i + 1) % n], 0) then Reverse(ring) else ring;
      OrientIsRingOrReverse(he, next, i + 1);
      ReverseReverse(ring);
    }
  }

  /** The k-th side of the ring, from its k-th point to the next one round the ring, is not a half-edge yet. */
  predicate SideIsFresh(he: HalfEdgeTables, ring: seq<int>, k: int)
    requires 0 <= k < |ring|
  {
    !HasDirected(he, ring[k], ring[(k + 1) % |ring|], 0)
  }

  /** A ring none of whose sides exists yet with its direction is kept as it is. */
  lemma {:induction false} OrientKeepsFreshRing(he: HalfEdgeTables, ring: seq<int>, i: nat)
    requires forall k :: 0 <= k < |ring| ==> SideIsFresh(he, ring, k)
    ensures Orient(he, ring, i) == ring
    decreases |ring| - i
  {
    if i < |ring| {
      assert SideIsFresh(he, ring, i);
      OrientKeepsFreshRing(he, ring, i + 1);
    }
  }

  // ----- one polygon -----

  /** The number of half-edges of the rings together. */
  function TotalLength(rings: seq<seq<int>>): nat
    decreases |rings|
  {
    if rings == [] then 0 else |rings[0]| + TotalLength(rings[1..])
  }

  /** The first half-edge of each ring when the rings are laid out one after the other from nb. */
  function RingStarts(nb: int, rings: seq<seq<int>>): (r: seq<int>)
    ensures |r| == |rings|
    decreases |rings|
  {
    if rings == [] then [] else [nb] + RingStarts(nb + |rings[0]|, rings[1..])
  }

  /** The k-th ring starts right after the half-edges of the rings before it. */
  lemma {:induction false} RingStartsOffsets(nb: int, rings: seq<seq<int>>)
    ensures forall k :: 0 <= k < |rings| ==> RingStarts(nb, rings)[k] == nb + TotalLength(rings[..k])
    decreases |rings|
  {
    if rings != [] {
      RingStartsOffsets(nb + |rings[0]|, rings[1..]);
      assert forall k :: 0 < k < |rings| ==> rings[..k][1..] == rings[1..][..k - 1];
      assert rings[..0] == [];
    }
  }

  function WithRings(he: HalfEdgeTables, rings: seq<seq<int>>, face: int): HalfEdgeTables
    decreases |rings|
  {
    if rings == [] then he else WithRings(WithRing(he, rings[0], face), rings[1..], face)
  }

  /** Laying out more rings only appends. */
  lemma {:induction false} WithRingsPrefix(he: HalfEdgeTables, rings: seq<seq<int>>, face: int)
    requires Aligned(he)
    ensures var r := WithRings(he, rings, face);
      && Aligned(r) && |he.pIndex| <= |r.pIndex|
      && r.pIndex[..|he.pIndex|] == he.pIndex && r.nextIndex[..|he.pIndex|] == he.nextIndex
      && r.fIndex[..|he.pIndex|] == he.fIndex
    decreases |rings|
  {
    if rings != [] {
      var he1 := WithRing(he, rings[0], face);
      WithRingLayout(he, rings[0], face);
      WithRingsPrefix(he1, rings[1..], face);
      var r := WithRings(he1, rings[1..], face);
      var nb := |he.pIndex|;
      assert r.pIndex[..nb] == r.pIndex[..|he1.pIndex|][..nb];
      assert r.nextIndex[..nb] == r.nextIndex[..|he1.pIndex|][..nb];
      assert r.fIndex[..nb] == r.fIndex[..|he1.pIndex|][..nb];
    }
  }

  /** The ring lies in the tables from position s: its points, its nexts round the ring, and its face. */
  ghost predicate LaidOut(r: HalfEdgeTables, s: nat, ring: seq<int>, face: int) {
    && Aligned(r) && s + |ring| <= |r.pIndex|
    && r.pIndex[s..s + |ring|] == ring
    && r.nextIndex[s..s + |ring|] == RingNext(s, |ring|)
    && r.fIndex[s..s + |ring|] == seq(|ring|, _ => face)
  }

  /** An appended ring is laid out from the first free position. */
  lemma {:induction false} WithRingLaidOut(he: HalfEdgeTables, ring: seq<int>, face: int)
    requires Aligned(he)
    ensures LaidOut(WithRing(he, ring, face), |he.pIndex|, ring, face)
  {
    var r, nb := WithRing(he, ring, face), |he.pIndex|;
    assert r.pIndex[nb..nb + |ring|] == ring;
    assert r.nextIndex[nb..nb + |ring|] == RingNext(nb, |ring|);
    assert r.fIndex[nb..nb + |ring|] == seq(|ring|, _ => face);
  }

  /** A slice inside a prefix reads the same from the prefix. */
  lemma {:induction false} InsidePrefix(a: seq<int>, b: seq<int>, lo: nat, hi: nat)
    requires |b| <= |a| && a[..|b|] == b && lo <= hi <= |b|
    ensures a[lo..hi] == b[lo..hi]
  {
    forall i | 0 <= i < hi - lo
      ensures a[lo..hi][i] == b[lo..hi][i]
    {
      assert a[lo + i] == a[..|b|][lo + i];
    }
  }

  /** Tables that only append to others keep every ring laid out in them. */
  lemma {:induction false} LaidOutKept(r: HalfEdgeTables, r2: HalfEdgeTables, s: nat, ring: seq<int>, face: int)
    requires LaidOut(r, s, ring, face) && Aligned(r2) && |r.pIndex| <= |r2.pIndex|
    requires r2.pIndex[..|r.pIndex|] == r.pIndex && r2.nextIndex[..|r.pIndex|] == r.nextIndex
    requires r2.fIndex[..|r.pIndex|] == r.fIndex
    ensures LaidOut(r2, s, ring, face)
  {
    InsidePrefix(r2.pIndex, r.pIndex, s, s + |ring|);
    InsidePrefix(r2.nextIndex, r.nextIndex, s, s + |ring|);
    InsidePrefix(r2.fIndex, r.fIndex, s, s + |ring|);
  }

  /** The first ring is laid out from the first free position, and the later rings leave it alone. */
  lemma {:induction false} FirstRingLayout(he: HalfEdgeTables, rings: seq<seq<int>>, face: int)
    requires Aligned(he) && |rings| > 0
    ensures LaidOut(WithRings(he, rings, face), |he.pIndex|, rings[0], face)
  {
    var he1 := WithRing(he, rings[0], face);
    assert WithRings(he, rings, face) == WithRings(he1, rings[1..], face);
    WithRingLaidOut(he, rings[0], face);
    WithRingsPrefix(he1, rings[1..], face);
    LaidOutKept(he1, WithRings(he1, rings[1..], face), |he.pIndex|, rings[0], face);
  }

  /** The k-th start is where `WithRings` lays out the k-th ring. */
  lemma {:induction false} RingStartsLayout(he: HalfEdgeTables, rings: seq<seq<int>>, face: int, k: nat)
    requires Aligned(he) && k < |rings|
    ensures var s := RingStarts(|he.pIndex|, rings)[k];
      |he.pIndex| <= s && LaidOut(WithRings(he, rings, face), s, rings[k], face)
    decreases k
  {
    var nb := |he.pIndex|;
    if k == 0 {
      FirstRingLayout(he, rings, face);
      assert RingStarts(nb, rings)[0] == nb;
    } else {
      var he1 := WithRing(he, rings[0], face);
      assert WithRings(he, rings, face) == WithRings(he1, rings[1..], face);
      assert Aligned(he1) && |he1.pIndex| == nb + |rings[0]|;
      RingStartsLayout(he1, rings[1..], face, k - 1);
      assert RingStarts(nb, rings) == [nb] + RingStarts(nb + |rings[0]|, rings[1..]);
      assert RingStarts(nb, rings)[k] == RingStarts(nb + |rings[0]|, rings[1..])[k - 1];
      assert rings[1..][k - 1] == rings[k];
    }
  }

  /**
    The k-th start is the first half-edge of the k-th interior ring in `WithRings`: it starts at the
    ring's first point, belongs to the face, and a walk of the ring's length returns to it.
  */
  lemma {:induction false} RingStartsLaidOut(he: HalfEdgeTables, rings: seq<seq<int>>, face: int, k: nat)
    requires Aligned(he) && k < |rings| && |rings[k]| > 0
    ensures var r := WithRings(he, rings, face); var s := RingStarts(|he.pIndex|, rings)[k];
      && Aligned(r) && 0 <= s < |r.pIndex| && r.pIndex[s] == rings[k][0] && r.fIndex[s] == face
      && Iterate(NextStep(r.nextIndex), s, |rings[k]|) == s
      && (forall t :: 0 < t < |rings[k]| ==> Iterate(NextStep(r.nextIndex), s, t) != s)
  {
    var r := WithRings(he, rings, face);
    var s := RingStarts(|he.pIndex|, rings)[k];
    var n := |rings[k]|;
    RingStartsLayout(he, rings, face, k);
    RingIsClosedCycle(r.nextIndex, s, n, 0, s);
    assert r.pIndex[s] == r.pIndex[s..s + n][0];
    assert r.fIndex[s] == r.fIndex[s..s + n][0];
  }

  /**
    One polygon of lines 61-116: its plane is stored, its exterior (oriented first) becomes a ring
    whose first half-edge is the face's exterior half-edge and whose half-edges become their
    origins' half-edge, and each interior becomes a ring whose first half-edge is listed.
  */
  ghost function PolygonStep(t: Tables, poly: Polygon): Tables
    requires 0 <= poly.face < |t.faces.hExtIndex| && |t.faces.hIntIndices| == |t.faces.planeEquation| == |t.faces.hExtIndex|
    requires forall i :: 0 <= i < |poly.exterior| ==> 0 <= poly.exterior[i] < |t.points.heIndex|
  {
    var ext := Orient(t.halfEdges, poly.exterior, 0);
    var nb := |t.halfEdges.pIndex|;
    var he1 := WithRing(t.halfEdges, ext, poly.face);
    var starts := RingStarts(|he1.pIndex|, poly.interiors);
    OrientIsRingOrReverse(t.halfEdges, poly.exterior, 0);
    t.(points := t.points.(heIndex := Heads(t.points.heIndex, ext, nb, 0)),
       halfEdges := WithRings(he1, poly.interiors, poly.face),
       faces := t.faces.(planeEquation := t.faces.planeEquation[poly.face := Some(poly.plane)],
                         hExtIndex := t.faces.hExtIndex[poly.face := nb],
                         hIntIndices := t.faces.hIntIndices[poly.face := starts]))
  }

  /** The tables sized as `build` sizes them: the face arrays to the face count, the point arrays to the point count. */
  ghost predicate Sized(t: Tables, b: Building) {
    && |t.faces.hExtIndex| == |t.faces.hIntIndices| == |t.faces.planeEquation| == b.nFaces
    && |t.points.heIndex| == |t.points.nbAdjacentFaces| == |t.points.coords| == |b.coords|
    && Aligned(t.halfEdges)
  }

  /** All polygons from the k-th on, in order. */
  ghost function PolygonsFrom(t: Tables, b: Building, k: nat): Tables
    requires WellFormed(b) && Sized(t, b)
    decreases |b.polygons| - k
  {
    if k >= |b.polygons| then t
    else
      var poly := b.polygons[k];
      var t1 := PolygonStep(t, poly);
      WithRingsPrefix(WithRing(t.halfEdges, Orient(t.halfEdges, poly.exterior, 0), poly.face), poly.interiors, poly.face);
      PolygonsFrom(t1, b, k + 1)
  }

  // ----- opposite pairing -----

  /** The point a half-edge points to: the origin of its next. */
  function Target(he: HalfEdgeTables, i: int): int {
    At(he.pIndex, At(he.nextIndex, i))
  }

  /** j runs from i's target to i's origin: the two are opposite sides of one edge. */
  predicate Twin(he: HalfEdgeTables, i: int, j: int) {
    j != i && At(he.pIndex, j) == Target(he, i) && Target(he, j) == At(he.pIndex, i)
  }

  /** The first twin of i among positions j .. i − 1 (lines 125-133). */
  function FirstTwin(he: HalfEdgeTables, i: int, j: nat): (r: Option<int>)
    ensures r.Some? ==> j <= r.value < i && Twin(he, i, r.value)
    ensures r.Some? ==> forall k :: j <= k < r.value ==> !Twin(he, i, k)
    ensures r.None? ==> forall k :: j <= k < i ==> !Twin(he, i, k)
    decreases i - j
  {
    if j >= i then None
    else if Twin(he, i, j) then Some(j)
    else FirstTwin(he, i, j + 1)
  }

  /**
    `oppIndex` after half-edges 0 .. i − 1 have been looked at: it starts as an array of undefined
    slots, and each half-edge with a twin below it is paired with the first one, both ways.
  */
  ghost function Pairing(he: HalfEdgeTables, i: nat): (r: seq<int>)
    requires i <= |he.pIndex|
    ensures |r| == |he.pIndex|
    ensures forall k :: 0 <= k < |r| ==> r[k] == NULL || 0 <= r[k] < |r|
    decreases i
  {
    if i == 0 then seq(|he.pIndex|, _ => NULL)
    else
      var r := Pairing(he, i - 1);
      match FirstTwin(he, i - 1, 0)
      case None => r
      case Some(j) => r[i - 1 := j][j := i - 1]
  }

  /** No two half-edges run the same way between the same two points: the manifold, consistently oriented case. */
  ghost predicate DistinctDirected(he: HalfEdgeTables) {
    forall a, b {:trigger Target(he, a), Target(he, b)} :: 0 <= a < b < |he.pIndex| ==> At(he.pIndex, a) != At(he.pIndex, b) || Target(he, a) != Target(he, b)
  }

  lemma {:induction false} TwinSymmetric(he: HalfEdgeTables, i: int, j: int)
    ensures Twin(he, i, j) <==> Twin(he, j, i)
  {
  }

  lemma {:induction false} TwinUnique(he: HalfEdgeTables, i: int, j1: int, j2: int)
    requires DistinctDirected(he) && 0 <= j1 < |he.pIndex| && 0 <= j2 < |he.pIndex|
    ensures Twin(he, i, j1) && Twin(he, i, j2) ==> j1 == j2
  {
    if j1 < j2 {
      assert At(he.pIndex, j1) != At(he.pIndex, j2) || Target(he, j1) != Target(he, j2);
    } else if j2 < j1 {
      assert At(he.pIndex, j2) != At(he.pIndex, j1) || Target(he, j2) != Target(he, j1);
    }
  }

  /** In the distinct case slot k holds its twin j as soon as both have been looked at, and is undefined before. */
  lemma {:induction false} PairingClosedForm(he: HalfEdgeTables, i: nat)
    requires DistinctDirected(he) && i <= |he.pIndex|
    ensures forall k, j :: 0 <= k < |he.pIndex| && 0 <= j < |he.pIndex| && Twin(he, k, j) ==>
      Pairing(he, i)[k] == if k < i && j < i then j else NULL
    ensures forall k :: 0 <= k < |he.pIndex| && (forall j :: 0 <= j < |he.pIndex| ==> !Twin(he, k, j)) ==>
      Pairing(he, i)[k] == NULL
    decreases i
  {
    if i > 0 {
      PairingClosedForm(he, i - 1);
      match FirstTwin(he, i - 1, 0)
      case None =>
        PairingStepAlone(he, i - 1, i);
      case Some(m) =>
        PairingStepTwin(he, i - 1, i, m);
    }
  }

  /** The step of the closed form when half-edge i − 1 has no twin below it. */
  lemma {:induction false} PairingStepAlone(he: HalfEdgeTables, p: nat, i: nat)
    requires DistinctDirected(he) && i == p + 1 <= |he.pIndex| && FirstTwin(he, p, 0).None?
    requires forall k, j :: 0 <= k < |he.pIndex| && 0 <= j < |he.pIndex| && Twin(he, k, j) ==>
      Pairing(he, p)[k] == if k < p && j < p then j else NULL
    requires forall k :: 0 <= k < |he.pIndex| && (forall j :: 0 <= j < |he.pIndex| ==> !Twin(he, k, j)) ==>
      Pairing(he, p)[k] == NULL
    ensures forall k, j :: 0 <= k < |he.pIndex| && 0 <= j < |he.pIndex| && Twin(he, k, j) ==>
      Pairing(he, i)[k] == if k < i && j < i then j else NULL
    ensures forall k :: 0 <= k < |he.pIndex| && (forall j :: 0 <= j < |he.pIndex| ==> !Twin(he, k, j)) ==>
      Pairing(he, i)[k] == NULL
  {
    var n := |he.pIndex|;
    forall k, j | 0 <= k < n && 0 <= j < n && Twin(he, k, j)
      ensures Pairing(he, i)[k] == if k < i && j < i then j else NULL
    {
      TwinSymmetric(he, k, j);
    }
  }

  /** The step of the closed form when half-edge i − 1 is paired with its first twin m below it. */
  lemma {:induction false} PairingStepTwin(he: HalfEdgeTables, p: nat, i: nat, m: int)
    requires DistinctDirected(he) && i == p + 1 <= |he.pIndex| && FirstTwin(he, p, 0) == Some(m)
    requires forall k, j :: 0 <= k < |he.pIndex| && 0 <= j < |he.pIndex| && Twin(he, k, j) ==>
      Pairing(he, p)[k] == if k < p && j < p then j else NULL
    requires forall k :: 0 <= k < |he.pIndex| && (forall j :: 0 <= j < |he.pIndex| ==> !Twin(he, k, j)) ==>
      Pairing(he, p)[k] == NULL
    ensures forall k, j :: 0 <= k < |he.pIndex| && 0 <= j < |he.pIndex| && Twin(he, k, j) ==>
      Pairing(he, i)[k] == if k < i && j < i then j else NULL
    ensures forall k :: 0 <= k < |he.pIndex| && (forall j :: 0 <= j < |he.pIndex| ==> !Twin(he, k, j)) ==>
      Pairing(he, i)[k] == NULL
  {
    var n := |he.pIndex|;
    var r := Pairing(he, p)[p := m][m := p];
    assert Pairing(he, i) == r;
    forall k, j | 0 <= k < n && 0 <= j < n && Twin(he, k, j)
      ensures r[k] == if k < i && j < i then j else NULL
    {
      TwinSymmetric(he, k, j);
      TwinSymmetric(he, p, m);
      if k == p {
        TwinUnique(he, k, j, m);
      } else if k == m {
        TwinUnique(he, k, j, p);
      } else if j == p {
        TwinUnique(he, p, k, m);
      }
    }
    forall k | 0 <= k < n && (forall j :: 0 <= j < n ==> !Twin(he, k, j))
      ensures r[k] == NULL
    {
      TwinSymmetric(he, p, m);
    }
  }

  /**
    When no two half-edges run the same way, the pairing is an involution: a half-edge's opposite
    is its twin, the twin's opposite is the half-edge, and only half-edges with no twin stay
    undefined.
  */
  lemma {:induction false} PairingIsSymmetric(he: HalfEdgeTables, k: int)
    requires DistinctDirected(he) && 0 <= k < |he.pIndex|
    ensures var opp := Pairing(he, |he.pIndex|);
      && (opp[k] == NULL <==> forall j :: 0 <= j < |he.pIndex| ==> !Twin(he, k, j))
      && (opp[k] != NULL ==> 0 <= opp[k] < |he.pIndex| && opp[k] != k && Twin(he, k, opp[k]) && opp[opp[k]] == k)
  {
    var n := |he.pIndex|;
    var opp := Pairing(he, n);
    PairingClosedForm(he, n);
    if exists j :: 0 <= j < n && Twin(he, k, j) {
      var j :| 0 <= j < n && Twin(he, k, j);
      TwinSymmetric(he, k, j);
      assert opp[k] == j && opp[j] == k;
    }
  }

  // ----- edge ids -----

  /**
    Lines 139-150 after half-edges 0 .. i − 1: eIndex starts at −1; a half-edge still at −1 opens
    a new edge whose half-edge it is, and it and its opposite get the new id.
  */
  ghost function Edges(opp: seq<int>, i: nat): (r: (seq<int>, seq<int>))
    requires i <= |opp|
    ensures |r.0| == |opp|
    decreases i
  {
    if i == 0 then (seq(|opp|, _ => -1), [])
    else
      var (e, hs) := Edges(opp, i - 1);
      if e[i - 1] != -1 then (e, hs)
      else
        var id := |hs|;
        var e1 := e[i - 1 := id];
        (if 0 <= opp[i - 1] < |opp| then e1[opp[i - 1] := id] else e1, hs + [i - 1])
  }

  /** opp pairs half-edges two by two, and undefined slots stand for a missing opposite. */
  ghost predicate Involution(opp: seq<int>) {
    forall k {:trigger opp[k]} :: 0 <= k < |opp| ==> opp[k] == NULL || (0 <= opp[k] < |opp| && opp[k] != k && opp[opp[k]] == k)
  }

  /** What holds after half-edges 0 .. i − 1 have been numbered. */
  ghost predicate EdgesInvariant(opp: seq<int>, i: nat, e: seq<int>, hs: seq<int>) {
    && |e| == |opp|
    && (forall k :: 0 <= k < |opp| ==> (e[k] != -1 <==> k < i || (opp[k] != NULL && opp[k] < i)))
    && (forall k :: 0 <= k < |opp| && e[k] != -1 ==> 0 <= e[k] < |hs|)
    && (forall k :: 0 <= k < |opp| && e[k] != -1 && 0 <= opp[k] < |opp| ==> e[opp[k]] == e[k])
    && (forall id :: 0 <= id < |hs| ==> 0 <= hs[id] < |e| && hs[id] < i && e[hs[id]] == id)
    && (forall a, b :: 0 <= a < b < |hs| ==> hs[a] < hs[b])
  }

  lemma {:induction false} EdgesKeepInvariant(opp: seq<int>, i: nat)
    requires Involution(opp) && i <= |opp|
    ensures EdgesInvariant(opp, i, Edges(opp, i).0, Edges(opp, i).1)
    decreases i
  {
    if i > 0 {
      EdgesKeepInvariant(opp, i - 1);
      if Edges(opp, i - 1).0[i - 1] == -1 {
        EdgesStepNew(opp, i);
      } else {
        EdgesStepKept(opp, i);
      }
    } else {
      forall k | 0 <= k < |opp|
        ensures !(opp[k] != NULL && opp[k] < 0)
      {
      }
    }
  }

  /** The step of the edge numbering at a half-edge not numbered yet: it opens a new edge, with its opposite. */
  lemma {:induction false} EdgesStepNew(opp: seq<int>, i: nat)
    requires Involution(opp) && 0 < i <= |opp|
    requires EdgesInvariant(opp, i - 1, Edges(opp, i - 1).0, Edges(opp, i - 1).1) && Edges(opp, i - 1).0[i - 1] == -1
    ensures EdgesInvariant(opp, i, Edges(opp, i).0, Edges(opp, i).1)
  {
    var (e, hs) := Edges(opp, i - 1);
    var h := i - 1;
    var id := |hs|;
    var o := opp[h];
    var e1 := e[h := id];
    var e2 := if 0 <= o < |opp| then e1[o := id] else e1;
    assert Edges(opp, i) == (e2, hs + [h]);
    if o != NULL {
      assert o > h;
      assert e[o] == -1;
    }
    forall k | 0 <= k < |opp|
      ensures e2[k] != -1 <==> k < i || (opp[k] != NULL && opp[k] < i)
    {
      if o != NULL && k == o {
        assert opp[k] == h;
      }
    }
    forall k | 0 <= k < |opp| && e2[k] != -1 && 0 <= opp[k] < |opp|
      ensures e2[opp[k]] == e2[k]
    {
      if k != h && k != o {
        assert opp[k] != h && opp[k] != o;
      }
    }
    var hs2 := hs + [h];
    forall id' | 0 <= id' < |hs2|
      ensures 0 <= hs2[id'] < |e2| && hs2[id'] < i && e2[hs2[id']] == id'
    {
      if id' < |hs| {
        assert hs2[id'] == hs[id'] && e[hs[id']] == id';
        assert hs[id'] != h;
        if o != NULL {
          assert hs[id'] != o;
        }
      }
    }
  }

  /** The step of the edge numbering at a half-edge already numbered through its opposite: nothing changes. */
  lemma {:induction false} EdgesStepKept(opp: seq<int>, i: nat)
    requires Involution(opp) && 0 < i <= |opp|
    requires EdgesInvariant(opp, i - 1, Edges(opp, i - 1).0, Edges(opp, i - 1).1) && Edges(opp, i - 1).0[i - 1] != -1
    ensures EdgesInvariant(opp, i, Edges(opp, i).0, Edges(opp, i).1)
  {
    var (e, hs) := Edges(opp, i - 1);
    var h := i - 1;
    assert Edges(opp, i) == (e, hs);
    forall k | 0 <= k < |opp|
      ensures e[k] != -1 <==> k < i || (opp[k] != NULL && opp[k] < i)
    {
      if opp[k] == h {
        assert opp[h] == k;
      }
    }
  }

  /**
    With opposites paired two by two, every half-edge gets an edge id, ids run from 0 without a
    gap in the order their first half-edge appears, an edge's half-edge carries its id, and a
    half-edge and its opposite share theirs.
  */
  lemma {:induction false} EdgeIdsConsistent(opp: seq<int>)
    requires Involution(opp)
    ensures var (e, hs) := Edges(opp, |opp|);
      && (forall k :: 0 <= k < |opp| ==> 0 <= e[k] < |hs|)
      && (forall k :: 0 <= k < |opp| && 0 <= opp[k] < |opp| ==> e[opp[k]] == e[k])
      && (forall id :: 0 <= id < |hs| ==> 0 <= hs[id] < |opp| && e[hs[id]] == id)
      && (forall a, b :: 0 <= a < b < |hs| ==> hs[a] < hs[b])
  {
    EdgesKeepInvariant(opp, |opp|);
  }

  // ----- faces around a point -----

  /** `Utils.mergeListsWithoutDoubles(faces, [f])`: f is appended unless it is already listed. */
  function MergeOne(faces: seq<int>, f: int): seq<int> {
    if f in faces then faces else faces + [f]
  }

  ghost predicate NoDuplicates(s: seq<int>) {
    forall a, b :: 0 <= a < b < |s| ==> s[a] != s[b]
  }

  /**
    The do-while of `__getAdjacentFaces` from h with j steps already taken: the face of h is
    merged in, the walk moves to next(opposite(h)), and it stops back at h0 or after 100 steps.
  */
  ghost function AdjacentWalk(he: HalfEdgeTables, h0: int, h: int, j: nat, faces: seq<int>): (nat, seq<int>)
    decreases 100 - j
  {
    var faces1 := MergeOne(faces, At(he.fIndex, h));
    var h1 := SpinStep(he.oppIndex, he.nextIndex)(h);
    if h1 != h0 && j + 1 < 100 then AdjacentWalk(he, h0, h1, j + 1, faces1) else (j + 1, faces1)
  }

  const UndefinedRead := "TypeError: Cannot read properties of undefined"

  /** `__getAdjacentFaces(v)`: reading the half-edge of a point that has none throws. */
  ghost function AdjacentFaces(heIndex: seq<int>, he: HalfEdgeTables, v: int): Result<seq<int>> {
    var h0 := At(heIndex, v);
    if h0 == NULL then Err(UndefinedRead) else Ok(AdjacentWalk(he, h0, h0, 0, []).1)
  }

  /** The face of the half-edge reached after t spins from h0. */
  ghost function FaceAfter(he: HalfEdgeTables, h0: int, t: nat): int {
    At(he.fIndex, Iterate(SpinStep(he.oppIndex, he.nextIndex), h0, t))
  }

  /** Face x is met at some spin count in [lo, hi). */
  ghost predicate MetBetween(he: HalfEdgeTables, h0: int, lo: nat, hi: nat, x: int) {
    exists t: nat :: lo <= t < hi && FaceAfter(he, h0, t) == x
  }

  /**
    The walk lists without repetition exactly the faces of the half-edges it passes, at most 100
    of them, and it stops early only when the orbit has closed.
  */
  lemma {:induction false} AdjacentWalkFaces(he: HalfEdgeTables, h0: int, h: int, j: nat, faces: seq<int>)
    requires j < 100 && h == Iterate(SpinStep(he.oppIndex, he.nextIndex), h0, j) && NoDuplicates(faces)
    ensures j < AdjacentWalk(he, h0, h, j, faces).0 <= 100
    ensures NoDuplicates(AdjacentWalk(he, h0, h, j, faces).1)
    ensures forall x :: x in AdjacentWalk(he, h0, h, j, faces).1 <==>
      x in faces || MetBetween(he, h0, j, AdjacentWalk(he, h0, h, j, faces).0, x)
    ensures AdjacentWalk(he, h0, h, j, faces).0 < 100 ==>
      Iterate(SpinStep(he.oppIndex, he.nextIndex), h0, AdjacentWalk(he, h0, h, j, faces).0) == h0
    decreases 100 - j
  {
    var step := SpinStep(he.oppIndex, he.nextIndex);
    var r := AdjacentWalk(he, h0, h, j, faces);
    var f := At(he.fIndex, h);
    assert FaceAfter(he, h0, j) == f;
    var faces1 := MergeOne(faces, f);
    assert NoDuplicates(faces1);
    assert Iterate(step, h0, j + 1) == step(h);
    if step(h) != h0 && j + 1 < 100 {
      AdjacentWalkFaces(he, h0, step(h), j + 1, faces1);
      assert r == AdjacentWalk(he, h0, step(h), j + 1, faces1);
      forall x
        ensures x in r.1 <==> x in faces || MetBetween(he, h0, j, r.0, x)
      {
        if MetBetween(he, h0, j, r.0, x) && x != f {
          var t: nat :| j <= t < r.0 && FaceAfter(he, h0, t) == x;
          assert MetBetween(he, h0, j + 1, r.0, x);
        }
        if x == f {
          assert MetBetween(he, h0, j, r.0, x);
        }
        if MetBetween(he, h0, j + 1, r.0, x) {
          var t: nat :| j + 1 <= t < r.0 && FaceAfter(he, h0, t) == x;
          assert MetBetween(he, h0, j, r.0, x);
        }
      }
    } else {
      assert r == (j + 1, faces1);
      forall x
        ensures x in r.1 <==> x in faces || MetBetween(he, h0, j, r.0, x)
      {
        if MetBetween(he, h0, j, r.0, x) {
          var t: nat :| j <= t < r.0 && FaceAfter(he, h0, t) == x;
          assert t == j;
        }
        if x == f {
          assert MetBetween(he, h0, j, r.0, x);
        }
      }
    }
  }

  /** The faces around a point with a half-edge: no repetition, at most 100, each met along its orbit and each met one listed. */
  lemma {:induction false} AdjacentFacesAlongOrbit(heIndex: seq<int>, he: HalfEdgeTables, v: int)
    requires At(heIndex, v) != NULL
    ensures AdjacentFaces(heIndex, he, v).Ok?
    ensures NoDuplicates(AdjacentFaces(heIndex, he, v).value)
    ensures 1 <= |AdjacentFaces(heIndex, he, v).value| <= 100
    ensures exists steps: nat ::
      && 1 <= steps <= 100
      && (steps < 100 ==> Iterate(SpinStep(he.oppIndex, he.nextIndex), At(heIndex, v), steps) == At(heIndex, v))
      && (forall x :: x in AdjacentFaces(heIndex, he, v).value <==> MetBetween(he, At(heIndex, v), 0, steps, x))
  {
    var h0 := At(heIndex, v);
    var r := AdjacentWalk(he, h0, h0, 0, []);
    AdjacentWalkFaces(he, h0, h0, 0, []);
    assert MetBetween(he, h0, 0, r.0, FaceAfter(he, h0, 0));
    assert r.1 != [];
    NoDuplicatesBound(r.1, r.0, he, h0);
    assert AdjacentFaces(heIndex, he, v).value == r.1;
    assert forall x :: x in r.1 <==> MetBetween(he, h0, 0, r.0, x);
    assert r.0 < 100 ==> Iterate(SpinStep(he.oppIndex, he.nextIndex), h0, r.0) == h0;
  }

  /** A repetition-free list of faces met in `steps` spins has at most `steps` entries. */
  lemma {:induction false} NoDuplicatesBound(faces: seq<int>, steps: nat, he: HalfEdgeTables, h0: int)
    requires NoDuplicates(faces)
    requires forall x :: x in faces ==> MetBetween(he, h0, 0, steps, x)
    ensures |faces| <= steps
  {
    var met := set t: nat | t < steps :: FaceAfter(he, h0, t);
    var listed := set k | 0 <= k < |faces| :: faces[k];
    forall x | x in listed
      ensures x in met
    {
      assert MetBetween(he, h0, 0, steps, x);
    }
    ImageSize(steps, he, h0);
    DistinctSize(faces);
    SubsetSize(listed, met);
  }

  lemma {:induction false} ImageSize(steps: nat, he: HalfEdgeTables, h0: int)
    ensures |set t: nat | t < steps :: FaceAfter(he, h0, t)| <= steps
    decreases steps
  {
    if steps > 0 {
      ImageSize(steps - 1, he, h0);
      var smaller := set t: nat | t < steps - 1 :: FaceAfter(he, h0, t);
      var all := set t: nat | t < steps :: FaceAfter(he, h0, t);
      var last := FaceAfter(he, h0, steps - 1);
      assert all <= smaller + {last};
      assert |smaller + {last}| <= |smaller| + 1;
      SubsetSize(all, smaller + {last});
    }
  }

  lemma {:induction false} DistinctSize(s: seq<int>)
    requires NoDuplicates(s)
    ensures |set k | 0 <= k < |s| :: s[k]| == |s|
    decreases |s|
  {
    if s != [] {
      var t := s[..|s| - 1];
      assert NoDuplicates(t);
      DistinctSize(t);
      var all := set k | 0 <= k < |s| :: s[k];
      var front := set k | 0 <= k < |t| :: t[k];
      assert all == front + {s[|s| - 1]};
      assert s[|s| - 1] !in front;
    }
  }

  lemma {:induction false} SubsetSize(a: set<int>, b: set<int>)
    requires a <= b
    ensures |a| <= |b|
  {
    assert b == a + (b - a);
  }

  // ----- arity -----

  /** A point with a half-edge has between 1 and 100 adjacent faces. */
  lemma {:induction false} AdjacentFacesCount(heIndex: seq<int>, he: HalfEdgeTables, v: int)
    requires At(heIndex, v) != NULL
    ensures AdjacentFaces(heIndex, he, v).Ok? && 1 <= |AdjacentFaces(heIndex, he, v).value| <= 100
  {
    AdjacentFacesAlongOrbit(heIndex, he, v);
  }

  /** Each point's list of adjacent faces in one state of the tables. */
  ghost function Adjacency(t: Tables): int -> Result<seq<int>> {
    p => AdjacentFaces(t.points.heIndex, t.halfEdges, p)
  }

  /**
    Lines 154-159 from point i on, with `adj` giving each point's adjacent faces: each point's count is
    stored, and the first point whose walk throws stops the loop.
  */
  ghost function ArityFrom(adj: int -> Result<seq<int>>, nb: seq<int>, i: nat): Result<seq<int>>
    decreases |nb| - i
  {
    if i >= |nb| then Ok(nb)
    else
      match adj(i)
      case Err(m) => Err(m)
      case Ok(faces) => ArityFrom(adj, nb[i := |faces|], i + 1)
  }

  /**
    The counting succeeds exactly when every point from i on has a half-edge; it then stores for each
    such point the length of its list of adjacent faces, between 1 and 100, and leaves the others.
  */
  lemma {:induction false} ArityCounts(t: Tables, nb: seq<int>, i: nat)
    requires i <= |nb|
    ensures ArityFrom(Adjacency(t), nb, i).Ok? <==> forall p :: i <= p < |nb| ==> At(t.points.heIndex, p) != NULL
    ensures ArityFrom(Adjacency(t), nb, i).Err? ==> ArityFrom(Adjacency(t), nb, i).message == UndefinedRead
    ensures ArityFrom(Adjacency(t), nb, i).Ok? ==>
      && |ArityFrom(Adjacency(t), nb, i).value| == |nb|
      && ArityFrom(Adjacency(t), nb, i).value[..i] == nb[..i]
      && forall p :: i <= p < |nb| ==>
           ArityFrom(Adjacency(t), nb, i).value[p] == |AdjacentFaces(t.points.heIndex, t.halfEdges, p).value|
           && 1 <= ArityFrom(Adjacency(t), nb, i).value[p] <= 100
  {
    var adj := Adjacency(t);
    ArityFails(adj, nb, i);
    forall p | i <= p < |nb|
      ensures adj(p).Ok? <==> At(t.points.heIndex, p) != NULL
      ensures adj(p).Err? ==> adj(p).message == UndefinedRead
      ensures adj(p).Ok? ==> 1 <= |adj(p).value| <= 100
    {
      AdjacencyAt(t, p);
    }
    if ArityFrom(adj, nb, i).Ok? {
      ArityValues(adj, nb, i);
    } else {
      var p :| i <= p < |nb| && adj(p) == Err(ArityFrom(adj, nb, i).message);
    }
  }

  /** A point's walk throws, with an undefined read, exactly when it has no half-edge, and otherwise lists 1 to 100 faces. */
  lemma {:induction false} AdjacencyAt(t: Tables, p: int)
    ensures Adjacency(t)(p).Ok? <==> At(t.points.heIndex, p) != NULL
    ensures Adjacency(t)(p).Err? ==> Adjacency(t)(p).message == UndefinedRead
    ensures Adjacency(t)(p).Ok? ==> 1 <= |Adjacency(t)(p).value| <= 100
  {
    if At(t.points.heIndex, p) != NULL {
      AdjacentFacesCount(t.points.heIndex, t.halfEdges, p);
    }
  }

  /** The counting fails exactly when some point's walk from i on throws, and with that point's error. */
  lemma {:induction false} ArityFails(adj: int -> Result<seq<int>>, nb: seq<int>, i: nat)
    requires i <= |nb|
    ensures ArityFrom(adj, nb, i).Ok? <==> forall p :: i <= p < |nb| ==> adj(p).Ok?
    ensures ArityFrom(adj, nb, i).Err? ==> exists p :: i <= p < |nb| && adj(p) == Err(ArityFrom(adj, nb, i).message)
    decreases |nb| - i
  {
    if i < |nb| && adj(i).Ok? {
      ArityFails(adj, nb[i := |adj(i).value|], i + 1);
    }
  }

  /** When every point's walk from i on succeeds, each point holds the length of its list. */
  lemma {:induction false} ArityValues(adj: int -> Result<seq<int>>, nb: seq<int>, i: nat)
    requires i <= |nb|
    requires forall p :: i <= p < |nb| ==> adj(p).Ok?
    ensures ArityFrom(adj, nb, i).Ok?
    ensures |ArityFrom(adj, nb, i).value| == |nb|
    ensures ArityFrom(adj, nb, i).value[..i] == nb[..i]
    ensures forall p :: i <= p < |nb| ==> ArityFrom(adj, nb, i).value[p] == |adj(p).value|
    decreases |nb| - i
  {
    if i < |nb| {
      var nb1 := nb[i := |adj(i).value|];
      ArityValues(adj, nb1, i + 1);
      assert ArityFrom(adj, nb, i) == ArityFrom(adj, nb1, i + 1);
      var r := ArityFrom(adj, nb1, i + 1).value;
      assert r[..i + 1][..i] == r[..i];
      assert nb1[..i + 1][..i] == nb[..i];
    }
  }

  // ----- underconstrained edges -----

  /** The stored plane of a face; none for a face index out of range or a face without a polygon. */
  function PlaneOf(planes: seq<Option<Plane>>, f: int): Option<Plane> {
    if 0 <= f < |planes| then planes[f] else None
  }

  /** `Utils.getCommonElts(f1, f2)`: the elements of f1 that f2 lists too, in f1's order. */
  function CommonFaces(f1: seq<int>, f2: seq<int>): (r: seq<int>)
    ensures forall x :: x in r <==> x in f1 && x in f2
    ensures |r| <= |f1|
  {
    if f1 == [] then []
    else (if f1[0] in f2 then [f1[0]] else []) + CommonFaces(f1[1..], f2)
  }

  function Cross(u: Vector, v: Vector): Vector {
    Vector(u.y * v.z - u.z * v.y, u.z * v.x - u.x * v.z, u.x * v.y - u.y * v.x)
  }

  function Dot(u: Vector, v: Vector): real {
    u.x * v.x + u.y * v.y + u.z * v.z
  }

  function Scale(c: real, v: Vector): Vector {
    Vector(c * v.x, c * v.y, c * v.z)
  }

  function Normal(p: Plane): Vector {
    Vector(p.a, p.b, p.c)
  }

  function Between(p1: Point, p2: Point): Vector {
    Vector(p2.x - p1.x, p2.y - p1.y, p2.z - p1.z)
  }

  /**
    Lines 234-244: the support plane of an edge from p1 to p2 lying in the face plane n: its normal
    is the normalised cross product of n's normal with the edge vector and it passes through p1.
  */
  function SupportPlane(n: Plane, p1: Point, p2: Point, normalize: Vector -> Vector): Plane {
    var ns := normalize(Cross(Normal(n), Between(p1, p2)));
    Plane(ns.x, ns.y, ns.z, -(ns.x * p1.x + ns.y * p1.y + ns.z * p1.z))
  }

  /** A cross product is orthogonal to both its factors. */
  lemma {:induction false} CrossOrthogonal(u: Vector, v: Vector)
    ensures Dot(Cross(u, v), u) == 0.0 && Dot(Cross(u, v), v) == 0.0
  {
    var w := Cross(u, v);
    calc {
      Dot(w, v);
    ==
      (u.y * v.z - u.z * v.y) * v.x + (u.z * v.x - u.x * v.z) * v.y + (u.x * v.y - u.y * v.x) * v.z;
    ==
      u.y * v.z * v.x - u.z * v.y * v.x + u.z * v.x * v.y - u.x * v.z * v.y + u.x * v.y * v.z - u.y * v.x * v.z;
    ==
      0.0;
    }
    calc {
      Dot(w, u);
    ==
      (u.y * v.z - u.z * v.y) * u.x + (u.z * v.x - u.x * v.z) * u.y + (u.x * v.y - u.y * v.x) * u.z;
    ==
      u.y * v.z * u.x - u.z * v.y * u.x + u.z * v.x * u.y - u.x * v.z * u.y + u.x * v.y * u.z - u.y * v.x * u.z;
    ==
      0.0;
    }
  }

  /**
    When `normalize` only rescales, the support plane contains both ends of the edge and stands
    perpendicular to the face plane it was computed from.
  */
  lemma {:induction false} SupportPlaneThroughEdge(n: Plane, p1: Point, p2: Point, normalize: Vector -> Vector, c: real)
    requires normalize(Cross(Normal(n), Between(p1, p2))) == Scale(c, Cross(Normal(n), Between(p1, p2)))
    ensures OnPlane(SupportPlane(n, p1, p2, normalize), p1)
    ensures OnPlane(SupportPlane(n, p1, p2, normalize), p2)
    ensures Dot(Normal(SupportPlane(n, p1, p2, normalize)), Normal(n)) == 0.0
  {
    var w := Cross(Normal(n), Between(p1, p2));
    var ns := Scale(c, w);
    var sp := SupportPlane(n, p1, p2, normalize);
    CrossOrthogonal(Normal(n), Between(p1, p2));
    var v := Between(p1, p2);
    calc {
      Eval(sp, p2);
    ==
      ns.x * p2.x + ns.y * p2.y + ns.z * p2.z - (ns.x * p1.x + ns.y * p1.y + ns.z * p1.z);
    ==
      ns.x * (p2.x - p1.x) + ns.y * (p2.y - p1.y) + ns.z * (p2.z - p1.z);
    ==
      Dot(ns, v);
    ==
      c * w.x * v.x + c * w.y * v.y + c * w.z * v.z;
    ==
      c * Dot(w, v);
    ==
      0.0;
    }
    calc {
      Dot(Normal(sp), Normal(n));
    ==
      c * w.x * n.a + c * w.y * n.b + c * w.z * n.c;
    ==
      c * Dot(w, Normal(n));
    ==
      0.0;
    }
  }

  /** How the edge's two faces constrain it: pinned by two independent planes, or loose with a support plane. */
  datatype Constraint = Pinned | Loose(support: Plane)

  const NotIterable := "TypeError: undefined is not iterable"

  /**
    Lines 214-254 for edge i: the faces common to its two ends; the planes of the first two; a rank
    below 2 makes the edge loose with the support plane computed in the first face's plane.
  */
  ghost function EdgeConstraint(pt: PointTables, he: HalfEdgeTables, edgeHe: seq<int>, planes: seq<Option<Plane>>, g: BuildOracles, i: int): Result<Constraint> {
    var h1 := At(edgeHe, i);
    var h2 := At(he.oppIndex, h1);
    var v1 := At(he.pIndex, h1);
    var v2 := At(he.pIndex, h2);
    match AdjacentFaces(pt.heIndex, he, v1)
    case Err(m) => Err(m)
    case Ok(faces1) =>
      match AdjacentFaces(pt.heIndex, he, v2)
      case Err(m) => Err(m)
      case Ok(faces2) =>
        var faces := CommonFaces(faces1, faces2);
        var eq1 := if |faces| > 0 then PlaneOf(planes, faces[0]) else None;
        var eq2 := if |faces| > 1 then PlaneOf(planes, faces[1]) else None;
        if eq1.None? || eq2.None? then Err(NotIterable)
        else if g.rank([eq1.value, eq2.value]) >= 2 then Ok(Pinned)
        else if !(0 <= v1 < |pt.coords| && 0 <= v2 < |pt.coords|) then Err(UndefinedRead)
        else Ok(Loose(SupportPlane(eq1.value, pt.coords[v1], pt.coords[v2], g.normalize)))
  }

  /** Every edge classified against one state of the tables. */
  ghost function Classifier(t: Tables, g: BuildOracles): int -> Result<Constraint> {
    i => EdgeConstraint(t.points, t.halfEdges, t.edges.heIndex, t.faces.planeEquation, g, i)
  }

  /**
    An edge whose two ends share fewer than two faces, or whose first two shared faces lack a plane,
    cannot be classified; a loose edge's support plane contains both its ends and stands
    perpendicular to the first shared face when `normalize` only rescales.
  */
  lemma {:induction false} EdgeConstraintCases(pt: PointTables, he: HalfEdgeTables, edgeHe: seq<int>, planes: seq<Option<Plane>>, g: BuildOracles, i: int)
    requires EdgeConstraint(pt, he, edgeHe, planes, g, i).Ok?
    requires forall w :: exists c: real :: g.normalize(w) == Scale(c, w)
    ensures var h1 := At(edgeHe, i);
      var v1 := At(he.pIndex, h1);
      var v2 := At(he.pIndex, At(he.oppIndex, h1));
      && AdjacentFaces(pt.heIndex, he, v1).Ok? && AdjacentFaces(pt.heIndex, he, v2).Ok?
      && var faces := CommonFaces(AdjacentFaces(pt.heIndex, he, v1).value, AdjacentFaces(pt.heIndex, he, v2).value);
      && |faces| >= 2
      && PlaneOf(planes, faces[0]).Some? && PlaneOf(planes, faces[1]).Some?
      && (EdgeConstraint(pt, he, edgeHe, planes, g, i).value.Loose? <==> g.rank([PlaneOf(planes, faces[0]).value, PlaneOf(planes, faces[1]).value]) < 2)
      && (EdgeConstraint(pt, he, edgeHe, planes, g, i).value.Loose? ==>
            var sp := EdgeConstraint(pt, he, edgeHe, planes, g, i).value.support;
            && OnPlane(sp, pt.coords[v1]) && OnPlane(sp, pt.coords[v2])
            && Dot(Normal(sp), Normal(PlaneOf(planes, faces[0]).value)) == 0.0)
  {
    var h1 := At(edgeHe, i);
    var v1 := At(he.pIndex, h1);
    var v2 := At(he.pIndex, At(he.oppIndex, h1));
    var faces := CommonFaces(AdjacentFaces(pt.heIndex, he, v1).value, AdjacentFaces(pt.heIndex, he, v2).value);
    if EdgeConstraint(pt, he, edgeHe, planes, g, i).value.Loose? {
      var n := PlaneOf(planes, faces[0]).value;
      var w := Cross(Normal(n), Between(pt.coords[v1], pt.coords[v2]));
      var c: real :| g.normalize(w) == Scale(c, w);
      SupportPlaneThroughEdge(n, pt.coords[v1], pt.coords[v2], g.normalize, c);
    }
  }

  /**
    The loop of lines 214-254 over edges i .. n − 1, each classified by `classify`: a loose edge's
    support plane is set at its slot, and its flag is appended.
  */
  function ConstraintsFrom(classify: int -> Result<Constraint>, n: nat, i: nat, support: seq<Option<Plane>>, under: seq<bool>): Result<(seq<Option<Plane>>, seq<bool>)>
    decreases n - i
  {
    if i >= n then Ok((support, under))
    else
      match classify(i)
      case Err(m) => Err(m)
      case Ok(Pinned) => ConstraintsFrom(classify, n, i + 1, support, under + [false])
      case Ok(Loose(sp)) =>
        ConstraintsFrom(classify, n, i + 1, if i < |support| then support[i := Some(sp)] else support, under + [true])
  }

  /** One pass of the loop: edge i's classification settles its slot and its flag. */
  lemma {:induction false} ConstraintsStep(classify: int -> Result<Constraint>, n: nat, i: nat, support: seq<Option<Plane>>, under: seq<bool>)
    requires i < n && classify(i).Ok?
    ensures ConstraintsFrom(classify, n, i, support, under)
         == ConstraintsFrom(classify, n, i + 1,
              if classify(i).value.Loose? && i < |support| then support[i := Some(classify(i).value.support)] else support,
              under + [classify(i).value.Loose?])
  {
  }

  /** The flags and support slots from edge i on agree with each edge's classification. */
  ghost predicate Classified(classify: int -> Result<Constraint>, i: nat, support: seq<Option<Plane>>, s: seq<Option<Plane>>, u: seq<bool>)
    requires i <= |s| == |u| == |support|
  {
    forall e :: i <= e < |u| ==>
      && classify(e).Ok?
      && (u[e] <==> classify(e).value.Loose?)
      && (u[e] ==> s[e] == Some(classify(e).value.support))
      && (!u[e] ==> s[e] == support[e])
  }

  /** The loop succeeds exactly when every edge from i on can be classified, and fails with the first failure's message. */
  lemma {:induction false} ConstraintsSucceed(classify: int -> Result<Constraint>, n: nat, i: nat, support: seq<Option<Plane>>, under: seq<bool>)
    ensures ConstraintsFrom(classify, n, i, support, under).Ok? <==> forall e :: i <= e < n ==> classify(e).Ok?
    ensures ConstraintsFrom(classify, n, i, support, under).Err? ==>
      exists e :: i <= e < n && classify(e) == Err(ConstraintsFrom(classify, n, i, support, under).message)
    decreases n - i
  {
    if i < n {
      var c := classify(i);
      if c.Ok? {
        var s1 := if c.value.Loose? then (if i < |support| then support[i := Some(c.value.support)] else support) else support;
        ConstraintsSucceed(classify, n, i + 1, s1, under + [c.value.Loose?]);
      }
    }
  }

  /**
    When the loop succeeds, the flags list one entry per edge, an edge is flagged exactly when it is
    loose, and a loose edge's slot holds its support plane while the others keep theirs.
  */
  lemma {:induction false} ConstraintsClassify(classify: int -> Result<Constraint>, n: nat, i: nat, support: seq<Option<Plane>>, under: seq<bool>)
    requires i <= n == |support| && |under| == i
    requires ConstraintsFrom(classify, n, i, support, under).Ok?
    ensures |ConstraintsFrom(classify, n, i, support, under).value.0| == |ConstraintsFrom(classify, n, i, support, under).value.1| == n
    ensures ConstraintsFrom(classify, n, i, support, under).value.0[..i] == support[..i]
    ensures ConstraintsFrom(classify, n, i, support, under).value.1[..i] == under
    ensures Classified(classify, i, support, ConstraintsFrom(classify, n, i, support, under).value.0, ConstraintsFrom(classify, n, i, support, under).value.1)
    decreases n - i
  {
    var r := ConstraintsFrom(classify, n, i, support, under).value;
    if i < n {
      var c := classify(i).value;
      var s1 := if c.Loose? then support[i := Some(c.support)] else support;
      var u1 := under + [c.Loose?];
      assert ConstraintsFrom(classify, n, i, support, under) == ConstraintsFrom(classify, n, i + 1, s1, u1);
      ConstraintsClassify(classify, n, i + 1, s1, u1);
      assert r.0[..i + 1][..i] == r.0[..i];
      assert s1[..i + 1][..i] == support[..i];
      assert r.1[..i + 1][..i] == r.1[..i];
      assert r.1[i] == u1[i] && r.0[i] == s1[i];
      forall e | i <= e < |r.1|
        ensures classify(e).Ok?
        ensures r.1[e] <==> classify(e).value.Loose?
        ensures r.1[e] ==> r.0[e] == Some(classify(e).value.support)
        ensures !r.1[e] ==> r.0[e] == support[e]
      {
        if e > i {
          assert Classified(classify, i + 1, s1, r.0, r.1);
        }
      }
    }
  }

  // ----- the whole build -----

  /** Lines 121-135 on the tables: the opposites paired. */
  ghost function Paired(t: Tables): Tables {
    t.(halfEdges := t.halfEdges.(oppIndex := Pairing(t.halfEdges, |t.halfEdges.pIndex|)))
  }

  /** Lines 139-150 on the tables: the edge ids of the half-edges and each edge's half-edge. */
  ghost function Numbered(t: Tables): Tables {
    var opp := t.halfEdges.oppIndex;
    t.(halfEdges := t.halfEdges.(eIndex := Edges(opp, |opp|).0), edges := t.edges.(heIndex := Edges(opp, |opp|).1))
  }

  /** Lines 154-159 on the tables: the arity of every point, or the error of the first point without a half-edge. */
  ghost function Counted(t: Tables): Result<Tables> {
    match ArityFrom(Adjacency(t), t.points.nbAdjacentFaces, 0)
    case Err(m) => Err(m)
    case Ok(nb) => Ok(t.(points := t.points.(nbAdjacentFaces := nb)))
  }

  /** Lines 214-254 on the tables: every edge's flag and support plane, or the first edge's error. */
  ghost function Constrained(t: Tables, g: BuildOracles): Result<Tables> {
    var n := |t.edges.heIndex|;
    match ConstraintsFrom(Classifier(t, g), n, 0, seq(n, _ => None), [])
    case Err(m) => Err(m)
    case Ok(r) => Ok(t.(edges := t.edges.(supportPlanEquation := r.0, underconstrained := r.1)))
  }

  /** The rings laid out from the building's polygons. */
  ghost function Laid(b: Building): Tables
    requires WellFormed(b)
  {
    PolygonsFrom(InitialTables(b), b, 0)
  }

  /** `build` on the tables, stage by stage. */
  ghost function BuildTables(b: Building, g: BuildOracles): Result<Tables>
    requires WellFormed(b)
  {
    match Counted(Numbered(Paired(Laid(b))))
    case Err(m) => Err(m)
    case Ok(t) => Constrained(t, g)
  }

  /** With no two half-edges running the same way, the completed pairing is an involution. */
  lemma {:induction false} PairingInvolution(he: HalfEdgeTables)
    requires DistinctDirected(he)
    ensures Involution(Pairing(he, |he.pIndex|))
  {
    var opp := Pairing(he, |he.pIndex|);
    forall k | 0 <= k < |opp|
      ensures opp[k] == NULL || (0 <= opp[k] < |opp| && opp[k] != k && opp[opp[k]] == k)
    {
      PairingIsSymmetric(he, k);
    }
  }

  /**
    What a successful build guarantees when no two half-edges of the laid-out rings run the same
    way: opposites pair up two by two, every half-edge has an edge shared with its opposite, every
    point has a half-edge and between 1 and 100 adjacent faces, and exactly the flagged edges carry
    a support plane.
  */
  lemma {:induction false} BuildGuarantees(b: Building, g: BuildOracles)
    requires WellFormed(b) && BuildTables(b, g).Ok?
    requires DistinctDirected(Laid(b).halfEdges)
    ensures var t := BuildTables(b, g).value;
      var opp := t.halfEdges.oppIndex;
      var e := t.halfEdges.eIndex;
      && Involution(opp)
      && |e| == |opp|
      && (forall k :: 0 <= k < |opp| ==> 0 <= e[k] < |t.edges.heIndex|)
      && (forall k :: 0 <= k < |opp| && opp[k] != NULL ==> e[opp[k]] == e[k])
      && (forall id :: 0 <= id < |t.edges.heIndex| ==> 0 <= t.edges.heIndex[id] < |opp| && e[t.edges.heIndex[id]] == id)
      && (forall p :: 0 <= p < |t.points.nbAdjacentFaces| ==> At(t.points.heIndex, p) != NULL && 1 <= t.points.nbAdjacentFaces[p] <= 100)
      && |t.edges.underconstrained| == |t.edges.supportPlanEquation| == |t.edges.heIndex|
      && (forall i :: 0 <= i < |t.edges.heIndex| ==> (t.edges.underconstrained[i] <==> t.edges.supportPlanEquation[i].Some?))
  {
    BuildPairsEdges(b, g);
    BuildArity(b, g);
    BuildSupport(b, g);
  }

  /** A successful build in the distinct case: opposites pair up two by two and every half-edge has an edge shared with its opposite. */
  lemma {:induction false} BuildPairsEdges(b: Building, g: BuildOracles)
    requires WellFormed(b) && BuildTables(b, g).Ok?
    requires DistinctDirected(Laid(b).halfEdges)
    ensures var t := BuildTables(b, g).value;
      var opp := t.halfEdges.oppIndex;
      var e := t.halfEdges.eIndex;
      && Involution(opp)
      && |e| == |opp|
      && (forall k :: 0 <= k < |opp| ==> 0 <= e[k] < |t.edges.heIndex|)
      && (forall k :: 0 <= k < |opp| && opp[k] != NULL ==> e[opp[k]] == e[k])
      && (forall id :: 0 <= id < |t.edges.heIndex| ==> 0 <= t.edges.heIndex[id] < |opp| && e[t.edges.heIndex[id]] == id)
  {
    var t0 := Laid(b);
    PairingInvolution(t0.halfEdges);
    var t1 := Numbered(Paired(t0));
    EdgeIdsConsistent(t1.halfEdges.oppIndex);
    var t := BuildTables(b, g).value;
    assert t.halfEdges == t1.halfEdges && t.edges.heIndex == t1.edges.heIndex;
  }

  /** A successful build: every point has a half-edge and between 1 and 100 adjacent faces. */
  lemma {:induction false} BuildArity(b: Building, g: BuildOracles)
    requires WellFormed(b) && BuildTables(b, g).Ok?
    ensures var t := BuildTables(b, g).value;
      forall p :: 0 <= p < |t.points.nbAdjacentFaces| ==> At(t.points.heIndex, p) != NULL && 1 <= t.points.nbAdjacentFaces[p] <= 100
  {
    var t1 := Numbered(Paired(Laid(b)));
    ArityCounts(t1, t1.points.nbAdjacentFaces, 0);
    var t := BuildTables(b, g).value;
    assert t.points == Counted(t1).value.points;
  }

  /** A successful build: exactly the flagged edges carry a support plane. */
  lemma {:induction false} BuildSupport(b: Building, g: BuildOracles)
    requires WellFormed(b) && BuildTables(b, g).Ok?
    ensures var t := BuildTables(b, g).value;
      && |t.edges.underconstrained| == |t.edges.supportPlanEquation| == |t.edges.heIndex|
      && (forall i :: 0 <= i < |t.edges.heIndex| ==> (t.edges.underconstrained[i] <==> t.edges.supportPlanEquation[i].Some?))
  {
    var t1 := Numbered(Paired(Laid(b)));
    var t2 := Counted(t1).value;
    var n := |t2.edges.heIndex|;
    ConstraintsClassify(Classifier(t2, g), n, 0, seq(n, _ => None), []);
    var t := BuildTables(b, g).value;
    forall i | 0 <= i < n
      ensures t.edges.underconstrained[i] <==> t.edges.supportPlanEquation[i].Some?
    {
      assert Classified(Classifier(t2, g), 0, seq(n, _ => None), t.edges.supportPlanEquation, t.edges.underconstrained);
    }
  }

  /** The store objects hold the tables they were made from. */
  ghost predicate Holds(s: Store, t: Tables)
    reads s.points, s.halfEdges, s.edges, s.faces
  {
    && s.points.coords == t.points.coords && s.points.heIndex == t.points.heIndex
    && s.points.nbAdjacentFaces == t.points.nbAdjacentFaces && s.points.supportPlanEquation == t.points.supportPlanEquation
    && s.halfEdges.pIndex == t.halfEdges.pIndex && s.halfEdges.oppIndex == t.halfEdges.oppIndex
    && s.halfEdges.nextIndex == t.halfEdges.nextIndex && s.halfEdges.fIndex == t.halfEdges.fIndex
    && s.halfEdges.eIndex == t.halfEdges.eIndex
    && s.edges.heIndex == t.edges.heIndex && s.edges.supportPlanEquation == t.edges.supportPlanEquation
    && s.edges.underconstrained == t.edges.underconstrained
    && s.faces.planeEquation == t.faces.planeEquation && s.faces.hExtIndex == t.faces.hExtIndex
    && s.faces.hIntIndices == t.faces.hIntIndices
  }

  /** The four store objects that `build` leaves in its `*_data_object` fields. */
  datatype Store = Store(points: PointData, halfEdges: HalfEdgeData, edges: EdgeData, faces: FaceData)

  /** `GeometryBuilder`: the four raw tables that `build` fills in place. */
  class GeometryBuilder {
    var pointData: PointTables
    var halfEdgeData: HalfEdgeTables
    var edgeData: EdgeTables
    var faceData: FaceTables

    function Snapshot(): Tables
      reads this
    {
      Tables(pointData, halfEdgeData, edgeData, faceData)
    }

    /** The constructor leaves every table empty. */
    constructor ()
      ensures Snapshot() == InitialTables(Building([], 0, []))
    {
      pointData := PointTables([], [], [], []);
      halfEdgeData := HalfEdgeTables([], [], [], [], []);
      edgeData := EdgeTables([], [], []);
      faceData := FaceTables([], [], []);
    }

    /** Lines 80-86: whether some half-edge already runs from o to t. */
    method HasSide(o: int, t: int) returns (found: bool)
      ensures found == HasDirected(halfEdgeData, o, t, 0)
    {
      var j := 0;
      while j < |halfEdgeData.pIndex|
        invariant 0 <= j <= |halfEdgeData.pIndex|
        invariant HasDirected(halfEdgeData, o, t, 0) == HasDirected(halfEdgeData, o, t, j)
      {
        var origin2 := halfEdgeData.pIndex[j];
        var target2 := At(halfEdgeData.pIndex, At(halfEdgeData.nextIndex, j));
        if origin2 == o && target2 == t {
          return true;
        }
        j := j + 1;
      }
      return false;
    }

    /** Lines 75-88: the exterior ring, turned round each time one of its sides already exists with its direction. */
    method OrientExterior(ring: seq<int>) returns (r: seq<int>)
      ensures r == Orient(halfEdgeData, ring, 0)
    {
      var n := |ring|;
      r := ring;
      var i := 0;
      while i < n
        invariant 0 <= i <= n && |r| == n
        invariant Orient(halfEdgeData, r, i) == Orient(halfEdgeData, ring, 0)
      {
        var found := HasSide(r[i], r[(i + 1) % n]);
        if found {
          r := Reverse(r);
        }
        i := i + 1;
      }
    }

    /** Lines 90-98: the exterior ring's half-edges appended, each made its origin's half-edge. */
    method AddExterior(ext: seq<int>, face: int)
      requires Aligned(halfEdgeData)
      requires forall i :: 0 <= i < |ext| ==> 0 <= ext[i] < |pointData.heIndex|
      modifies this
      ensures halfEdgeData == WithRing(old(halfEdgeData), ext, face)
      ensures pointData == old(pointData).(heIndex := Heads(old(pointData.heIndex), ext, |old(halfEdgeData.pIndex)|, 0))
      ensures edgeData == old(edgeData) && faceData == old(faceData)
    {
      var nb := |halfEdgeData.pIndex|;
      var n := |ext|;
      var i := 0;
      while i < n
        invariant 0 <= i <= n
        invariant halfEdgeData == old(halfEdgeData).(pIndex := old(halfEdgeData.pIndex) + ext[..i],
                                                     nextIndex := old(halfEdgeData.nextIndex) + RingNext(nb, n)[..i],
                                                     fIndex := old(halfEdgeData.fIndex) + seq(i, _ => face))
        invariant pointData == old(pointData).(heIndex := pointData.heIndex)
        invariant |pointData.heIndex| == |old(pointData.heIndex)|
        invariant Heads(pointData.heIndex, ext, nb, i) == Heads(old(pointData.heIndex), ext, nb, 0)
        invariant edgeData == old(edgeData) && faceData == old(faceData)
      {
        var origin := ext[i];
        var next := nb + (i + 1) % n;
        assert RingNext(nb, n)[..i + 1] == RingNext(nb, n)[..i] + [next];
        assert ext[..i + 1] == ext[..i] + [origin];
        assert seq(i + 1, _ => face) == seq(i, _ => face) + [face];
        halfEdgeData := halfEdgeData.(pIndex := halfEdgeData.pIndex + [origin],
                                      nextIndex := halfEdgeData.nextIndex + [next],
                                      fIndex := halfEdgeData.fIndex + [face]);
        pointData := pointData.(heIndex := pointData.heIndex[origin := nb + i]);
        i := i + 1;
      }
      assert ext[..n] == ext;
      assert RingNext(nb, n)[..n] == RingNext(nb, n);
    }

    /** Lines 105-112: one interior ring's half-edges appended. */
    method AddInterior(ring: seq<int>, face: int)
      modifies this
      ensures halfEdgeData == WithRing(old(halfEdgeData), ring, face)
      ensures pointData == old(pointData) && edgeData == old(edgeData) && faceData == old(faceData)
    {
      var nb := |halfEdgeData.pIndex|;
      var n := |ring|;
      var i := 0;
      while i < n
        invariant 0 <= i <= n
        invariant halfEdgeData == old(halfEdgeData).(pIndex := old(halfEdgeData.pIndex) + ring[..i],
                                                     nextIndex := old(halfEdgeData.nextIndex) + RingNext(nb, n)[..i],
                                                     fIndex := old(halfEdgeData.fIndex) + seq(i, _ => face))
        invariant pointData == old(pointData) && edgeData == old(edgeData) && faceData == old(faceData)
      {
        var origin := ring[i];
        var next := nb + (i + 1) % n;
        assert RingNext(nb, n)[..i + 1] == RingNext(nb, n)[..i] + [next];
        assert ring[..i + 1] == ring[..i] + [origin];
        assert seq(i + 1, _ => face) == seq(i, _ => face) + [face];
        halfEdgeData := halfEdgeData.(pIndex := halfEdgeData.pIndex + [origin],
                                      nextIndex := halfEdgeData.nextIndex + [next],
                                      fIndex := halfEdgeData.fIndex + [face]);
        i := i + 1;
      }
      assert ring[..n] == ring;
      assert RingNext(nb, n)[..n] == RingNext(nb, n);
    }

    /** Lines 100-114: each interior ring appended, its first half-edge listed among the face's interior ones. */
    method AddInteriors(interiors: seq<seq<int>>, face: int)
      requires 0 <= face < |faceData.hIntIndices|
      modifies this
      ensures halfEdgeData == WithRings(old(halfEdgeData), interiors, face)
      ensures faceData == old(faceData).(hIntIndices := old(faceData.hIntIndices)[face := old(faceData.hIntIndices)[face] + RingStarts(|old(halfEdgeData.pIndex)|, interiors)])
      ensures pointData == old(pointData) && edgeData == old(edgeData)
    {
      var k := 0;
      while k < |interiors|
        invariant 0 <= k <= |interiors|
        invariant WithRings(halfEdgeData, interiors[k..], face) == WithRings(old(halfEdgeData), interiors, face)
        invariant |faceData.hIntIndices| == |old(faceData.hIntIndices)|
        invariant faceData == old(faceData).(hIntIndices := faceData.hIntIndices)
        invariant faceData.hIntIndices == old(faceData.hIntIndices)[face := faceData.hIntIndices[face]]
        invariant faceData.hIntIndices[face] + RingStarts(|halfEdgeData.pIndex|, interiors[k..])
                  == old(faceData.hIntIndices)[face] + RingStarts(|old(halfEdgeData.pIndex)|, interiors)
        invariant pointData == old(pointData) && edgeData == old(edgeData)
      {
        var interior := interiors[k];
        var nb := |halfEdgeData.pIndex|;
        assert interiors[k..][1..] == interiors[k + 1..];
        assert RingStarts(nb, interiors[k..]) == [nb] + RingStarts(nb + |interior|, interiors[k + 1..]);
        faceData := faceData.(hIntIndices := faceData.hIntIndices[face := faceData.hIntIndices[face] + [nb]]);
        AddInterior(interior, face);
        k := k + 1;
      }
      assert interiors[|interiors|..] == [];
      assert faceData.hIntIndices[face] + [] == faceData.hIntIndices[face];
    }
  
    /** Lines 61-115: one polygon's plane, exterior ring and interior rings. */
    method AddPolygon(poly: Polygon)
      requires 0 <= poly.face < |faceData.hExtIndex| && |faceData.hIntIndices| == |faceData.planeEquation| == |faceData.hExtIndex|
      requires forall i :: 0 <= i < |poly.exterior| ==> 0 <= poly.exterior[i] < |pointData.heIndex|
      requires Aligned(halfEdgeData)
      modifies this
      ensures Snapshot() == PolygonStep(old(Snapshot()), poly)
    {
      ghost var t := Snapshot();
      faceData := faceData.(planeEquation := faceData.planeEquation[poly.face := Some(poly.plane)]);
      var nb := |halfEdgeData.pIndex|;
      faceData := faceData.(hExtIndex := faceData.hExtIndex[poly.face := nb]);
      var ext := OrientExterior(poly.exterior);
      OrientIsRingOrReverse(halfEdgeData, poly.exterior, 0);
      AddExterior(ext, poly.face);
      faceData := faceData.(hIntIndices := faceData.hIntIndices[poly.face := []]);
      AddInteriors(poly.interiors, poly.face);
      assert [] + RingStarts(|WithRing(t.halfEdges, ext, poly.face).pIndex|, poly.interiors)
          == RingStarts(|WithRing(t.halfEdges, ext, poly.face).pIndex|, poly.interiors);
    }

    /** Lines 120-135: each half-edge paired with the first earlier one running the other way. */
    method PairOpposites()
      modifies this
      ensures Snapshot() == Paired(old(Snapshot()))
    {
      var n := |halfEdgeData.pIndex|;
      halfEdgeData := halfEdgeData.(oppIndex := seq(n, _ => NULL));
      var i := 0;
      while i < n
        invariant 0 <= i <= n
        invariant halfEdgeData == old(halfEdgeData).(oppIndex := Pairing(old(halfEdgeData), i))
        invariant pointData == old(pointData) && edgeData == old(edgeData) && faceData == old(faceData)
      {
        var origin := halfEdgeData.pIndex[i];
        var target := At(halfEdgeData.pIndex, At(halfEdgeData.nextIndex, i));
        var j := 0;
        while j < i && !(halfEdgeData.pIndex[j] == target && At(halfEdgeData.pIndex, At(halfEdgeData.nextIndex, j)) == origin)
          invariant 0 <= j <= i
          invariant FirstTwin(old(halfEdgeData), i, 0) == FirstTwin(old(halfEdgeData), i, j)
        {
          j := j + 1;
        }
        if j < i {
          halfEdgeData := halfEdgeData.(oppIndex := halfEdgeData.oppIndex[i := j][j := i]);
        }
        i := i + 1;
      }
    }

    /** Lines 139-150: every half-edge still at −1 opens a new edge shared with its opposite. */
    method NumberEdges()
      requires |halfEdgeData.oppIndex| == |halfEdgeData.pIndex| && edgeData.heIndex == []
      modifies this
      ensures Snapshot() == Numbered(old(Snapshot()))
    {
      var n := |halfEdgeData.pIndex|;
      ghost var opp := halfEdgeData.oppIndex;
      halfEdgeData := halfEdgeData.(eIndex := seq(n, _ => -1));
      var i := 0;
      while i < n
        invariant 0 <= i <= n
        invariant (halfEdgeData.eIndex, edgeData.heIndex) == Edges(opp, i)
        invariant halfEdgeData == old(halfEdgeData).(eIndex := halfEdgeData.eIndex)
        invariant edgeData == old(edgeData).(heIndex := edgeData.heIndex)
        invariant pointData == old(pointData) && faceData == old(faceData)
      {
        if halfEdgeData.eIndex[i] == -1 {
          var oppId := halfEdgeData.oppIndex[i];
          edgeData := edgeData.(heIndex := edgeData.heIndex + [i]);
          var id := |edgeData.heIndex| - 1;
          var e := halfEdgeData.eIndex[i := id];
          if 0 <= oppId < n {
            e := e[oppId := id];
          }
          halfEdgeData := halfEdgeData.(eIndex := e);
        }
        i := i + 1;
      }
    }

    /** `__getAdjacentFaces(v)`, lines 601-620: the do-while round the point, capped at 100 steps. */
    method GetAdjacentFaces(v: int) returns (r: Result<seq<int>>)
      ensures r == AdjacentFaces(pointData.heIndex, halfEdgeData, v)
    {
      var h0 := At(pointData.heIndex, v);
      if h0 == NULL {
        return Err(UndefinedRead);
      }
      var h := h0;
      var faces: seq<int> := [];
      var j := 0;
      while true
        invariant 0 <= j < 100
        invariant AdjacentWalk(halfEdgeData, h0, h, j, faces) == AdjacentWalk(halfEdgeData, h0, h0, 0, [])
        decreases 100 - j
      {
        ghost var (h', j', faces') := (h, j, faces);
        j := j + 1;
        faces := MergeOne(faces, At(halfEdgeData.fIndex, h));
        h := At(halfEdgeData.oppIndex, h);
        h := At(halfEdgeData.nextIndex, h);
        assert AdjacentWalk(halfEdgeData, h0, h', j', faces') ==
          if h != h0 && j < 100 then AdjacentWalk(halfEdgeData, h0, h, j, faces) else (j, faces);
        if !(h != h0 && j < 100) {
          return Ok(faces);
        }
      }
    }

    /** Lines 154-159: every point's number of adjacent faces. */
    method CountAdjacentFaces() returns (r: Result<()>)
      modifies this
      ensures Counted(old(Snapshot())).Ok? ==> r.Ok? && Snapshot() == Counted(old(Snapshot())).value
      ensures Counted(old(Snapshot())).Err? ==> r == Err(Counted(old(Snapshot())).message)
    {
      ghost var t := Snapshot();
      var i := 0;
      while i < |pointData.nbAdjacentFaces|
        invariant 0 <= i <= |pointData.nbAdjacentFaces|
        invariant Snapshot() == t.(points := t.points.(nbAdjacentFaces := pointData.nbAdjacentFaces))
        invariant ArityFrom(Adjacency(t), pointData.nbAdjacentFaces, i) == ArityFrom(Adjacency(t), t.points.nbAdjacentFaces, 0)
      {
        var faces := GetAdjacentFaces(i);
        if faces.Err? {
          return Err(faces.message);
        }
        pointData := pointData.(nbAdjacentFaces := pointData.nbAdjacentFaces[i := |faces.value|]);
        i := i + 1;
      }
      return Ok(());
    }

    /** Lines 215-253 for edge i: its classification against the current tables. */
    method ClassifyEdge(g: BuildOracles, i: int) returns (c: Result<Constraint>)
      ensures c == EdgeConstraint(pointData, halfEdgeData, edgeData.heIndex, faceData.planeEquation, g, i)
    {
      var h1 := At(edgeData.heIndex, i);
      var h2 := At(halfEdgeData.oppIndex, h1);
      var v1 := At(halfEdgeData.pIndex, h1);
      var v2 := At(halfEdgeData.pIndex, h2);
      var faces1 := GetAdjacentFaces(v1);
      if faces1.Err? {
        return Err(faces1.message);
      }
      var faces2 := GetAdjacentFaces(v2);
      if faces2.Err? {
        return Err(faces2.message);
      }
      var faces := CommonFaces(faces1.value, faces2.value);
      var eq1 := if |faces| > 0 then PlaneOf(faceData.planeEquation, faces[0]) else None;
      var eq2 := if |faces| > 1 then PlaneOf(faceData.planeEquation, faces[1]) else None;
      if eq1.None? || eq2.None? {
        return Err(NotIterable);
      }
      if g.rank([eq1.value, eq2.value]) < 2 {
        if !(0 <= v1 < |pointData.coords| && 0 <= v2 < |pointData.coords|) {
          return Err(UndefinedRead);
        }
        var p1 := pointData.coords[v1];
        var p2 := pointData.coords[v2];
        return Ok(Loose(SupportPlane(eq1.value, p1, p2, g.normalize)));
      }
      return Ok(Pinned);
    }

    /** Lines 214-254: every edge flagged, and the loose ones given their support plane. */
    method MarkUnderconstrained(g: BuildOracles) returns (r: Result<()>)
      modifies this
      ensures Constrained(old(Snapshot()), g).Ok? ==> r.Ok? && Snapshot() == Constrained(old(Snapshot()), g).value
      ensures Constrained(old(Snapshot()), g).Err? ==> r == Err(Constrained(old(Snapshot()), g).message)
    {
      ghost var t := Snapshot();
      var n := |edgeData.heIndex|;
      edgeData := edgeData.(supportPlanEquation := seq(n, _ => None), underconstrained := []);
      r := ConstrainEdges(g, Classifier(t, g), n);
    }

    /**
      The loop of lines 214-254, from the cleared support slots and flags; `classify` stands for
      the classification of each edge against the tables, which the loop leaves unchanged.
    */
    method ConstrainEdges(g: BuildOracles, ghost classify: int -> Result<Constraint>, n: nat) returns (r: Result<()>)
      requires forall j {:trigger EdgeConstraint(pointData, halfEdgeData, edgeData.heIndex, faceData.planeEquation, g, j)} ::
        classify(j) == EdgeConstraint(pointData, halfEdgeData, edgeData.heIndex, faceData.planeEquation, g, j)
      modifies this`edgeData
      ensures var done := ConstraintsFrom(classify, n, 0, old(edgeData.supportPlanEquation), old(edgeData.underconstrained));
        && (done.Ok? ==> r.Ok? && edgeData == old(edgeData).(supportPlanEquation := done.value.0, underconstrained := done.value.1))
        && (done.Err? ==> r == Err(done.message))
    {
      ghost var goal := ConstraintsFrom(classify, n, 0, edgeData.supportPlanEquation, edgeData.underconstrained);
      ghost var heIndex := edgeData.heIndex;
      var i := 0;
      while i < n
        invariant 0 <= i <= n
        invariant edgeData.heIndex == heIndex
        invariant ConstraintsFrom(classify, n, i, edgeData.supportPlanEquation, edgeData.underconstrained) == goal
      {
        var c := ClassifyEdge(g, i);
        if c.Err? {
          return Err(c.message);
        }
        var support, under := edgeData.supportPlanEquation, edgeData.underconstrained;
        var support', under' := support, under + [c.value.Loose?];
        if c.value.Loose? && i < |support| {
          support' := support[i := Some(c.value.support)];
        }
        ConstraintsStep(classify, n, i, support, under);
        edgeData := edgeData.(supportPlanEquation := support', underconstrained := under');
        i := i + 1;
      }
      return Ok(());
    }

    /** `build`, lines 32-264: the stages in order, then the four store objects made from the tables. */
    method Build(b: Building, g: BuildOracles) returns (r: Result<Store>)
      requires WellFormed(b)
      modifies this
      ensures BuildTables(b, g).Err? ==> r == Err(BuildTables(b, g).message)
      ensures BuildTables(b, g).Ok? ==> r.Ok? && Snapshot() == BuildTables(b, g).value
      ensures r.Ok? ==> fresh(r.value.points) && fresh(r.value.halfEdges) && fresh(r.value.edges) && fresh(r.value.faces)
      ensures r.Ok? ==> Holds(r.value, Snapshot())
    {
      var nPts := |b.coords|;
      faceData := FaceTables(seq(b.nFaces, _ => NULL), seq(b.nFaces, _ => []), seq(b.nFaces, _ => None));
      pointData := PointTables(seq(nPts, _ => NULL), seq(nPts, _ => NULL), b.coords, seq(nPts, _ => None));
      halfEdgeData := HalfEdgeTables([], [], [], [], []);
      edgeData := EdgeTables([], [], []);
      var k := 0;
      while k < |b.polygons|
        invariant 0 <= k <= |b.polygons|
        invariant Sized(Snapshot(), b) && edgeData == EdgeTables([], [], [])
        invariant PolygonsFrom(Snapshot(), b, k) == Laid(b)
      {
        ghost var t := Snapshot();
        var poly := b.polygons[k];
        AddPolygon(poly);
        WithRingsPrefix(WithRing(t.halfEdges, Orient(t.halfEdges, poly.exterior, 0), poly.face), poly.interiors, poly.face);
        k := k + 1;
      }
      PairOpposites();
      NumberEdges();
      var counted := CountAdjacentFaces();
      if counted.Err? {
        return Err(counted.message);
      }
      var marked := MarkUnderconstrained(g);
      if marked.Err? {
        return Err(marked.message);
      }
      var faces := new FaceData(faceData.planeEquation, faceData.hExtIndex, faceData.hIntIndices);
      var points := new PointData(pointData.coords, pointData.heIndex, pointData.nbAdjacentFaces, pointData.supportPlanEquation);
      var halfEdges := new HalfEdgeData(halfEdgeData.pIndex, halfEdgeData.oppIndex, halfEdgeData.nextIndex, halfEdgeData.fIndex, halfEdgeData.eIndex);
      var edges := new EdgeData(edgeData.heIndex, edgeData.supportPlanEquation, edgeData.underconstrained);
      r := Ok(Store(points, halfEdges, edges, faces));
    }
  }
}
