/**
  The pointer form of the half-edge B-Rep: vertices, half-edges, edges and faces as objects
  linking to each other, the orbit walks over them, the recomputation of embedded plane offsets,
  and the three edit operators that degenerate a face, degenerate an edge and split a vertex
  into a face.
*/
module PointerMesh {
  import opened Wrappers
  import opened ExactGeometry

  class Vertex {
    var halfEdge: HalfEdge?
    var point: Point
    var supportPlane: Option<Plane>
    var embeddedPlane: Option<Plane>

    /** `new Vertex(point, halfEdge)`: no support plane and no embedded plane yet. */
    constructor (p: Point, h: HalfEdge?)
      ensures halfEdge == h && point == p && supportPlane == None && embeddedPlane == None
    {
      halfEdge := h;
      point := p;
      supportPlane := None;
      embeddedPlane := None;
    }

    /**
      `getAdjacentFaces`: the face of every half-edge met turning around the vertex by
      opposite-then-next, from its own half-edge until the walk is back there.
    */
    method GetAdjacentFaces(ghost hs: set<HalfEdge>, ghost period: nat) returns (faces: seq<Face?>)
      requires Linked(hs) && halfEdge != null && halfEdge in hs
      requires period >= 1 && Walk(hs, halfEdge, true, period) == halfEdge
      ensures |faces| == FirstReturn(hs, halfEdge, true, 1, period)
      ensures forall i :: 0 <= i < |faces| ==> faces[i] == Walk(hs, halfEdge, true, i).face
    {
      var h: HalfEdge := halfEdge;
      faces := [h.face];
      h := h.opposite.next;
      ghost var i: nat := 1;
      while h != halfEdge
        invariant 1 <= i <= period && h == Walk(hs, halfEdge, true, i) && |faces| == i
        invariant FirstReturn(hs, halfEdge, true, 1, period) == FirstReturn(hs, halfEdge, true, i, period)
        invariant forall j :: 0 <= j < i ==> faces[j] == Walk(hs, halfEdge, true, j).face
        decreases period - i
      {
        faces := faces + [h.face];
        h := h.opposite.next;
        i := i + 1;
      }
    }

    /** `getAdjacentSupportEdges`: the edges met around the vertex, in order, that carry a support plane. */
    method GetAdjacentSupportEdges(ghost hs: set<HalfEdge>, ghost period: nat) returns (supportEdges: seq<Edge>)
      requires Linked(hs) && HasEdges(hs) && halfEdge != null && halfEdge in hs
      requires period >= 1 && Walk(hs, halfEdge, true, period) == halfEdge
      ensures supportEdges == WithSupport(EdgesAround(hs, halfEdge, FirstReturn(hs, halfEdge, true, 1, period)))
    {
      var h: HalfEdge := halfEdge;
      supportEdges := [];
      ghost var i: nat := 0;
      assert EdgesAround(hs, halfEdge, 0) == [];
      while true
        invariant 0 <= i < period && h == Walk(hs, halfEdge, true, i)
        invariant FirstReturn(hs, halfEdge, true, 1, period) == FirstReturn(hs, halfEdge, true, i + 1, period)
        invariant supportEdges == WithSupport(EdgesAround(hs, halfEdge, i))
        decreases period - i
      {
        ghost var around := EdgesAround(hs, halfEdge, i + 1);
        assert around == EdgesAround(hs, halfEdge, i) + [h.edge];
        WithSupportAppend(EdgesAround(hs, halfEdge, i), h.edge);
        if h.edge.supportPlane.Some? {
          supportEdges := supportEdges + [h.edge];
        }
        h := h.opposite.next;
        i := i + 1;
        if h == halfEdge {
          return;
        }
      }
    }
  }

  class HalfEdge {
    var origin: Vertex?
    var opposite: HalfEdge?
    var next: HalfEdge?
    var face: Face?
    var edge: Edge?

    /** `new HalfEdge(origin, opposite, next, face, edge)`. */
    constructor (o: Vertex?, opp: HalfEdge?, n: HalfEdge?, f: Face?, e: Edge?)
      ensures origin == o && opposite == opp && next == n && face == f && edge == e
    {
      origin := o;
      opposite := opp;
      next := n;
      face := f;
      edge := e;
    }

    /**
      `previous`: walking `next` from this half-edge's successor, the half-edge whose successor is
      this one.  On a next-cycle through this half-edge the walk stops within the cycle.
    */
    method Previous(ghost hs: set<HalfEdge>, ghost period: nat) returns (p: HalfEdge)
      requires Linked(hs) && this in hs
      requires period >= 1 && Walk(hs, this, false, period) == this
      ensures p in hs && p.next == this
      ensures p == Walk(hs, this, false, FirstReturn(hs, this, false, 1, period) - 1)
    {
      ghost var m := FirstReturn(hs, this, false, 1, period);
      p := next;
      ghost var i: nat := 1;
      while p.next != this
        invariant 1 <= i <= period && p == Walk(hs, this, false, i)
        invariant i < m || (m == 1 && i == 1)
        decreases period - i
      {
        p := p.next;
        i := i + 1;
      }
      assert Walk(hs, this, false, i + 1) == this;
      if m == 1 {
        assert Walk(hs, this, false, 1) == this;
      }
    }
  }

  class Edge {
    var halfEdge: HalfEdge?
    var supportPlane: Option<Plane>
    var embeddedPlane: Option<Plane>
    var underconstrained: bool

    /** `new Edge(halfEdge)`: no support plane, no embedded plane, not underconstrained. */
    constructor (h: HalfEdge?)
      ensures halfEdge == h && supportPlane == None && embeddedPlane == None && !underconstrained
    {
      halfEdge := h;
      supportPlane := None;
      embeddedPlane := None;
      underconstrained := false;
    }

    /** `getAdjacentFaces`: the faces on both sides of the edge, its own half-edge's first. */
    method GetAdjacentFaces() returns (faces: seq<Face?>)
      requires halfEdge != null && halfEdge.opposite != null
      ensures faces == [halfEdge.face, halfEdge.opposite.face]
    {
      var h1 := halfEdge;
      var h2 := h1.opposite;
      faces := [h1.face, h2.face];
    }

    /** `getAdjacentVertices`: the origins of the edge's two half-edges, its own half-edge's first. */
    method GetAdjacentVertices() returns (vertices: seq<Vertex?>)
      requires halfEdge != null && halfEdge.opposite != null
      ensures vertices == [halfEdge.origin, halfEdge.opposite.origin]
    {
      var h1 := halfEdge;
      var h2 := h1.opposite;
      vertices := [h1.origin, h2.origin];
    }
  }

  class Face {
    var plane: Plane
    var exteriorHalfEdge: HalfEdge?
    var interiorHalfEdges: seq<HalfEdge>

    /** `new Face(plane, exteriorHalfEdge, interiorHalfEdges)`. */
    constructor (p: Plane, ext: HalfEdge?, ints: seq<HalfEdge>)
      ensures plane == p && exteriorHalfEdge == ext && interiorHalfEdges == ints
    {
      plane := p;
      exteriorHalfEdge := ext;
      interiorHalfEdges := ints;
    }

    /** The interior loop of `deleteHalfEdge` on this face: `splice(j, 1)` on a match, and j advances regardless. */
    method RemoveInterior(he: HalfEdge)
      modifies this`interiorHalfEdges
      ensures interiorHalfEdges == SpliceOut(old(interiorHalfEdges), he)
    {
      var s := interiorHalfEdges;
      var j := 0;
      while j < |s|
        invariant 0 <= j <= |s| + 1
        invariant j <= |s| ==> s[..j] + SpliceOut(s[j..], he) == SpliceOut(old(interiorHalfEdges), he)
        invariant j > |s| ==> s == SpliceOut(old(interiorHalfEdges), he)
      {
        SpliceOutStep(s, j, he);
        if s[j] == he {
          s := s[..j] + s[j + 1..];
        }
        j := j + 1;
      }
      if j <= |s| {
        assert s[j..] == [];
        assert s[..j] == s;
      }
      interiorHalfEdges := s;
    }

    /** An interior loop of `degenerateEdge`: every entry equal to a is overwritten with b. */
    method ReplaceInterior(a: HalfEdge, b: HalfEdge)
      modifies this`interiorHalfEdges
      ensures interiorHalfEdges == Replaced(old(interiorHalfEdges), a, b)
    {
      var i := 0;
      while i < |interiorHalfEdges|
        invariant 0 <= i <= |interiorHalfEdges| == |old(interiorHalfEdges)|
        invariant forall k :: 0 <= k < i ==>
          interiorHalfEdges[k] == if old(interiorHalfEdges)[k] == a then b else old(interiorHalfEdges)[k]
        invariant forall k :: i <= k < |interiorHalfEdges| ==> interiorHalfEdges[k] == old(interiorHalfEdges)[k]
      {
        if interiorHalfEdges[i] == a {
          interiorHalfEdges := interiorHalfEdges[i := b];
        }
        i := i + 1;
      }
    }

    /**
      `getExteriorBorder` of the object `Face` in src/HalfEdgeDataStructure.js (lines 153-171), a
      class with the same fields as this one: the half-edges of the exterior ring, following `next`
      until back at the start.  The `Face` of src/HalfEdgeStructure.js has no such method.
    */
    method GetExteriorBorder(ghost hs: set<HalfEdge>, ghost period: nat) returns (border: seq<HalfEdge>)
      requires Linked(hs) && exteriorHalfEdge != null && exteriorHalfEdge in hs
      requires period >= 1 && Walk(hs, exteriorHalfEdge, false, period) == exteriorHalfEdge
      ensures |border| == FirstReturn(hs, exteriorHalfEdge, false, 1, period)
      ensures forall i :: 0 <= i < |border| ==> border[i] == Walk(hs, exteriorHalfEdge, false, i)
      ensures forall i :: 0 <= i < |border| - 1 ==> border[i].next == border[i + 1]
      ensures border[|border| - 1].next == border[0]
    {
      var h: HalfEdge := exteriorHalfEdge;
      border := [h];
      h := h.next;
      ghost var i: nat := 1;
      while h != exteriorHalfEdge
        invariant 1 <= i <= period && h == Walk(hs, exteriorHalfEdge, false, i) && |border| == i
        invariant FirstReturn(hs, exteriorHalfEdge, false, 1, period) == FirstReturn(hs, exteriorHalfEdge, false, i, period)
        invariant forall j :: 0 <= j < i ==> border[j] == Walk(hs, exteriorHalfEdge, false, j)
        decreases period - i
      {
        border := border + [h];
        h := h.next;
        i := i + 1;
      }
      RingCloses(hs, exteriorHalfEdge, |border|);
    }
  }

  // ----- walks -----

  /** Every half-edge of hs has a next and an opposite in hs. */
  ghost predicate Linked(hs: set<HalfEdge>)
    reads hs
  {
    && (forall h {:trigger h.next} :: h in hs ==> h.next != null && h.next in hs)
    && (forall h {:trigger h.opposite} :: h in hs ==> h.opposite != null && h.opposite in hs)
  }

  /** Every half-edge of hs has an edge. */
  ghost predicate HasEdges(hs: set<HalfEdge>)
    reads hs
  {
    forall h :: h in hs ==> h.edge != null
  }

  /** One step of a walk: around the origin (opposite, then next) when `spin`, along the face (next) otherwise. */
  ghost function Step(hs: set<HalfEdge>, h: HalfEdge, spin: bool): (r: HalfEdge)
    requires Linked(hs) && h in hs
    reads hs
    ensures r in hs
  {
    if spin then h.opposite.next else h.next
  }

  /** The half-edge k steps from h. */
  ghost function Walk(hs: set<HalfEdge>, h: HalfEdge, spin: bool, k: nat): (r: HalfEdge)
    requires Linked(hs) && h in hs
    reads hs
    ensures r in hs
    decreases k
  {
    if k == 0 then h else Step(hs, Walk(hs, h, spin, k - 1), spin)
  }

  /** The first number of steps, from k on, after which the walk from h reaches `target`. */
  ghost function FirstHit(hs: set<HalfEdge>, h: HalfEdge, spin: bool, target: HalfEdge, k: nat, period: nat): (m: nat)
    requires Linked(hs) && h in hs
    requires k <= period && Walk(hs, h, spin, period) == target
    reads hs
    ensures k <= m <= period && Walk(hs, h, spin, m) == target
    ensures forall j :: k <= j < m ==> Walk(hs, h, spin, j) != target
    decreases period - k
  {
    if Walk(hs, h, spin, k) == target then k else FirstHit(hs, h, spin, target, k + 1, period)
  }

  /** The first number of steps, from k on, after which the walk is back at h. */
  ghost function FirstReturn(hs: set<HalfEdge>, h: HalfEdge, spin: bool, k: nat, period: nat): (m: nat)
    requires Linked(hs) && h in hs
    requires 1 <= k <= period && Walk(hs, h, spin, period) == h
    reads hs
    ensures k <= m <= period && Walk(hs, h, spin, m) == h
    ensures forall j :: k <= j < m ==> Walk(hs, h, spin, j) != h
  {
    FirstHit(hs, h, spin, h, k, period)
  }

  /** A next-walk back at its start after m steps is a ring: each of its half-edges is followed by the next one, the last by the first. */
  lemma {:induction false} RingCloses(hs: set<HalfEdge>, h: HalfEdge, m: nat)
    requires Linked(hs) && h in hs && m >= 1 && Walk(hs, h, false, m) == h
    ensures forall j :: 0 <= j < m - 1 ==> Walk(hs, h, false, j).next == Walk(hs, h, false, j + 1)
    ensures Walk(hs, h, false, m - 1).next == h
  {
    assert Walk(hs, h, false, m) == Walk(hs, h, false, m - 1).next;
  }

  /** The edges of the first m half-edges met around the origin of h. */
  ghost function EdgesAround(hs: set<HalfEdge>, h: HalfEdge, m: nat): (r: seq<Edge>)
    requires Linked(hs) && HasEdges(hs) && h in hs
    reads hs
    ensures |r| == m && forall i :: 0 <= i < m ==> r[i] == Walk(hs, h, true, i).edge
  {
    seq(m, i requires 0 <= i < m && Linked(hs) && HasEdges(hs) && h in hs reads hs => Walk(hs, h, true, i).edge)
  }

  /** The edges of `es`, in order, that carry a support plane. */
  function WithSupport(es: seq<Edge>): (r: seq<Edge>)
    reads set e | e in es
    ensures forall e :: e in r ==> e in es && e.supportPlane.Some?
    ensures forall i :: 0 <= i < |es| && es[i].supportPlane.Some? ==> es[i] in r
  {
    if es == [] then []
    else
      var front := WithSupport(es[..|es| - 1]);
      var last := es[|es| - 1];
      assert forall i :: 0 <= i < |es| - 1 ==> es[..|es| - 1][i] == es[i];
      if last.supportPlane.Some? then front + [last] else front
  }

  lemma {:induction false} WithSupportAppend(es: seq<Edge>, e: Edge)
    ensures WithSupport(es + [e]) == WithSupport(es) + (if e.supportPlane.Some? then [e] else [])
  {
    assert (es + [e])[..|es|] == es;
  }

  // ----- sequences of entities -----

  /** No entity is listed twice. */
  ghost predicate Distinct<T>(s: seq<T>) {
    forall i, j :: 0 <= i < j < |s| ==> s[i] != s[j]
  }

  /** `indexOf`: the first position of x. */
  function IndexOf<T(==)>(s: seq<T>, x: T): (i: nat)
    requires x in s
    ensures i < |s| && s[i] == x && x !in s[..i]
  {
    if s[0] == x then 0
    else
      assert s[1..][..IndexOf(s[1..], x)] == s[1..IndexOf(s[1..], x) + 1];
      1 + IndexOf(s[1..], x)
  }

  /** `splice(indexOf(x), 1)`: the sequence with the first occurrence of x removed. */
  function Without<T(==)>(s: seq<T>, x: T): (r: seq<T>)
    requires x in s
    ensures |r| == |s| - 1
    ensures forall y :: y in r ==> y in s
    ensures forall y :: y in s && y != x ==> y in r
  {
    var i := IndexOf(s, x);
    assert forall k :: 0 <= k < |s| - 1 ==> (s[..i] + s[i + 1..])[k] == if k < i then s[k] else s[k + 1];
    s[..i] + s[i + 1..]
  }

  /** Removing an entity from a list without repetitions removes exactly that entity. */
  lemma {:induction false} WithoutDistinct<T>(s: seq<T>, x: T)
    requires x in s && Distinct(s)
    ensures Distinct(Without(s, x)) && x !in Without(s, x)
    ensures forall y :: y in Without(s, x) <==> y in s && y != x
  {
    var i := IndexOf(s, x);
    var r := Without(s, x);
    assert forall k :: 0 <= k < |r| ==> r[k] == if k < i then s[k] else s[k + 1];
  }

  /**
    The loop of `deleteHalfEdge` over a face's interior list: each entry equal to x is spliced out
    and the index still advances, so the entry after a removed one is not looked at.
  */
  function SpliceOut<T(==)>(s: seq<T>, x: T): (r: seq<T>)
    ensures |r| <= |s|
    decreases |s|
  {
    if s == [] then []
    else if s[0] == x then (if |s| == 1 then [] else [s[1]] + SpliceOut(s[2..], x))
    else [s[0]] + SpliceOut(s[1..], x)
  }

  /** On a list without repetitions the loop removes x and keeps every other entry, in order. */
  lemma {:induction false} SpliceOutDistinct<T>(s: seq<T>, x: T)
    requires Distinct(s)
    ensures x !in SpliceOut(s, x)
    ensures forall y :: y in SpliceOut(s, x) <==> y in s && y != x
    ensures x !in s ==> SpliceOut(s, x) == s
    decreases |s|
  {
    if s != [] {
      if s[0] == x && |s| > 1 {
        SpliceOutDistinct(s[2..], x);
        assert s[1] != x;
        assert forall y :: y in s <==> y == s[0] || y == s[1] || y in s[2..];
      } else if s[0] != x {
        SpliceOutDistinct(s[1..], x);
        assert forall y :: y in s <==> y == s[0] || y in s[1..];
      }
    }
  }

  /** One turn of the splicing loop at position j keeps the result it is heading for. */
  lemma {:induction false} SpliceOutStep<T>(s: seq<T>, j: nat, x: T)
    requires j < |s|
    ensures s[j] != x ==> s[..j + 1] + SpliceOut(s[j + 1..], x) == s[..j] + SpliceOut(s[j..], x)
    ensures s[j] == x && j + 1 < |s| ==>
      (s[..j] + s[j + 1..])[..j + 1] + SpliceOut((s[..j] + s[j + 1..])[j + 1..], x) == s[..j] + SpliceOut(s[j..], x)
    ensures s[j] == x && j + 1 == |s| ==> s[..j] + s[j + 1..] == s[..j] + SpliceOut(s[j..], x)
  {
    var t := s[j..];
    assert t[0] == s[j];
    if s[j] != x {
      assert t[1..] == s[j + 1..];
      assert s[..j + 1] == s[..j] + [s[j]];
    } else if j + 1 < |s| {
      assert t[2..] == s[j + 2..] && t[1] == s[j + 1];
      var u := s[..j] + s[j + 1..];
      assert u[..j + 1] == s[..j] + [s[j + 1]];
      assert u[j + 1..] == s[j + 2..];
    } else {
      assert |t| == 1;
    }
  }

  /** Two consecutive copies of x: the loop keeps the second one. */
  lemma {:induction false} SpliceOutSkips<T>(x: T)
    ensures SpliceOut([x, x], x) == [x]
  {
  }

  // ----- embedded planes -----

  /** The plane with the same normal moved through x: its offset becomes −(a·x + b·y + c·z). */
  function Through(p: Plane, x: Point): (r: Plane)
    ensures r == p.(d := r.d)
  {
    p.(d := -NormalDot(p, x))
  }

  /** The plane moved through x contains x, and no other offset with that normal does. */
  lemma {:induction false} ThroughOnPlane(p: Plane, x: Point)
    ensures OnPlane(Through(p, x), x)
    ensures forall d :: OnPlane(p.(d := d), x) ==> d == Through(p, x).d
  {
  }

  /** An edge's plane moved halfway between the offsets that would put it through each endpoint. */
  function Midway(p: Plane, x0: Point, x1: Point): (r: Plane)
    ensures r == p.(d := r.d)
  {
    p.(d := (Through(p, x0).d + Through(p, x1).d) / 2.0)
  }

  /**
    The plane moved halfway passes through both endpoints exactly when the offsets through each
    agree, and it always lies evenly between them.
  */
  lemma {:induction false} MidwayBetween(p: Plane, x0: Point, x1: Point)
    ensures var r := Midway(p, x0, x1);
      && (OnPlane(r, x0) && OnPlane(r, x1) <==> Through(p, x0).d == Through(p, x1).d)
      && Eval(r, x0) + Eval(r, x1) == 0.0
  {
    var d0, d1 := Through(p, x0).d, Through(p, x1).d;
    assert Eval(Midway(p, x0, x1), x0) == (d1 - d0) / 2.0;
    assert Eval(Midway(p, x0, x1), x1) == (d0 - d1) / 2.0;
  }

  /** The edge plane moved halfway depends on the normal only, not on the offset it had. */
  lemma {:induction false} MidwayStable(p: Plane, q: Plane, x0: Point, x1: Point)
    requires q == p.(d := q.d)
    ensures Midway(q, x0, x1) == Midway(p, x0, x1)
  {
  }

  /** The embedded plane a vertex or edge starts from: its own, or the default when it has none. */
  function BasePlane(embedded: Option<Plane>, default: Plane): Plane {
    if embedded.Some? then embedded.value else default
  }

  // ----- the structure -----

  /** `HalfEdgeStructure`: the lists of vertices, half-edges, edges and faces. */
  class HalfEdgeStructure {
    var vertices: seq<Vertex>
    var halfEdges: seq<HalfEdge>
    var edges: seq<Edge>
    var faces: seq<Face>

    /** No entity is listed twice. */
    ghost predicate Valid()
      reads this
    {
      Distinct(vertices) && Distinct(halfEdges) && Distinct(edges) && Distinct(faces)
    }

    constructor (vs: seq<Vertex>, hs: seq<HalfEdge>, es: seq<Edge>, fs: seq<Face>)
      ensures vertices == vs && halfEdges == hs && edges == es && faces == fs
    {
      vertices := vs;
      halfEdges := hs;
      edges := es;
      faces := fs;
    }

    /**
      `updateEmbeddedPlans`: every vertex plane moved through the vertex's position, and every
      edge plane moved halfway between the offsets through its two endpoints; a missing plane is
      first replaced by its default.  Only offsets change.
    */
    method UpdateEmbeddedPlans(position: Vertex -> Point, vertexDefault: Vertex -> Plane, edgeDefault: Edge -> Plane)
      requires forall k :: 0 <= k < |edges| ==> EdgeEnds(edges[k])
      modifies vertices`embeddedPlane, edges`embeddedPlane
      ensures forall k :: 0 <= k < |vertices| ==>
        vertices[k].embeddedPlane == Some(Through(BasePlane(old(vertices[k].embeddedPlane), vertexDefault(vertices[k])), position(vertices[k])))
      ensures forall k :: 0 <= k < |edges| ==> (EdgeEnds(edges[k]) &&
        edges[k].embeddedPlane == Some(Midway(BasePlane(old(edges[k].embeddedPlane), edgeDefault(edges[k])),
          position(edges[k].halfEdge.origin), position(edges[k].halfEdge.opposite.origin))))
    {
      UpdateVertexPlanes(position, vertexDefault);
      UpdateEdgePlanes(position, edgeDefault);
    }

    /** The first loop of `updateEmbeddedPlans`, over the vertices. */
    method UpdateVertexPlanes(position: Vertex -> Point, vertexDefault: Vertex -> Plane)
      modifies vertices`embeddedPlane
      ensures forall k :: 0 <= k < |vertices| ==>
        vertices[k].embeddedPlane == Some(Through(BasePlane(old(vertices[k].embeddedPlane), vertexDefault(vertices[k])), position(vertices[k])))
    {
      var i := 0;
      while i < |vertices|
        invariant 0 <= i <= |vertices|
        invariant forall k :: 0 <= k < |vertices| ==> VertexPlaneMoved(vertices[k], old(vertices[k].embeddedPlane), position, vertexDefault, k < i)
      {
        var vertex := vertices[i];
        if vertex.embeddedPlane.None? {
          vertex.embeddedPlane := Some(vertexDefault(vertex));
        }
        var x := position(vertex);
        vertex.embeddedPlane := Some(vertex.embeddedPlane.value.(d := -NormalDot(vertex.embeddedPlane.value, x)));
        i := i + 1;
      }
    }

    /** The second loop of `updateEmbeddedPlans`, over the edges. */
    method UpdateEdgePlanes(position: Vertex -> Point, edgeDefault: Edge -> Plane)
      requires forall k :: 0 <= k < |edges| ==> EdgeEnds(edges[k])
      modifies edges`embeddedPlane
      ensures forall k :: 0 <= k < |edges| ==> (EdgeEnds(edges[k]) &&
        edges[k].embeddedPlane == Some(Midway(BasePlane(old(edges[k].embeddedPlane), edgeDefault(edges[k])),
          position(edges[k].halfEdge.origin), position(edges[k].halfEdge.opposite.origin))))
    {
      var i := 0;
      while i < |edges|
        invariant 0 <= i <= |edges|
        invariant forall k :: 0 <= k < |edges| ==> EdgeEnds(edges[k])
        invariant forall k :: 0 <= k < |edges| ==> EdgePlaneMoved(edges[k], old(edges[k].embeddedPlane), position, edgeDefault, k < i)
      {
        var edge := edges[i];
        if edge.embeddedPlane.None? {
          edge.embeddedPlane := Some(edgeDefault(edge));
        }
        var v0, v1 := edge.halfEdge.origin, edge.halfEdge.opposite.origin;
        var p := edge.embeddedPlane.value;
        ghost var base := BasePlane(old(edge.embeddedPlane), edgeDefault(edge));
        assert p == base.(d := p.d);
        var d0 := -NormalDot(p, position(v0));
        var d1 := -NormalDot(p, position(v1));
        edge.embeddedPlane := Some(p.(d := (d0 + d1) / 2.0));
        MidwayStable(base, p, position(v0), position(v1));
        assert edge.embeddedPlane == Some(Midway(base, position(v0), position(v1)));
        i := i + 1;
      }
    }

    /**
      `degenerateFace`: a face whose exterior ring is the two half-edges h and h_n = h.next is
      collapsed onto the edge of h.  The outer half-edges h.opposite and h_n.opposite become
      each other's opposite on that edge, which takes the face's plane as its support and
      embedded plane; a vertex pointing at h or h_n is moved to the surviving half-edge leaving
      it; then the face, the edge of h_n, h and h_n are deleted.
    */
    method DegenerateFace(face: Face)
      requires Distinct(faces) && face in faces && TwoSided(face, halfEdges, edges, vertices)
      modifies this`faces, this`edges, this`halfEdges, vertices`halfEdge
      modifies halfEdges`opposite, halfEdges`next, halfEdges`edge, halfEdges`face
      modifies edges`halfEdge, edges`embeddedPlane, edges`supportPlane
      modifies faces`exteriorHalfEdge, faces`interiorHalfEdges
      ensures var h: HalfEdge := old(face.exteriorHalfEdge); var hn: HalfEdge := old(h.next);
        var ho: HalfEdge, hno: HalfEdge, e1: Edge := old(h.opposite), old(hn.opposite), old(h.edge);
        && ho.opposite == hno && hno.opposite == ho
        && hno.edge == e1 && e1.halfEdge == ho
        && e1.supportPlane == Some(old(face.plane)) && e1.embeddedPlane == Some(old(face.plane))
      ensures var h: HalfEdge := old(face.exteriorHalfEdge); var hn: HalfEdge := old(h.next);
        var v1: Vertex, v2: Vertex := old(h.origin), old(hn.origin);
        && v1.halfEdge == (if old(v1.halfEdge) == h then old(hn.opposite) else Cut(old(v1.halfEdge), h, hn))
        && v2.halfEdge == (if old(v2.halfEdge) == hn then old(h.opposite) else Cut(old(v2.halfEdge), h, hn))
      ensures var h: HalfEdge := old(face.exteriorHalfEdge); var hn: HalfEdge := old(h.next); var e2: Edge := old(hn.edge);
        && faces == Without(old(faces), face)
        && edges == Without(old(edges), e2)
        && hn in Without(old(halfEdges), h) && halfEdges == Without(Without(old(halfEdges), h), hn)
      ensures var h: HalfEdge := old(face.exteriorHalfEdge); var hn: HalfEdge := old(h.next);
        forall x :: x in old(halfEdges) && x != h && x != hn ==>
          && x.next == Cut(old(x.next), h, hn)
          && x.face == (if old(x.face) == face then null else old(x.face))
      ensures var h: HalfEdge := old(face.exteriorHalfEdge); var hn: HalfEdge := old(h.next);
        var ho: HalfEdge, hno: HalfEdge, e2: Edge := old(h.opposite), old(hn.opposite), old(hn.edge);
        forall x :: x in old(halfEdges) && x != h && x != hn && x != ho && x != hno ==>
          && x.opposite == Cut(old(x.opposite), h, hn)
          && x.edge == (if old(x.edge) == e2 then null else old(x.edge))
      ensures var h: HalfEdge := old(face.exteriorHalfEdge); var hn: HalfEdge := old(h.next);
        var v1: Vertex, v2: Vertex := old(h.origin), old(hn.origin);
        forall v :: v in vertices && v != v1 && v != v2 ==> v.halfEdge == Cut(old(v.halfEdge), h, hn)
      ensures var h: HalfEdge := old(face.exteriorHalfEdge); var hn: HalfEdge := old(h.next);
        forall e :: e in old(edges) && e != old(h.edge) && e != old(hn.edge) ==>
          && e.halfEdge == Cut(old(e.halfEdge), h, hn)
          && e.supportPlane == old(e.supportPlane) && e.embeddedPlane == old(e.embeddedPlane)
      ensures var h: HalfEdge := old(face.exteriorHalfEdge); var hn: HalfEdge := old(h.next);
        forall f :: f in old(faces) && f != face ==>
          && f.exteriorHalfEdge == Cut(old(f.exteriorHalfEdge), h, hn)
          && f.interiorHalfEdges == SpliceOut(SpliceOut(old(f.interiorHalfEdges), h), hn)
    {
      var plane := face.plane;
      var h: HalfEdge := face.exteriorHalfEdge;
      var ho: HalfEdge := h.opposite;
      var hn: HalfEdge := h.next;
      var hno: HalfEdge := hn.opposite;
      var e1: Edge := h.edge;
      var e2: Edge := hn.edge;
      var v1: Vertex := h.origin;
      var v2: Vertex := hn.origin;

      JoinAcross(h, hn, ho, hno, e1, v1, v2, plane);
      DeleteAll(face, e2, h, hn);
    }

    /**
      The rewiring of `degenerateFace`: h.opposite and h_n.opposite become each other's opposite
      on the edge of h, which takes the face's plane, and the two end vertices are moved off
      h and h_n.
    */
    method JoinAcross(h: HalfEdge, hn: HalfEdge, ho: HalfEdge, hno: HalfEdge, e1: Edge, v1: Vertex, v2: Vertex, plane: Plane)
      requires v1 != v2
      modifies ho`opposite, hno`opposite, hno`edge, e1`halfEdge, e1`embeddedPlane, e1`supportPlane, v1`halfEdge, v2`halfEdge
      ensures ho.opposite == hno && hno.opposite == ho && hno.edge == e1 && e1.halfEdge == ho
      ensures e1.embeddedPlane == Some(plane) && e1.supportPlane == Some(plane)
      ensures v1.halfEdge == (if old(v1.halfEdge) == h then hno else old(v1.halfEdge))
      ensures v2.halfEdge == (if old(v2.halfEdge) == hn then ho else old(v2.halfEdge))
    {
      ho.opposite := hno;
      hno.opposite := ho;
      hno.edge := e1;
      e1.halfEdge := ho;
      if v1.halfEdge == h {
        v1.halfEdge := hno;
      }
      if v2.halfEdge == hn {
        v2.halfEdge := ho;
      }
      e1.embeddedPlane := Some(plane);
      e1.supportPlane := Some(plane);
    }

    /** The deletions closing `degenerateFace`: the face, then the edge, then the two half-edges. */
    method DeleteAll(face: Face, e: Edge, h: HalfEdge, hn: HalfEdge)
      requires Distinct(faces) && face in faces && e in edges && h in halfEdges && hn in halfEdges && h != hn
      modifies this`faces, this`edges, this`halfEdges, vertices`halfEdge
      modifies halfEdges`opposite, halfEdges`next, halfEdges`edge, halfEdges`face
      modifies edges`halfEdge, faces`exteriorHalfEdge, faces`interiorHalfEdges
      ensures faces == Without(old(faces), face) && edges == Without(old(edges), e)
      ensures hn in Without(old(halfEdges), h) && halfEdges == Without(Without(old(halfEdges), h), hn)
      ensures forall x :: x in old(halfEdges) && x != h && x != hn ==>
        && x.next == Cut(old(x.next), h, hn) && x.opposite == Cut(old(x.opposite), h, hn)
        && x.face == (if old(x.face) == face then null else old(x.face))
        && x.edge == (if old(x.edge) == e then null else old(x.edge))
      ensures forall v :: v in vertices ==> v.halfEdge == Cut(old(v.halfEdge), h, hn)
      ensures forall e' :: e' in old(edges) && e' != e ==> e'.halfEdge == Cut(old(e'.halfEdge), h, hn)
      ensures forall e' :: e' in old(edges) ==> e'.supportPlane == old(e'.supportPlane) && e'.embeddedPlane == old(e'.embeddedPlane)
      ensures forall f :: f in old(faces) && f != face ==>
        && f.exteriorHalfEdge == Cut(old(f.exteriorHalfEdge), h, hn)
        && f.interiorHalfEdges == SpliceOut(SpliceOut(old(f.interiorHalfEdges), h), hn)
    {
      WithoutDistinct(faces, face);
      DeleteFaceAndEdge(face, e);
      WithoutDistinct(old(faces), face);
      DeleteHalfEdgePair(h, hn);
    }

    /** The first two deletions of `degenerateFace`. */
    method DeleteFaceAndEdge(face: Face, e: Edge)
      requires face in faces && e in edges
      modifies this`faces, this`edges, halfEdges`face, halfEdges`edge
      ensures faces == Without(old(faces), face) && edges == Without(old(edges), e)
      ensures forall x :: x in halfEdges ==>
        && x.face == (if old(x.face) == face then null else old(x.face))
        && x.edge == (if old(x.edge) == e then null else old(x.edge))
    {
      DeleteFace(face);
      DeleteEdge(e);
    }

    /** The last two deletions of `degenerateFace`. */
    method DeleteHalfEdgePair(h: HalfEdge, hn: HalfEdge)
      requires Distinct(faces) && h in halfEdges && hn in halfEdges && h != hn
      modifies this`halfEdges, vertices`halfEdge, halfEdges`opposite, halfEdges`next
      modifies edges`halfEdge, faces`exteriorHalfEdge, faces`interiorHalfEdges
      ensures hn in Without(old(halfEdges), h) && halfEdges == Without(Without(old(halfEdges), h), hn)
      ensures forall x :: x in old(halfEdges) && x != h && x != hn ==>
        x.next == Cut(old(x.next), h, hn) && x.opposite == Cut(old(x.opposite), h, hn)
      ensures forall v :: v in vertices ==> v.halfEdge == Cut(old(v.halfEdge), h, hn)
      ensures forall e :: e in edges ==> e.halfEdge == Cut(old(e.halfEdge), h, hn)
      ensures forall f :: f in faces ==>
        && f.exteriorHalfEdge == Cut(old(f.exteriorHalfEdge), h, hn)
        && f.interiorHalfEdges == SpliceOut(SpliceOut(old(f.interiorHalfEdges), h), hn)
    {
      DeleteHalfEdge(h);
      DeleteHalfEdge(hn);
    }

    /**
      `degenerateEdge`: the edge's half-edge h (from v1 to v2) and its opposite h_o are cut out
      of their rings.  Every half-edge met turning around v2 from h_n = h.next up to h_o now
      starts at v1; the predecessors of h and h_o (found by `previous`, returned here) skip to
      h_n and h_on = h_o.next; the faces of h and h_o and the vertex v1 that pointed at h or h_o
      point at the half-edge after it.  Then the edge, h, h_o and v2 are deleted and v1 takes
      the edge's embedded plane.
    */
    method DegenerateEdge(edge: Edge, ghost hs: set<HalfEdge>, ghost p1: nat, ghost p2: nat, ghost reach: nat)
      returns (ghost hp: HalfEdge, ghost hop: HalfEdge)
      requires Distinct(faces) && Collapsible(edge, hs, halfEdges, edges, vertices, faces)
      requires p1 >= 1 && Walk(hs, edge.halfEdge, false, p1) == edge.halfEdge
      requires p2 >= 1 && Walk(hs, edge.halfEdge.opposite, false, p2) == edge.halfEdge.opposite
      requires reach >= 1 && Walk(hs, edge.halfEdge.next, true, reach) == edge.halfEdge.opposite
      modifies this`vertices, this`edges, this`halfEdges, vertices`halfEdge, vertices`embeddedPlane
      modifies halfEdges`origin, halfEdges`opposite, halfEdges`next, halfEdges`edge
      modifies edges`halfEdge, faces`exteriorHalfEdge, faces`interiorHalfEdges
      ensures var h: HalfEdge := old(edge.halfEdge); var ho: HalfEdge := old(h.opposite); var v2: Vertex := old(ho.origin);
        && edges == Without(old(edges), edge) && vertices == Without(old(vertices), v2)
        && ho in Without(old(halfEdges), h) && halfEdges == Without(Without(old(halfEdges), h), ho)
      ensures var h: HalfEdge := old(edge.halfEdge); var ho: HalfEdge := old(h.opposite);
        && hp in old(halfEdges) && old(hp.next) == h && hp.next == old(h.next)
        && hop in old(halfEdges) && old(hop.next) == ho && hop.next == old(ho.next)
      ensures var h: HalfEdge := old(edge.halfEdge); var ho: HalfEdge := old(h.opposite); var hn: HalfEdge := old(h.next);
        forall x :: x in old(Orbit(hs, hn, ho, reach)) && x != h ==> x.origin == old(h.origin)
      ensures var h: HalfEdge := old(edge.halfEdge); var ho: HalfEdge := old(h.opposite); var v1: Vertex := old(h.origin);
        && v1.halfEdge == (if old(v1.halfEdge) == h then old(h.next) else Cut(old(v1.halfEdge), h, ho))
        && v1.embeddedPlane == old(edge.embeddedPlane)
      ensures faces == old(faces)
      ensures var h: HalfEdge := old(edge.halfEdge); var ho: HalfEdge := old(h.opposite); var hn: HalfEdge := old(h.next);
        forall x :: x in old(halfEdges) && x != h && x != ho ==>
          && (x != hp && x != hop ==> x.next == Cut(old(x.next), h, ho))
          && x.opposite == Cut(old(x.opposite), h, ho)
          && x.edge == (if old(x.edge) == edge then null else old(x.edge))
          && x.origin == (if x in old(Orbit(hs, hn, ho, reach)) then old(h.origin) else if old(x.origin) == old(ho.origin) then null else old(x.origin))
      ensures var h: HalfEdge := old(edge.halfEdge); var ho: HalfEdge := old(h.opposite);
        forall e :: e in old(edges) && e != edge ==> e.halfEdge == Cut(old(e.halfEdge), h, ho)
      ensures var h: HalfEdge := old(edge.halfEdge); var ho: HalfEdge := old(h.opposite);
        var f1: Face := old(h.face); var f2: Face := old(ho.face); var hn: HalfEdge := old(h.next); var hon: HalfEdge := old(ho.next);
        forall f :: f in old(faces) ==>
          && f.exteriorHalfEdge == Cut(Bypassed(old(f.exteriorHalfEdge), f, f1, f2, h, hn, ho, hon), h, ho)
          && f.interiorHalfEdges == SpliceOut(SpliceOut(BypassedAll(old(f.interiorHalfEdges), f, f1, f2, h, hn, ho, hon), h), ho)
      ensures var h: HalfEdge := old(edge.halfEdge); var ho: HalfEdge := old(h.opposite);
        forall v :: v in old(vertices) && v != old(h.origin) ==> v.halfEdge == Cut(old(v.halfEdge), h, ho) && v.embeddedPlane == old(v.embeddedPlane)
    {
      var h: HalfEdge := edge.halfEdge;
      var ho: HalfEdge := h.opposite;
      var hPrev := h.Previous(hs, p1);
      var hn: HalfEdge := h.next;
      var hoPrev := ho.Previous(hs, p2);
      var hon: HalfEdge := ho.next;
      ghost var orbit := Orbit(hs, hn, ho, reach);
      assert forall j :: 0 <= j < |orbit| ==> orbit[j] in halfEdges;
      Collapse(edge, h, ho, hPrev, hoPrev, orbit);
      hp, hop := hPrev, hoPrev;
    }

    /**
      The edits of `degenerateEdge` once h_p and h_op are found: the origins along the orbit
      from h_n to h_o move to v1, the rewiring, the deletions, and v1's new embedded plane.
    */
    method Collapse(edge: Edge, h: HalfEdge, ho: HalfEdge, hp: HalfEdge, hop: HalfEdge, ghost orbit: seq<HalfEdge>)
      requires Distinct(faces) && edge in edges && edge.halfEdge == h && h.opposite == ho
      requires h in halfEdges && ho in halfEdges && h != ho && hp in halfEdges && hop in halfEdges
      requires hp.next == h && hop.next == ho && h.next != null && ho.next != null
      requires h.next != h && h.next != ho && ho.next != h && ho.next != ho
      requires h.origin != null && ho.origin != null && h.origin in vertices && ho.origin in vertices && h.origin != ho.origin
      requires h.face != null && ho.face != null && h.face in faces && ho.face in faces
      requires |orbit| >= 1 && orbit[0] == h.next && forall j :: 1 <= j < |orbit| ==> orbit[j] != ho
      requires forall j :: 0 <= j < |orbit| - 1 ==> orbit[j].opposite != null && orbit[j].opposite.next == orbit[j + 1]
      requires orbit[|orbit| - 1].opposite != null && orbit[|orbit| - 1].opposite.next == ho
      requires forall j :: 0 <= j < |orbit| ==> orbit[j] in halfEdges
      modifies this`vertices, this`edges, this`halfEdges, vertices`halfEdge, vertices`embeddedPlane
      modifies halfEdges`origin, halfEdges`opposite, halfEdges`next, halfEdges`edge
      modifies edges`halfEdge, faces`exteriorHalfEdge, faces`interiorHalfEdges
      ensures var v2: Vertex := old(ho.origin);
        && edges == Without(old(edges), edge) && vertices == Without(old(vertices), v2)
        && ho in Without(old(halfEdges), h) && halfEdges == Without(Without(old(halfEdges), h), ho)
      ensures hp.next == old(h.next) && hop.next == old(ho.next)
      ensures forall j :: 0 <= j < |orbit| && orbit[j] != h ==> orbit[j].origin == old(h.origin)
      ensures var v1: Vertex := old(h.origin);
        && v1.halfEdge == (if old(v1.halfEdge) == h then old(h.next) else Cut(old(v1.halfEdge), h, ho))
        && v1.embeddedPlane == old(edge.embeddedPlane)
      ensures faces == old(faces)
      ensures forall x :: x in old(halfEdges) && x != h && x != ho ==>
        && (x != hp && x != hop ==> x.next == Cut(old(x.next), h, ho))
        && x.opposite == Cut(old(x.opposite), h, ho)
        && x.edge == (if old(x.edge) == edge then null else old(x.edge))
        && x.origin == (if x in orbit then old(h.origin) else if old(x.origin) == old(ho.origin) then null else old(x.origin))
      ensures forall e :: e in old(edges) && e != edge ==> e.halfEdge == Cut(old(e.halfEdge), h, ho)
      ensures var f1: Face := old(h.face); var f2: Face := old(ho.face); var hn: HalfEdge := old(h.next); var hon: HalfEdge := old(ho.next);
        forall f :: f in old(faces) ==>
          && f.exteriorHalfEdge == Cut(Bypassed(old(f.exteriorHalfEdge), f, f1, f2, h, hn, ho, hon), h, ho)
          && f.interiorHalfEdges == SpliceOut(SpliceOut(BypassedAll(old(f.interiorHalfEdges), f, f1, f2, h, hn, ho, hon), h), ho)
      ensures forall v :: v in old(vertices) && v != old(h.origin) ==>
        v.halfEdge == Cut(old(v.halfEdge), h, ho) && v.embeddedPlane == old(v.embeddedPlane)
    {
      var plane := edge.embeddedPlane;
      var v1: Vertex := h.origin;
      var v2: Vertex := ho.origin;
      var f1: Face := h.face;
      var f2: Face := ho.face;
      var hn: HalfEdge := h.next;
      var hon: HalfEdge := ho.next;

      assert hp != h && hp != ho && hop != h && hop != ho;
      Rewire(h, hn, hp, ho, hon, hop, f1, f2, v1, orbit);
      label Rewired:
      assert forall j :: 0 <= j < |orbit| ==> orbit[j] != ho;
      assert edges == old(edges) && vertices == old(vertices) && halfEdges == old(halfEdges);
      DeleteCollapsed(edge, h, ho, v2, v1, plane);
      forall x | x in old(halfEdges) && x != h && x != ho && x != hp && x != hop
        ensures x.next == Cut(old(x.next), h, ho)
      {
        assert old@Rewired(x.next) == old(x.next);
      }
      forall x | x in old(halfEdges) && x != h && x != ho
        ensures x.origin == (if x in orbit then v1 else if old(x.origin) == v2 then null else old(x.origin))
      {
        assert old@Rewired(x.origin) == (if x in orbit then v1 else old(x.origin));
      }
      forall f | f in old(faces)
        ensures f.exteriorHalfEdge == Cut(Bypassed(old(f.exteriorHalfEdge), f, f1, f2, h, hn, ho, hon), h, ho)
        ensures f.interiorHalfEdges == SpliceOut(SpliceOut(BypassedAll(old(f.interiorHalfEdges), f, f1, f2, h, hn, ho, hon), h), ho)
      {
        assert old@Rewired(f.exteriorHalfEdge) == Bypassed(old(f.exteriorHalfEdge), f, f1, f2, h, hn, ho, hon);
        assert old@Rewired(f.interiorHalfEdges) == BypassedAll(old(f.interiorHalfEdges), f, f1, f2, h, hn, ho, hon);
      }
      forall x | x in old(halfEdges) && x != h && x != ho
        ensures x.opposite == Cut(old(x.opposite), h, ho) && x.edge == (if old(x.edge) == edge then null else old(x.edge))
      {
        assert old@Rewired(x.opposite) == old(x.opposite) && old@Rewired(x.edge) == old(x.edge);
      }
      forall e | e in old(edges) && e != edge
        ensures e.halfEdge == Cut(old(e.halfEdge), h, ho)
      {
        assert old@Rewired(e.halfEdge) == old(e.halfEdge);
      }
      forall v | v in old(vertices) && v != v1
        ensures v.halfEdge == Cut(old(v.halfEdge), h, ho) && v.embeddedPlane == old(v.embeddedPlane)
      {
        assert old@Rewired(v.halfEdge) == old(v.halfEdge) && old@Rewired(v.embeddedPlane) == old(v.embeddedPlane);
      }
    }

    /** The origins along the orbit move to v1, then the rewiring of `Bypass`. */
    method Rewire(h: HalfEdge, hn: HalfEdge, hp: HalfEdge, ho: HalfEdge, hon: HalfEdge, hop: HalfEdge, f1: Face, f2: Face, v1: Vertex, ghost orbit: seq<HalfEdge>)
      requires hp != hop
      requires |orbit| >= 1 && orbit[0] == hn && forall j :: 1 <= j < |orbit| ==> orbit[j] != ho
      requires forall j :: 0 <= j < |orbit| - 1 ==> orbit[j].opposite != null && orbit[j].opposite.next == orbit[j + 1]
      requires orbit[|orbit| - 1].opposite != null && orbit[|orbit| - 1].opposite.next == ho
      modifies orbit`origin, hp`next, hop`next, f1`exteriorHalfEdge, f2`exteriorHalfEdge, f1`interiorHalfEdges, f2`interiorHalfEdges, v1`halfEdge
      ensures forall x :: x in orbit ==> x.origin == v1
      ensures hp.next == hn && hop.next == hon
      ensures v1.halfEdge == (if old(v1.halfEdge) == h then hn else old(v1.halfEdge))
      ensures f1.exteriorHalfEdge == Bypassed(old(f1.exteriorHalfEdge), f1, f1, f2, h, hn, ho, hon)
      ensures f2.exteriorHalfEdge == Bypassed(old(f2.exteriorHalfEdge), f2, f1, f2, h, hn, ho, hon)
      ensures f1.interiorHalfEdges == BypassedAll(old(f1.interiorHalfEdges), f1, f1, f2, h, hn, ho, hon)
      ensures f2.interiorHalfEdges == BypassedAll(old(f2.interiorHalfEdges), f2, f1, f2, h, hn, ho, hon)
      ensures forall x :: x in halfEdges && x != hp && x != hop ==> x.next == old(x.next)
      ensures forall x :: x in halfEdges && x !in orbit ==> x.origin == old(x.origin)
      ensures forall x :: x in halfEdges ==> x.opposite == old(x.opposite) && x.edge == old(x.edge)
      ensures forall f :: f in faces && f != f1 && f != f2 ==> f.exteriorHalfEdge == old(f.exteriorHalfEdge) && f.interiorHalfEdges == old(f.interiorHalfEdges)
      ensures forall v :: v in vertices && v != v1 ==> v.halfEdge == old(v.halfEdge)
      ensures forall v :: v in vertices ==> v.embeddedPlane == old(v.embeddedPlane)
      ensures forall e :: e in edges ==> e.halfEdge == old(e.halfEdge)
    {
      RotateOrigins(hn, ho, v1, orbit);
      Bypass(h, hn, hp, ho, hon, hop, f1, f2, v1);
    }

    /**
      The rewiring of `degenerateEdge` after the origins: the predecessors of h and h_o skip to
      h_n and h_on, f1's exterior and interior pointers at h move to h_n, then f2's at h_o move
      to h_on, and v1 pointing at h moves to h_n.
    */
    method Bypass(h: HalfEdge, hn: HalfEdge, hp: HalfEdge, ho: HalfEdge, hon: HalfEdge, hop: HalfEdge, f1: Face, f2: Face, v1: Vertex)
      requires hp != hop
      modifies hp`next, hop`next, f1`exteriorHalfEdge, f2`exteriorHalfEdge, f1`interiorHalfEdges, f2`interiorHalfEdges, v1`halfEdge
      ensures hp.next == hn && hop.next == hon
      ensures v1.halfEdge == (if old(v1.halfEdge) == h then hn else old(v1.halfEdge))
      ensures f1.exteriorHalfEdge == Bypassed(old(f1.exteriorHalfEdge), f1, f1, f2, h, hn, ho, hon)
      ensures f2.exteriorHalfEdge == Bypassed(old(f2.exteriorHalfEdge), f2, f1, f2, h, hn, ho, hon)
      ensures f1.interiorHalfEdges == BypassedAll(old(f1.interiorHalfEdges), f1, f1, f2, h, hn, ho, hon)
      ensures f2.interiorHalfEdges == BypassedAll(old(f2.interiorHalfEdges), f2, f1, f2, h, hn, ho, hon)
    {
      hp.next := hn;
      hop.next := hon;
      if f1.exteriorHalfEdge == h {
        f1.exteriorHalfEdge := hn;
      }
      if f2.exteriorHalfEdge == ho {
        f2.exteriorHalfEdge := hon;
      }
      if v1.halfEdge == h {
        v1.halfEdge := hn;
      }
      f1.ReplaceInterior(h, hn);
      f2.ReplaceInterior(ho, hon);
    }

    /** The steps closing `degenerateEdge`: the edge, h, h_o and v2 are deleted, then v1 takes the edge's plane. */
    method DeleteCollapsed(edge: Edge, h: HalfEdge, ho: HalfEdge, v2: Vertex, v1: Vertex, plane: Option<Plane>)
      requires Distinct(faces) && edge in edges && h in halfEdges && ho in halfEdges && h != ho && v2 in vertices
      requires v1 in vertices && v1 != v2
      modifies this`vertices, this`edges, this`halfEdges, vertices`halfEdge, vertices`embeddedPlane
      modifies halfEdges`origin, halfEdges`opposite, halfEdges`next, halfEdges`edge
      modifies edges`halfEdge, faces`exteriorHalfEdge, faces`interiorHalfEdges
      ensures edges == Without(old(edges), edge) && vertices == Without(old(vertices), v2)
      ensures ho in Without(old(halfEdges), h) && halfEdges == Without(Without(old(halfEdges), h), ho)
      ensures faces == old(faces)
      ensures forall x :: x in old(halfEdges) && x != h && x != ho ==>
        && x.next == Cut(old(x.next), h, ho) && x.opposite == Cut(old(x.opposite), h, ho)
        && x.edge == (if old(x.edge) == edge then null else old(x.edge))
        && x.origin == (if old(x.origin) == v2 then null else old(x.origin))
      ensures forall e :: e in old(edges) && e != edge ==> e.halfEdge == Cut(old(e.halfEdge), h, ho)
      ensures forall f :: f in old(faces) ==>
        && f.exteriorHalfEdge == Cut(old(f.exteriorHalfEdge), h, ho)
        && f.interiorHalfEdges == SpliceOut(SpliceOut(old(f.interiorHalfEdges), h), ho)
      ensures forall v :: v in old(vertices) ==> v.halfEdge == Cut(old(v.halfEdge), h, ho)
      ensures forall v :: v in old(vertices) && v != v1 ==> v.embeddedPlane == old(v.embeddedPlane)
      ensures v1.embeddedPlane == plane
    {
      DeleteEdgeAndPair(edge, h, ho);
      DeleteVertex(v2);
      v1.embeddedPlane := plane;
    }

    /** The first three deletions of `degenerateEdge`: the edge, then h and h_o. */
    method DeleteEdgeAndPair(edge: Edge, h: HalfEdge, ho: HalfEdge)
      requires Distinct(faces) && edge in edges && h in halfEdges && ho in halfEdges && h != ho
      modifies this`edges, this`halfEdges, vertices`halfEdge
      modifies halfEdges`opposite, halfEdges`next, halfEdges`edge
      modifies edges`halfEdge, faces`exteriorHalfEdge, faces`interiorHalfEdges
      ensures edges == Without(old(edges), edge)
      ensures ho in Without(old(halfEdges), h) && halfEdges == Without(Without(old(halfEdges), h), ho)
      ensures forall x :: x in old(halfEdges) && x != h && x != ho ==>
        && x in halfEdges
        && x.next == Cut(old(x.next), h, ho) && x.opposite == Cut(old(x.opposite), h, ho)
        && x.edge == (if old(x.edge) == edge then null else old(x.edge))
      ensures forall e :: e in old(edges) && e != edge ==> e.halfEdge == Cut(old(e.halfEdge), h, ho)
      ensures forall f :: f in faces ==>
        && f.exteriorHalfEdge == Cut(old(f.exteriorHalfEdge), h, ho)
        && f.interiorHalfEdges == SpliceOut(SpliceOut(old(f.interiorHalfEdges), h), ho)
      ensures forall v :: v in vertices ==> v.halfEdge == Cut(old(v.halfEdge), h, ho)
    {
      DeleteEdge(edge);
      DeleteHalfEdgePair(h, ho);
    }

    /** `deleteVertex`: the vertex leaves the list and every half-edge starting at it loses its origin. */
    method DeleteVertex(vertex: Vertex)
      requires vertex in vertices
      modifies this`vertices, halfEdges`origin
      ensures vertices == Without(old(vertices), vertex)
      ensures forall x :: x in halfEdges ==> x.origin == (if old(x.origin) == vertex then null else old(x.origin))
    {
      vertices := Without(vertices, vertex);
      var i := 0;
      while i < |halfEdges|
        invariant 0 <= i <= |halfEdges| && vertices == Without(old(vertices), vertex)
        invariant forall k :: 0 <= k < |halfEdges| ==>
          halfEdges[k].origin == (if old(halfEdges[k].origin) == vertex then null else old(halfEdges[k].origin))
          || (k >= i && halfEdges[k].origin == old(halfEdges[k].origin))
      {
        if halfEdges[i].origin == vertex {
          halfEdges[i].origin := null;
        }
        i := i + 1;
      }
    }

    /** `deleteEdge`: the edge leaves the list and every half-edge on it loses its edge. */
    method DeleteEdge(edge: Edge)
      requires edge in edges
      modifies this`edges, halfEdges`edge
      ensures edges == Without(old(edges), edge)
      ensures forall x :: x in halfEdges ==> x.edge == (if old(x.edge) == edge then null else old(x.edge))
    {
      edges := Without(edges, edge);
      var i := 0;
      while i < |halfEdges|
        invariant 0 <= i <= |halfEdges| && edges == Without(old(edges), edge)
        invariant forall k :: 0 <= k < |halfEdges| ==>
          halfEdges[k].edge == (if old(halfEdges[k].edge) == edge then null else old(halfEdges[k].edge))
          || (k >= i && halfEdges[k].edge == old(halfEdges[k].edge))
      {
        if halfEdges[i].edge == edge {
          halfEdges[i].edge := null;
        }
        i := i + 1;
      }
    }

    /** `deleteFace`: the face leaves the list and every half-edge in it loses its face. */
    method DeleteFace(face: Face)
      requires face in faces
      modifies this`faces, halfEdges`face
      ensures faces == Without(old(faces), face)
      ensures forall x :: x in halfEdges ==> x.face == (if old(x.face) == face then null else old(x.face))
    {
      faces := Without(faces, face);
      var i := 0;
      while i < |halfEdges|
        invariant 0 <= i <= |halfEdges| && faces == Without(old(faces), face)
        invariant forall k :: 0 <= k < |halfEdges| ==>
          halfEdges[k].face == (if old(halfEdges[k].face) == face then null else old(halfEdges[k].face))
          || (k >= i && halfEdges[k].face == old(halfEdges[k].face))
      {
        if halfEdges[i].face == face {
          halfEdges[i].face := null;
        }
        i := i + 1;
      }
    }

    /**
      `deleteHalfEdge`: the half-edge leaves the list; vertices, edges and the remaining half-edges
      pointing at it lose that pointer, a face starting its exterior there loses its exterior, and
      the loop over each face's interior list splices it out.
    */
    method DeleteHalfEdge(he: HalfEdge)
      requires he in halfEdges && Distinct(faces)
      modifies this`halfEdges, vertices`halfEdge, edges`halfEdge, halfEdges`opposite, halfEdges`next
      modifies faces`exteriorHalfEdge, faces`interiorHalfEdges
      ensures halfEdges == Without(old(halfEdges), he)
      ensures forall v :: v in vertices ==> v.halfEdge == (if old(v.halfEdge) == he then null else old(v.halfEdge))
      ensures forall e :: e in edges ==> e.halfEdge == (if old(e.halfEdge) == he then null else old(e.halfEdge))
      ensures forall x :: x in old(halfEdges) && x != he ==>
        && x.opposite == (if old(x.opposite) == he then null else old(x.opposite))
        && x.next == (if old(x.next) == he then null else old(x.next))
      ensures forall f :: f in faces ==>
        && f.exteriorHalfEdge == (if old(f.exteriorHalfEdge) == he then null else old(f.exteriorHalfEdge))
        && f.interiorHalfEdges == SpliceOut(old(f.interiorHalfEdges), he)
    {
      halfEdges := Without(halfEdges, he);
      ForgetInVertices(he);
      ForgetInEdges(he);
      ForgetInHalfEdges(he);
      ForgetInFaces(he);
    }

    /** The vertex loop of `deleteHalfEdge`. */
    method ForgetInVertices(he: HalfEdge)
      modifies vertices`halfEdge
      ensures forall v :: v in vertices ==> v.halfEdge == (if old(v.halfEdge) == he then null else old(v.halfEdge))
    {
      var i := 0;
      while i < |vertices|
        invariant 0 <= i <= |vertices|
        invariant forall k :: 0 <= k < |vertices| ==>
          vertices[k].halfEdge == (if old(vertices[k].halfEdge) == he then null else old(vertices[k].halfEdge))
          || (k >= i && vertices[k].halfEdge == old(vertices[k].halfEdge))
      {
        if vertices[i].halfEdge == he {
          vertices[i].halfEdge := null;
        }
        i := i + 1;
      }
    }

    /** The edge loop of `deleteHalfEdge`. */
    method ForgetInEdges(he: HalfEdge)
      modifies edges`halfEdge
      ensures forall e :: e in edges ==> e.halfEdge == (if old(e.halfEdge) == he then null else old(e.halfEdge))
    {
      var i := 0;
      while i < |edges|
        invariant 0 <= i <= |edges|
        invariant forall k :: 0 <= k < |edges| ==>
          edges[k].halfEdge == (if old(edges[k].halfEdge) == he then null else old(edges[k].halfEdge))
          || (k >= i && edges[k].halfEdge == old(edges[k].halfEdge))
      {
        if edges[i].halfEdge == he {
          edges[i].halfEdge := null;
        }
        i := i + 1;
      }
    }

    /** The half-edge loop of `deleteHalfEdge`: opposite and next pointers at the deleted half-edge are cleared. */
    method ForgetInHalfEdges(he: HalfEdge)
      modifies halfEdges`opposite, halfEdges`next
      ensures forall x :: x in halfEdges ==>
        && x.opposite == (if old(x.opposite) == he then null else old(x.opposite))
        && x.next == (if old(x.next) == he then null else old(x.next))
    {
      var i := 0;
      while i < |halfEdges|
        invariant 0 <= i <= |halfEdges|
        invariant forall k :: 0 <= k < |halfEdges| ==>
          (halfEdges[k].opposite == (if old(halfEdges[k].opposite) == he then null else old(halfEdges[k].opposite))
           || (k >= i && halfEdges[k].opposite == old(halfEdges[k].opposite)))
        invariant forall k :: 0 <= k < |halfEdges| ==>
          (halfEdges[k].next == (if old(halfEdges[k].next) == he then null else old(halfEdges[k].next))
           || (k >= i && halfEdges[k].next == old(halfEdges[k].next)))
      {
        var x := halfEdges[i];
        if x.opposite == he {
          x.opposite := null;
        }
        if x.next == he {
          x.next := null;
        }
        i := i + 1;
      }
    }

    /** The face loop of `deleteHalfEdge`. */
    method ForgetInFaces(he: HalfEdge)
      requires Distinct(faces)
      modifies faces`exteriorHalfEdge, faces`interiorHalfEdges
      ensures forall f :: f in faces ==>
        && f.exteriorHalfEdge == (if old(f.exteriorHalfEdge) == he then null else old(f.exteriorHalfEdge))
        && f.interiorHalfEdges == SpliceOut(old(f.interiorHalfEdges), he)
    {
      var i := 0;
      while i < |faces|
        invariant 0 <= i <= |faces|
        invariant forall k :: 0 <= k < i ==>
          && faces[k].exteriorHalfEdge == (if old(faces[k].exteriorHalfEdge) == he then null else old(faces[k].exteriorHalfEdge))
          && faces[k].interiorHalfEdges == SpliceOut(old(faces[k].interiorHalfEdges), he)
        invariant forall k :: i <= k < |faces| ==>
          faces[k].exteriorHalfEdge == old(faces[k].exteriorHalfEdge) && faces[k].interiorHalfEdges == old(faces[k].interiorHalfEdges)
      {
        var face := faces[i];
        if face.exteriorHalfEdge == he {
          face.exteriorHalfEdge := null;
        }
        face.RemoveInterior(he);
        i := i + 1;
      }
    }
  }

  /**
    The face's exterior ring is h, h.next and back to h: two listed half-edges starting at two
    different listed vertices, lying on two different listed edges, whose listed opposites are
    neither of them.
  */
  ghost predicate TwoSided(f: Face, hs: seq<HalfEdge>, es: seq<Edge>, vs: seq<Vertex>)
    reads f, set x | x in hs
  {
    var h := f.exteriorHalfEdge;
    && h != null && h in hs && h.next != null && h.next in hs && h.next.next == h
    && h.opposite != null && h.opposite in hs && h.next.opposite != null && h.next.opposite in hs
    && h.opposite != h && h.opposite != h.next && h.next.opposite != h && h.next.opposite != h.next
    && h.edge != null && h.edge in es && h.next.edge != null && h.next.edge in es && h.edge != h.next.edge
    && h.origin != null && h.origin in vs && h.next.origin != null && h.next.origin in vs && h.origin != h.next.origin
  }

  /**
    Line 84 of `degenerateFace` as written: the face's second half-edge h_n is read as
    h.opposite.next instead of h.next.
  */
  function SecondAsWritten(h: HalfEdge): (r: HalfEdge?)
    requires h.opposite != null
    reads h, h.opposite
    ensures r == h.opposite.next
  {
    h.opposite.next
  }

  /**
    On a two-sided face whose outer half-edge h.opposite continues with a half-edge leaving the
    origin of h (as it does in any consistent mesh, since h.opposite ends there), the as-written
    h_n is not the face's second half-edge, so the rewiring joins the wrong opposites.
  */
  lemma {:induction false} SecondAsWrittenLeavesFace(f: Face, hs: seq<HalfEdge>, es: seq<Edge>, vs: seq<Vertex>)
    requires TwoSided(f, hs, es, vs)
    requires f.exteriorHalfEdge.opposite.next != null
    requires f.exteriorHalfEdge.opposite.next.origin == f.exteriorHalfEdge.origin
    ensures SecondAsWritten(f.exteriorHalfEdge) != f.exteriorHalfEdge.next
  {
  }

  /** A pointer to one of two deleted half-edges is cleared; any other is kept. */
  function Cut(x: HalfEdge?, a: HalfEdge, b: HalfEdge): (r: HalfEdge?)
    ensures r == null <==> x == null || x == a || x == b
    ensures r != null ==> r == x
  {
    if x == a || x == b then null else x
  }

  /**
    The edge can be collapsed: its half-edge h and h's opposite h_o are distinct listed
    half-edges of the linked set hs (whose half-edges are all listed), neither is the other's
    or its own successor, they start at two different listed vertices and lie in listed faces,
    and the edge has an embedded plane.
  */
  ghost predicate Collapsible(e: Edge, hs: set<HalfEdge>, hl: seq<HalfEdge>, es: seq<Edge>, vs: seq<Vertex>, fs: seq<Face>)
    reads e, hs
  {
    && Linked(hs) && (forall x :: x in hs ==> x in hl)
    && e in es && e.embeddedPlane.Some? && e.halfEdge != null && e.halfEdge in hs
    && var h := e.halfEdge; var ho := h.opposite;
    && h != ho && h.next != h && h.next != ho && ho.next != h && ho.next != ho
    && h.origin != null && h.origin in vs && ho.origin != null && ho.origin in vs && h.origin != ho.origin
    && h.face != null && h.face in fs && ho.face != null && ho.face in fs
  }

  /** Where `degenerateEdge` moves a pointer x of face f: f1's h to h_n, then f2's h_o to h_on. */
  function Bypassed(x: HalfEdge?, f: Face, f1: Face, f2: Face, h: HalfEdge, hn: HalfEdge, ho: HalfEdge, hon: HalfEdge): HalfEdge? {
    var y := if f == f1 && x == h then hn else x;
    if f == f2 && y == ho then hon else y
  }

  /** The same for the entries of face f's interior list. */
  function BypassedAll(s: seq<HalfEdge>, f: Face, f1: Face, f2: Face, h: HalfEdge, hn: HalfEdge, ho: HalfEdge, hon: HalfEdge): seq<HalfEdge> {
    var t := if f == f1 then Replaced(s, h, hn) else s;
    if f == f2 then Replaced(t, ho, hon) else t
  }

  /**
    When h_n and h_on are neither h nor h_o, the faces of h and h_o no longer point at either
    after the rewiring, so deleting h and h_o leaves their interior lists as rewired.
  */
  lemma {:induction false} BypassLeavesNoTrace(x: HalfEdge?, s: seq<HalfEdge>, f1: Face, f2: Face, h: HalfEdge, hn: HalfEdge, ho: HalfEdge, hon: HalfEdge)
    requires hn != h && hn != ho && hon != h && hon != ho
    ensures Bypassed(x, f1, f1, f2, h, hn, ho, hon) != h
    ensures Bypassed(x, f2, f1, f2, h, hn, ho, hon) != ho
    ensures h !in BypassedAll(s, f1, f1, f2, h, hn, ho, hon) && ho !in BypassedAll(s, f2, f1, f2, h, hn, ho, hon)
    ensures f1 == f2 ==> SpliceOut(SpliceOut(BypassedAll(s, f1, f1, f2, h, hn, ho, hon), h), ho) == BypassedAll(s, f1, f1, f2, h, hn, ho, hon)
  {
    ReplacedRemoves(s, h, hn);
    ReplacedRemoves(s, ho, hon);
    ReplacedRemoves(Replaced(s, h, hn), ho, hon);
    if f1 == f2 {
      var t := BypassedAll(s, f1, f1, f2, h, hn, ho, hon);
      assert h !in t;
      SpliceOutAbsent(t, h);
      SpliceOutAbsent(t, ho);
    }
  }

  /** `a` with every a replaced by b. */
  function Replaced<T(==)>(s: seq<T>, a: T, b: T): (r: seq<T>) {
    seq(|s|, i requires 0 <= i < |s| => if s[i] == a then b else s[i])
  }

  /** Replacing a by another value leaves no a, keeps every other entry, and brings in b only for an a. */
  lemma {:induction false} ReplacedRemoves<T>(s: seq<T>, a: T, b: T)
    requires a != b
    ensures a !in Replaced(s, a, b)
    ensures forall y :: y in Replaced(s, a, b) <==> (y in s && y != a) || (y == b && a in s)
  {
    var r := Replaced(s, a, b);
    forall y | y in s && y != a
      ensures y in r
    {
      var i :| 0 <= i < |s| && s[i] == y;
      assert r[i] == y;
    }
    if a in s {
      var i :| 0 <= i < |s| && s[i] == a;
      assert r[i] == b;
    }
  }

  /** The splicing loop leaves a list without x as it is. */
  lemma {:induction false} SpliceOutAbsent<T>(s: seq<T>, x: T)
    requires x !in s
    ensures SpliceOut(s, x) == s
    decreases |s|
  {
    if s != [] {
      assert s[0] != x && x !in s[1..];
      SpliceOutAbsent(s[1..], x);
    }
  }

  /** The first n half-edges of the walk from h. */
  ghost function WalkPrefix(hs: set<HalfEdge>, h: HalfEdge, spin: bool, n: nat): (r: seq<HalfEdge>)
    requires Linked(hs) && h in hs
    reads hs
    ensures |r| == n && forall j :: 0 <= j < n ==> r[j] == Walk(hs, h, spin, j)
  {
    if n == 0 then [] else WalkPrefix(hs, h, spin, n - 1) + [Walk(hs, h, spin, n - 1)]
  }

  /** The half-edges met turning around the origin of `start`, from `start` until the walk reaches `stop`. */
  ghost function Orbit(hs: set<HalfEdge>, start: HalfEdge, stop: HalfEdge, reach: nat): (r: seq<HalfEdge>)
    requires Linked(hs) && start in hs && reach >= 1 && Walk(hs, start, true, reach) == stop
    reads hs
    ensures |r| >= 1 && r[0] == start
    ensures forall j :: 0 <= j < |r| ==> r[j] in hs
    ensures forall j :: 1 <= j < |r| ==> r[j] != stop
    ensures forall j :: 0 <= j < |r| - 1 ==> r[j].opposite.next == r[j + 1]
    ensures r[|r| - 1].opposite.next == stop
  {
    var m := FirstHit(hs, start, true, stop, 1, reach);
    var r := WalkPrefix(hs, start, true, m);
    assert forall j :: 0 <= j < m ==> Walk(hs, start, true, j + 1) == r[j].opposite.next;
    r
  }

  /**
    The origin loop of `degenerateEdge`: walking from `start` by
    opposite-then-next until `stop`, every half-edge met takes the origin v.  The orbit is the
    ghost list of the half-edges the walk meets before `stop`.
  */
  method RotateOrigins(start: HalfEdge, stop: HalfEdge, v: Vertex, ghost orbit: seq<HalfEdge>)
    requires |orbit| >= 1 && orbit[0] == start && forall j :: 1 <= j < |orbit| ==> orbit[j] != stop
    requires forall j :: 0 <= j < |orbit| - 1 ==> orbit[j].opposite != null && orbit[j].opposite.next == orbit[j + 1]
    requires orbit[|orbit| - 1].opposite != null && orbit[|orbit| - 1].opposite.next == stop
    modifies orbit`origin
    ensures forall x :: x in orbit ==> x.origin == v
  {
    var hf := start;
    ghost var i := 0;
    while true
      invariant 0 <= i < |orbit| && hf == orbit[i]
      invariant forall j :: 0 <= j < i ==> orbit[j].origin == v
      decreases |orbit| - i
    {
      hf.origin := v;
      hf := hf.opposite.next;
      assert i + 1 < |orbit| ==> hf == orbit[i + 1] && hf != stop;
      if hf == stop {
        return;
      }
      i := i + 1;
    }
  }

  /** The edge has a half-edge with an opposite, and both have an origin. */
  ghost predicate EdgeEnds(e: Edge)
    reads e, e.halfEdge, if e.halfEdge != null then {e.halfEdge.opposite} else {}
  {
    e.halfEdge != null && e.halfEdge.opposite != null && e.halfEdge.origin != null && e.halfEdge.opposite.origin != null
  }

  /**
    The vertex's plane is moved through its position when `done`, and otherwise still the one it
    started with or already moved (a vertex listed twice is moved on its first visit).
  */
  ghost predicate VertexPlaneMoved(v: Vertex, start: Option<Plane>, position: Vertex -> Point, default: Vertex -> Plane, done: bool)
    reads v
  {
    var moved := Some(Through(BasePlane(start, default(v)), position(v)));
    v.embeddedPlane == moved || (!done && v.embeddedPlane == start)
  }

  /** The same for an edge's plane, moved halfway between its endpoints. */
  ghost predicate EdgePlaneMoved(e: Edge, start: Option<Plane>, position: Vertex -> Point, default: Edge -> Plane, done: bool)
    reads e, e.halfEdge, if e.halfEdge != null then {e.halfEdge.opposite} else {}
    requires EdgeEnds(e)
  {
    var moved := Some(Midway(BasePlane(start, default(e)), position(e.halfEdge.origin), position(e.halfEdge.opposite.origin)));
    e.embeddedPlane == moved || (!done && e.embeddedPlane == start)
  }

  // ----- splitVertexIntoFace -----

  /** The index `(m + k - 1) % m` of the ring position before k. */
  function Before(m: nat, k: nat): (r: nat)
    requires k < m
    ensures r < m && r == (m + k - 1) % m
    ensures r != k || m == 1
  {
    if k == 0 then m - 1 else k - 1
  }

  /**
    Position k of the ring left by the inner loop of `splitVertexIntoFace` over m entries: the
    k-th interior half-edge and the exterior one at position `(m + k - 1) % m` are each other's
    opposite and share that exterior half-edge's edge, and the interior one at the same position
    follows it.
  */
  ghost predicate PairedAt(exterior: seq<HalfEdge>, interior: seq<HalfEdge>, k: nat)
    requires |exterior| == |interior| && k < |interior|
    reads interior[k], exterior[Before(|interior|, k)]
  {
    var j := Before(|interior|, k);
    interior[k].opposite == exterior[j] && exterior[j].opposite == interior[k] &&
    interior[k].edge == exterior[j].edge && interior[k].next == interior[j]
  }

  /** The whole ring is paired. */
  ghost predicate Paired(exterior: seq<HalfEdge>, interior: seq<HalfEdge>)
    reads exterior, interior
  {
    |exterior| == |interior| && forall k :: 0 <= k < |interior| ==> PairedAt(exterior, interior, k)
  }

  /** Appending a new entity keeps a list free of repeats. */
  lemma {:induction false} DistinctAppend<T>(s: seq<T>, x: T)
    requires Distinct(s) && x !in s
    ensures Distinct(s + [x])
  {
  }

  /** Appending a new half-edge to each list keeps them apart. */
  lemma {:induction false} ApartAppend(exterior: seq<HalfEdge>, interior: seq<HalfEdge>, x: HalfEdge, y: HalfEdge)
    requires Apart(exterior, interior) && x !in interior && y !in exterior && x != y
    ensures Apart(exterior + [x], interior + [y])
  {
  }

  /** No half-edge is in both lists. */
  ghost predicate Apart(exterior: seq<HalfEdge>, interior: seq<HalfEdge>) {
    forall a, b :: 0 <= a < |exterior| && 0 <= b < |interior| ==> exterior[a] != interior[b]
  }

  /** The inner loop of `splitVertexIntoFace`, over the half-edges made so far. */
  method Relink(exterior: seq<HalfEdge>, interior: seq<HalfEdge>)
    requires |exterior| == |interior| >= 1
    requires Distinct(exterior) && Distinct(interior) && Apart(exterior, interior)
    modifies exterior`opposite, interior`opposite, interior`edge, interior`next
    ensures Paired(exterior, interior)
  {
    var n := |interior|;
    for i := 0 to n
      invariant forall k :: 0 <= k < i ==> PairedAt(exterior, interior, k)
    {
      var halfEdgeInt := interior[i];
      var halfEdgeExt := exterior[(n + i - 1) % n];
      assert forall k :: 0 <= k < i ==> Before(n, k) != Before(n, i);
      halfEdgeExt.opposite := halfEdgeInt;
      halfEdgeInt.opposite := halfEdgeExt;
      halfEdgeInt.edge := halfEdgeExt.edge;
      halfEdgeInt.next := interior[(n + i - 1) % n];
    }
  }

  /** The index `(k + 1) % m` of the ring position after k. */
  function After(m: nat, k: nat): (r: nat)
    requires k < m
    ensures r < m && r == (k + 1) % m
  {
    if k + 1 < m then k + 1 else 0
  }

  /**
    `splitVertexIntoFace`, its rewiring: the half-edges leaving the vertex, in the order met
    turning around it (`orbit`, whose opposites are `opposites`), each start at a vertex of
    their own, the first keeping the old one and the others at new vertices; a new face is
    put in the vertex's place, ringed by one new exterior half-edge and one new interior
    half-edge per corner, and every exterior one on a new edge.  The returned lists are the
    locals of the operation; nothing is added to the structure's lists.
  */
  method SplitVertexIntoFace(vertex: Vertex, ghost orbit: seq<HalfEdge>, ghost opposites: seq<HalfEdge>)
    returns (vertices: seq<Vertex>, exterior: seq<HalfEdge>, interior: seq<HalfEdge>, newFace: Face)
    requires vertex.embeddedPlane.Some?
    requires |orbit| >= 2 && vertex.halfEdge == orbit[0] && Distinct(orbit)
    requires |opposites| == |orbit| && Distinct(opposites)
    requires forall k {:trigger opposites[k]} :: 0 <= k < |orbit| ==> orbit[k].opposite == opposites[k]
    requires forall k :: 0 <= k < |orbit| - 1 ==> opposites[k].next == orbit[k + 1]
    requires opposites[|orbit| - 1].next == orbit[0]
    modifies orbit`origin, opposites`next
    ensures |vertices| == |exterior| == |interior| == |orbit|
    ensures vertices[0] == vertex && orbit[0].origin == old(orbit[0].origin)
    ensures forall k {:trigger vertices[k]} :: 1 <= k < |orbit| ==>
      fresh(vertices[k]) && vertices[k].point == Origin && vertices[k].halfEdge == orbit[k] && orbit[k].origin == vertices[k]
    ensures fresh(newFace) && newFace.plane == vertex.embeddedPlane.value
    ensures newFace.exteriorHalfEdge == interior[0] && newFace.interiorHalfEdges == []
    ensures forall k :: 0 <= k < |orbit| ==> fresh(exterior[k]) && fresh(interior[k])
    ensures Distinct(exterior) && Distinct(interior) && Apart(exterior, interior)
    ensures forall k {:trigger exterior[k]} :: 0 <= k < |orbit| ==>
      Cornered(opposites[k], exterior[k], interior[k], vertices[k], orbit[After(|orbit|, k)], newFace)
    ensures Paired(exterior, interior)
  {
    var plane := vertex.embeddedPlane.value;
    var h: HalfEdge := vertex.halfEdge;
    vertices := CornerVertices(vertex, orbit, opposites);
    newFace := new Face(plane, null, []);
    exterior, interior := BuildRing(h, vertices, newFace, orbit, opposites);
  }

  /**
    The second loop of `splitVertexIntoFace`, one pass per half-edge leaving the vertex from its
    own, and the new face's exterior half-edge set to the first interior one.
  */
  method BuildRing(h: HalfEdge, vertices: seq<Vertex>, newFace: Face, ghost orbit: seq<HalfEdge>, ghost opposites: seq<HalfEdge>)
    returns (exterior: seq<HalfEdge>, interior: seq<HalfEdge>)
    requires |orbit| >= 2 && h == orbit[0] && (forall k :: 1 <= k < |orbit| ==> orbit[k] != h) && |vertices| == |orbit|
    requires |opposites| == |orbit| && Distinct(opposites)
    requires forall k {:trigger opposites[k]} :: 0 <= k < |orbit| ==> orbit[k].opposite == opposites[k]
    requires forall k :: 0 <= k < |orbit| - 1 ==> opposites[k].next == orbit[k + 1]
    requires opposites[|orbit| - 1].next == h
    modifies opposites`next, newFace`exteriorHalfEdge
    ensures |exterior| == |interior| == |orbit|
    ensures forall k :: 0 <= k < |orbit| ==> fresh(exterior[k]) && fresh(interior[k])
    ensures Distinct(exterior) && Distinct(interior) && Apart(exterior, interior)
    ensures forall k {:trigger exterior[k]} :: 0 <= k < |orbit| ==>
      Cornered(opposites[k], exterior[k], interior[k], vertices[k], if k + 1 < |orbit| then orbit[k + 1] else h, newFace)
    ensures Paired(exterior, interior) && newFace.exteriorHalfEdge == interior[0]
  {
    var n := |orbit|;
    exterior, interior := [], [];
    var he := h;
    var j := 0;
    var more := true;
    while more
      invariant 0 <= j <= n && (more ==> j < n && he == orbit[j]) && (!more ==> j == n)
      invariant |exterior| == |interior| == j
      invariant forall k :: 0 <= k < j ==> fresh(exterior[k]) && fresh(interior[k])
      invariant Distinct(exterior) && Distinct(interior) && Apart(exterior, interior)
      invariant forall k :: 0 <= k < n ==> opposites[k] !in exterior && opposites[k] !in interior
      invariant j >= 1 ==> Paired(exterior, interior)
      invariant forall k :: j <= k < n - 1 ==> opposites[k].next == orbit[k + 1]
      invariant j < n ==> opposites[n - 1].next == h
      invariant forall k {:trigger exterior[k]} :: 0 <= k < j ==>
        Cornered(opposites[k], exterior[k], interior[k], vertices[k], if k + 1 < n then orbit[k + 1] else h, newFace)
      decreases n - j
    {
      assert he.opposite == opposites[j];
      var heO: HalfEdge := he.opposite;
      var newExt, newInt, heOn := AddCorner(j, heO, vertices, newFace, exterior, interior, h, orbit, opposites);
      exterior := exterior + [newExt];
      interior := interior + [newInt];
      he := heOn;
      j := j + 1;
      more := he != h;
    }
    newFace.exteriorHalfEdge := interior[0];
  }

  /** The first loop of `splitVertexIntoFace`: every other half-edge leaving the vertex gets a new vertex at the origin. */
  method CornerVertices(vertex: Vertex, ghost orbit: seq<HalfEdge>, ghost opposites: seq<HalfEdge>) returns (vertices: seq<Vertex>)
    requires |orbit| >= 2 && vertex.halfEdge == orbit[0] && Distinct(orbit)
    requires |opposites| == |orbit|
    requires forall k {:trigger opposites[k]} :: 0 <= k < |orbit| ==> orbit[k].opposite == opposites[k]
    requires forall k :: 0 <= k < |orbit| - 1 ==> opposites[k].next == orbit[k + 1]
    requires opposites[|orbit| - 1].next == orbit[0]
    modifies orbit`origin
    ensures |vertices| == |orbit| && vertices[0] == vertex && orbit[0].origin == old(orbit[0].origin)
    ensures forall k {:trigger vertices[k]} :: 1 <= k < |orbit| ==>
      fresh(vertices[k]) && vertices[k].point == Origin && vertices[k].halfEdge == orbit[k] && orbit[k].origin == vertices[k]
  {
    var n := |orbit|;
    var h: HalfEdge := vertex.halfEdge;
    vertices := [vertex];
    assert h.opposite == opposites[0];
    var he: HalfEdge := h.opposite.next;
    ghost var i: nat := 1;
    while he != h
      invariant 1 <= i <= n && he == (if i < n then orbit[i] else orbit[0])
      invariant |vertices| == i && vertices[0] == vertex && orbit[0].origin == old(orbit[0].origin)
      invariant forall k :: 1 <= k < i ==> allocated(vertices[k]) && fresh(vertices[k])
      invariant forall k :: 1 <= k < i ==> vertices[k].point == Origin
      invariant forall k :: 1 <= k < i ==> vertices[k].halfEdge == orbit[k]
      invariant forall k :: 1 <= k < i ==> orbit[k].origin == vertices[k]
      decreases n - i
    {
      assert forall k :: 0 <= k < i ==> orbit[k] != he;
      assert he == orbit[i] && he.opposite == opposites[i];
      assert he.opposite.next == (if i + 1 < n then orbit[i + 1] else orbit[0]);
      var newVertex := NewVertexAt(he);
      vertices := vertices + [newVertex];
      he := he.opposite.next;
      i := i + 1;
    }
  }

  /** One pass of that loop: a new vertex at the origin, leaving by he, and he starting there. */
  method NewVertexAt(he: HalfEdge) returns (v: Vertex)
    modifies he`origin
    ensures fresh(v) && v.point == Origin && v.halfEdge == he && he.origin == v
  {
    v := new Vertex(Origin, he);
    he.origin := v;
  }

  /**
    A corner as made: the exterior half-edge x starts at v, leads on to after, lies on face f and is
    on edge e, whose half-edge it is, and the interior half-edge y starts at v on the new face.
  */
  ghost predicate Cornered(o: HalfEdge, x: HalfEdge, y: HalfEdge, v: Vertex, after: HalfEdge?, newFace: Face)
    reads o`next, o`face, x`origin, x`next, x`face, x`edge, {x.edge}`halfEdge, y`origin, y`face
  {
    o.next == x && x.origin == v && x.next == after && x.face == o.face && x.edge != null && x.edge.halfEdge == x &&
    y.origin == v && y.face == newFace
  }

  /**
    One pass of the second loop of `splitVertexIntoFace`, up to its inner loop: a corner made for
    the j-th half-edge leaving the vertex, whose opposite is heO.
  */
  method NewCorner(j: nat, heO: HalfEdge, vertices: seq<Vertex>, newFace: Face, exterior: seq<HalfEdge>, interior: seq<HalfEdge>,
                ghost h: HalfEdge, ghost orbit: seq<HalfEdge>, ghost opposites: seq<HalfEdge>)
    returns (newExt: HalfEdge, newInt: HalfEdge, heOn: HalfEdge?)
    requires j < |orbit| == |opposites| == |vertices| && heO == opposites[j] && Distinct(opposites)
    requires |exterior| == |interior| == j && Distinct(exterior) && Distinct(interior) && Apart(exterior, interior)
    requires forall k :: 0 <= k < |opposites| ==> opposites[k] !in exterior && opposites[k] !in interior
    requires forall k {:trigger exterior[k]} :: 0 <= k < j ==>
      Cornered(opposites[k], exterior[k], interior[k], vertices[k], if k + 1 < |orbit| then orbit[k + 1] else h, newFace)
    requires forall k :: j <= k < |orbit| - 1 ==> opposites[k].next == orbit[k + 1]
    requires opposites[|orbit| - 1].next == h
    modifies heO`next
    ensures fresh(newExt) && fresh(newInt)
    ensures Distinct(exterior + [newExt]) && Distinct(interior + [newInt]) && Apart(exterior + [newExt], interior + [newInt])
    ensures forall k :: 0 <= k < |opposites| ==> opposites[k] !in exterior + [newExt] && opposites[k] !in interior + [newInt]
    ensures heOn == if j + 1 < |orbit| then orbit[j + 1] else h
    ensures forall k :: 0 <= k <= j ==>
      Cornered(opposites[k], (exterior + [newExt])[k], (interior + [newInt])[k], vertices[k], if k + 1 < |orbit| then orbit[k + 1] else h, newFace)
    ensures forall k :: j + 1 <= k < |orbit| - 1 ==> opposites[k].next == orbit[k + 1]
    ensures j + 1 < |orbit| ==> opposites[|orbit| - 1].next == h
  {
    heOn := heO.next;
    var extFace := heO.face;
    var newEdge := new Edge(null);
    newExt := new HalfEdge(vertices[j], null, heOn, extFace, newEdge);
    newInt := new HalfEdge(vertices[j], null, null, newFace, null);
    newEdge.halfEdge := newExt;
    heO.next := newExt;
    DistinctAppend(exterior, newExt);
    DistinctAppend(interior, newInt);
    ApartAppend(exterior, interior, newExt, newInt);
  }

  /** One pass of the second loop of `splitVertexIntoFace`. */
  method AddCorner(j: nat, heO: HalfEdge, vertices: seq<Vertex>, newFace: Face, exterior: seq<HalfEdge>, interior: seq<HalfEdge>,
                   ghost h: HalfEdge, ghost orbit: seq<HalfEdge>, ghost opposites: seq<HalfEdge>)
    returns (newExt: HalfEdge, newInt: HalfEdge, heOn: HalfEdge?)
    requires j < |orbit| == |opposites| == |vertices| && heO == opposites[j] && Distinct(opposites)
    requires |exterior| == |interior| == j && Distinct(exterior) && Distinct(interior) && Apart(exterior, interior)
    requires forall k :: 0 <= k < |opposites| ==> opposites[k] !in exterior && opposites[k] !in interior
    requires forall k {:trigger exterior[k]} :: 0 <= k < j ==>
      Cornered(opposites[k], exterior[k], interior[k], vertices[k], if k + 1 < |orbit| then orbit[k + 1] else h, newFace)
    requires forall k :: j <= k < |orbit| - 1 ==> opposites[k].next == orbit[k + 1]
    requires opposites[|orbit| - 1].next == h
    modifies heO`next, exterior`opposite, interior`opposite, interior`edge, interior`next
    ensures fresh(newExt) && fresh(newInt)
    ensures Distinct(exterior + [newExt]) && Distinct(interior + [newInt]) && Apart(exterior + [newExt], interior + [newInt])
    ensures forall k :: 0 <= k < |opposites| ==> opposites[k] !in exterior + [newExt] && opposites[k] !in interior + [newInt]
    ensures heOn == if j + 1 < |orbit| then orbit[j + 1] else h
    ensures forall k :: 0 <= k <= j ==>
      Cornered(opposites[k], (exterior + [newExt])[k], (interior + [newInt])[k], vertices[k], if k + 1 < |orbit| then orbit[k + 1] else h, newFace)
    ensures forall k :: j + 1 <= k < |orbit| - 1 ==> opposites[k].next == orbit[k + 1]
    ensures j + 1 < |orbit| ==> opposites[|orbit| - 1].next == h
    ensures Paired(exterior + [newExt], interior + [newInt])
  {
    newExt, newInt, heOn := NewCorner(j, heO, vertices, newFace, exterior, interior, h, orbit, opposites);
    RelinkCorners(exterior + [newExt], interior + [newInt], vertices, newFace, h, orbit, opposites);
  }

  /** The inner loop of a pass, which leaves every corner made so far as it was made. */
  method RelinkCorners(exterior: seq<HalfEdge>, interior: seq<HalfEdge>, vertices: seq<Vertex>, newFace: Face,
                       ghost h: HalfEdge, ghost orbit: seq<HalfEdge>, ghost opposites: seq<HalfEdge>)
    requires 1 <= |exterior| == |interior| <= |orbit| == |opposites| == |vertices|
    requires Distinct(exterior) && Distinct(interior) && Apart(exterior, interior)
    requires forall k :: 0 <= k < |opposites| ==> opposites[k] !in interior
    requires forall k {:trigger exterior[k]} :: 0 <= k < |exterior| ==>
      Cornered(opposites[k], exterior[k], interior[k], vertices[k], if k + 1 < |orbit| then orbit[k + 1] else h, newFace)
    modifies exterior`opposite, interior`opposite, interior`edge, interior`next
    ensures Paired(exterior, interior)
    ensures forall k {:trigger exterior[k]} :: 0 <= k < |exterior| ==>
      Cornered(opposites[k], exterior[k], interior[k], vertices[k], if k + 1 < |orbit| then orbit[k + 1] else h, newFace)
  {
    Relink(exterior, interior);
  }

}
