/**
  The index-based half-edge store: four tables of parallel arrays (points, half-edges, edges,
  faces) addressed by integer handles, with a `count` per table.  Every array is a `seq` field
  that the methods reassign, so `push` is an append and `splice` a removal.

  JavaScript's null and undefined in an integer slot are both written NULL; the store itself
  writes -1 for a reference to a deleted half-edge, which is a different value.  Reading an array
  outside its bounds yields undefined, so `At` yields NULL there.
*/
module MeshStore {
  import opened Wrappers
  import opened ExactGeometry

  const NULL: int := -2

  /** `s[h]` as JavaScript reads it: undefined (NULL) outside the array, negative handles included. */
  function At(s: seq<int>, h: int): int {
    if 0 <= h < |s| then s[h] else NULL
  }

  /**
    An embedded-plane slot: never assigned (undefined), the default `[NaN, NaN, NaN, NaN]`
    that `add` stores, or an exact plane.
  */
  datatype PlaneSlot = Unset | Placeholder | Given(plane: Plane)

  /**
    `Array.prototype.splice(k, 1)` for a start k >= 0: slot k disappears when the array has
    one, and the array is left alone when k is past its end.
  */
  function Splice<T>(s: seq<T>, k: nat): (r: seq<T>)
    ensures |r| == if k < |s| then |s| - 1 else |s|
    ensures forall i :: 0 <= i < |r| ==> r[i] == s[if i < k then i else i + 1]
  {
    if k < |s| then s[..k] + s[k + 1..] else s
  }

  /**
    Where an entry of a table lands once slot h is removed: entries before h keep their handle,
    entries after h move down by one.
  */
  function Shift(i: int, h: int): int {
    if i < h then i else i - 1
  }

  /** The reference rewrite of `HalfEdgeData.delete(h)`: h becomes -1, larger handles drop by one. */
  function Renumber(x: int, h: nat): int {
    if x == h then -1 else if x > h then x - 1 else x
  }

  function RenumberAll(s: seq<int>, h: nat): (r: seq<int>)
    ensures |r| == |s|
    ensures forall i :: 0 <= i < |s| ==> r[i] == Renumber(s[i], h)
  {
    seq(|s|, i requires 0 <= i < |s| => Renumber(s[i], h))
  }

  /**
    Deleting half-edge h keeps every link between surviving half-edges: the entry that was at i
    is now at Shift(i, h), and the half-edge it referred to is referred to at its own new handle.
    A link to h itself is cut to -1, and null references stay null.
  */
  lemma {:induction false} DeleteKeepsLinks(s: seq<int>, h: nat, i: nat)
    requires h < |s| && i < |s| && i != h
    ensures 0 <= Shift(i, h) < |s| - 1
    ensures s[i] == h ==> RenumberAll(Splice(s, h), h)[Shift(i, h)] == -1
    ensures s[i] != h && 0 <= s[i] < |s| ==> RenumberAll(Splice(s, h), h)[Shift(i, h)] == Shift(s[i], h)
    ensures s[i] == NULL ==> RenumberAll(Splice(s, h), h)[Shift(i, h)] == NULL
  {
    var t := Splice(s, h);
    assert t[Shift(i, h)] == s[i];
  }

  /** A table whose references all name a slot, -1 or null. */
  predicate RefsInRange(s: seq<int>, n: int) {
    forall i :: 0 <= i < |s| ==> s[i] == NULL || -1 <= s[i] < n
  }

  /** Deleting a slot of a table of n entries leaves every reference inside the n - 1 that remain. */
  lemma {:induction false} DeleteKeepsRefsInRange(s: seq<int>, h: nat)
    requires h < |s| && RefsInRange(s, |s|)
    ensures RefsInRange(RenumberAll(Splice(s, h), h), |s| - 1)
  {
    var t := Splice(s, h);
    forall i | 0 <= i < |t|
      ensures RenumberAll(t, h)[i] == NULL || -1 <= RenumberAll(t, h)[i] < |s| - 1
    {
      assert t[i] == s[if i < h then i else i + 1];
    }
  }

  /** One step along `next` over a snapshot of nextIndex. */
  function NextStep(next: seq<int>): int -> int {
    h => At(next, h)
  }

  /** One step of `opposite` then `next`: the next half-edge leaving the same point. */
  function SpinStep(opp: seq<int>, next: seq<int>): int -> int {
    h => At(next, At(opp, h))
  }

  /** k steps of `step` from h. */
  ghost function Iterate(step: int -> int, h: int, k: nat): int {
    if k == 0 then h else step(Iterate(step, h, k - 1))
  }

  /** One step after k steps is k steps after one step. */
  lemma {:induction false} IterateShift(step: int -> int, h: int, k: nat)
    ensures Iterate(step, step(h), k) == step(Iterate(step, h, k))
    decreases k
  {
    if k > 0 {
      IterateShift(step, h, k - 1);
    }
  }

  /** Every element of a closed walk of length `period` closes after `period` steps as well. */
  lemma {:induction false} IteratePeriodic(step: int -> int, h: int, period: nat, t: nat)
    requires Iterate(step, h, period) == h
    ensures Iterate(step, Iterate(step, h, t), period) == Iterate(step, h, t)
    decreases t
  {
    if t > 0 {
      IteratePeriodic(step, h, period, t - 1);
      IterateShift(step, Iterate(step, h, t - 1), period);
    }
  }

  /** `HalfEdgeData`: origin point, opposite, next, face and edge of every half-edge. */
  class HalfEdgeData {
    var pIndex: seq<int>
    var oppIndex: seq<int>
    var nextIndex: seq<int>
    var fIndex: seq<int>
    var eIndex: seq<int>
    var count: int

    /** The five arrays are parallel and `count` is their length. */
    ghost predicate Valid()
      reads this
    {
      && |pIndex| == count
      && |oppIndex| == count
      && |nextIndex| == count
      && |fIndex| == count
      && |eIndex| == count
    }

    constructor (pIndex: seq<int>, oppIndex: seq<int>, nextIndex: seq<int>, fIndex: seq<int>, eIndex: seq<int>)
      ensures this.pIndex == pIndex && this.oppIndex == oppIndex && this.nextIndex == nextIndex
      ensures this.fIndex == fIndex && this.eIndex == eIndex
      ensures count == |pIndex|
      ensures Valid() <==> |oppIndex| == |nextIndex| == |fIndex| == |eIndex| == |pIndex|
    {
      this.pIndex := pIndex;
      this.oppIndex := oppIndex;
      this.nextIndex := nextIndex;
      this.fIndex := fIndex;
      this.eIndex := eIndex;
      count := |pIndex|;
    }

    function Next(h: int): int
      reads this
    {
      At(nextIndex, h)
    }

    function Opposite(h: int): int
      reads this
    {
      At(oppIndex, h)
    }

    function Vertex(h: int): int
      reads this
    {
      At(pIndex, h)
    }

    function Face(h: int): int
      reads this
    {
      At(fIndex, h)
    }

    /** `targetPoint`: the origin of the next half-edge. */
    function TargetPoint(h: int): int
      reads this
    {
      Vertex(Next(h))
    }

    /** k steps along `next` from h. */
    ghost function Follow(h: int, k: nat): int
      reads this
    {
      Iterate(NextStep(nextIndex), h, k)
    }

    /** k steps of `opposite` then `next` from h: the orbit of half-edges leaving one point. */
    ghost function Spin(h: int, k: nat): int
      reads this
    {
      Iterate(SpinStep(oppIndex, nextIndex), h, k)
    }

    /** `add`: one entry appended to each array; existing entries are untouched. */
    method Add(p: int, opp: int, next: int, f: int, e: int)
      modifies this
      ensures pIndex == old(pIndex) + [p] && oppIndex == old(oppIndex) + [opp]
      ensures nextIndex == old(nextIndex) + [next] && fIndex == old(fIndex) + [f]
      ensures eIndex == old(eIndex) + [e]
      ensures count == old(count) + 1
      ensures old(Valid()) ==> Valid()
    {
      pIndex := pIndex + [p];
      oppIndex := oppIndex + [opp];
      nextIndex := nextIndex + [next];
      fIndex := fIndex + [f];
      eIndex := eIndex + [e];
      count := count + 1;
    }

    /**
      `delete(h)`: slot h leaves all five arrays, then every opposite and next reference is
      renumbered; origin, face and edge references are kept as they are.
    */
    method Delete(h: nat)
      requires Valid() && h < count
      modifies this
      ensures Valid() && count == old(count) - 1
      ensures pIndex == Splice(old(pIndex), h)
      ensures fIndex == Splice(old(fIndex), h)
      ensures eIndex == Splice(old(eIndex), h)
      ensures oppIndex == RenumberAll(Splice(old(oppIndex), h), h)
      ensures nextIndex == RenumberAll(Splice(old(nextIndex), h), h)
    {
      pIndex := Splice(pIndex, h);
      oppIndex := Splice(oppIndex, h);
      nextIndex := Splice(nextIndex, h);
      fIndex := Splice(fIndex, h);
      eIndex := Splice(eIndex, h);
      count := count - 1;
      RenumberLinks(h);
    }

    /** The loop of `delete`: every opposite and next reference renumbered past the removed slot h. */
    method RenumberLinks(h: nat)
      requires |oppIndex| == |nextIndex|
      modifies this`oppIndex, this`nextIndex
      ensures oppIndex == RenumberAll(old(oppIndex), h)
      ensures nextIndex == RenumberAll(old(nextIndex), h)
    {
      ghost var opp0, next0 := oppIndex, nextIndex;
      var i := 0;
      while i < |oppIndex|
        invariant 0 <= i <= |oppIndex| == |nextIndex| == |opp0| == |next0|
        invariant forall k :: 0 <= k < |opp0| ==> oppIndex[k] == if k < i then Renumber(opp0[k], h) else opp0[k]
        invariant forall k :: 0 <= k < |next0| ==> nextIndex[k] == if k < i then Renumber(next0[k], h) else next0[k]
      {
        if oppIndex[i] == h {
          oppIndex := oppIndex[i := -1];
        } else if oppIndex[i] > h {
          oppIndex := oppIndex[i := oppIndex[i] - 1];
        }
        if nextIndex[i] == h {
          nextIndex := nextIndex[i := -1];
        } else if nextIndex[i] > h {
          nextIndex := nextIndex[i := nextIndex[i] - 1];
        }
        i := i + 1;
      }
    }

    /**
      `previous(h)`: walks `next` from next(h) until the half-edge whose next is h.  The walk
      stops only when h lies on a closed next-cycle, here of some length `period`.
    */
    method Previous(h: int, ghost period: nat) returns (p: int)
      requires period >= 1 && Follow(h, period) == h
      ensures Next(p) == h
      ensures TargetPoint(p) == Vertex(h)
      ensures exists k :: 1 <= k <= period && p == Follow(h, k)
    {
      p := Next(h);
      assert Follow(h, 1) == NextStep(nextIndex)(Follow(h, 0));
      ghost var i: nat := 1;
      while Next(p) != h
        invariant 1 <= i <= period && p == Follow(h, i)
        invariant forall t :: 2 <= t <= i ==> Follow(h, t) != h
        decreases period - i
      {
        p := Next(p);
        i := i + 1;
      }
    }

    /** `copy`: a new table with the same entries; its count is the length of pIndex. */
    method Copy() returns (c: HalfEdgeData)
      ensures fresh(c)
      ensures c.pIndex == pIndex && c.oppIndex == oppIndex && c.nextIndex == nextIndex
      ensures c.fIndex == fIndex && c.eIndex == eIndex && c.count == |pIndex|
    {
      c := new HalfEdgeData(pIndex, oppIndex, nextIndex, fIndex, eIndex);
    }
  }

  /**
    `PointData`: coordinates, the half-edge leaving each point (stored in the source as a
    one-element array `[h]`, here as h), planes and the number of adjacent faces.
  */
  class PointData {
    var coords: seq<Point>
    var heIndex: seq<int>
    var embeddedPlanEquation: seq<PlaneSlot>
    var supportPlanEquation: seq<Option<Plane>>
    var nbAdjacentFaces: seq<int>
    var count: int

    ghost predicate Valid()
      reads this
    {
      && |coords| == count
      && |heIndex| == count
      && |embeddedPlanEquation| == count
      && |supportPlanEquation| == count
      && |nbAdjacentFaces| == count
    }

    constructor (points: seq<Point>, heIndex: seq<int>, nbAdjacentFaces: seq<int>, supportPlanEquation: seq<Option<Plane>>)
      ensures coords == points && this.heIndex == heIndex && this.nbAdjacentFaces == nbAdjacentFaces
      ensures this.supportPlanEquation == supportPlanEquation
      ensures count == |points| && embeddedPlanEquation == seq(|points|, _ => Unset)
      ensures Valid() <==> |heIndex| == |nbAdjacentFaces| == |supportPlanEquation| == |points|
    {
      coords := points;
      this.heIndex := heIndex;
      count := |points|;
      embeddedPlanEquation := seq(|points|, _ => Unset);
      this.supportPlanEquation := supportPlanEquation;
      this.nbAdjacentFaces := nbAdjacentFaces;
    }

    /** `add`: a point at the origin leaving along `he`, with no adjacent-face count yet (-1). */
    method Add(he: int, embedded: PlaneSlot, support: Option<Plane>)
      modifies this
      ensures coords == old(coords) + [Origin] && heIndex == old(heIndex) + [he]
      ensures embeddedPlanEquation == old(embeddedPlanEquation) + [embedded]
      ensures supportPlanEquation == old(supportPlanEquation) + [support]
      ensures nbAdjacentFaces == old(nbAdjacentFaces) + [-1]
      ensures count == old(count) + 1
      ensures old(Valid()) ==> Valid()
    {
      coords := coords + [Origin];
      heIndex := heIndex + [he];
      embeddedPlanEquation := embeddedPlanEquation + [embedded];
      supportPlanEquation := supportPlanEquation + [support];
      nbAdjacentFaces := nbAdjacentFaces + [-1];
      count := count + 1;
    }

    /** `delete(p)`: the same slot spliced from all five arrays; no reference is renumbered. */
    method Delete(p: nat)
      modifies this
      ensures coords == Splice(old(coords), p) && heIndex == Splice(old(heIndex), p)
      ensures embeddedPlanEquation == Splice(old(embeddedPlanEquation), p)
      ensures supportPlanEquation == Splice(old(supportPlanEquation), p)
      ensures nbAdjacentFaces == Splice(old(nbAdjacentFaces), p)
      ensures count == old(count) - 1
      ensures old(Valid()) && p < old(count) ==> Valid()
    {
      coords := Splice(coords, p);
      heIndex := Splice(heIndex, p);
      nbAdjacentFaces := Splice(nbAdjacentFaces, p);
      embeddedPlanEquation := Splice(embeddedPlanEquation, p);
      supportPlanEquation := Splice(supportPlanEquation, p);
      count := count - 1;
    }

    /**
      `getAdjacentHalfEdges(p, heData)`: from the half-edge leaving p, lists each half-edge and its
      opposite, stepping by opposite-then-next, until it is back at the first one.  The walk stops
      only when that orbit closes, here after some `period` steps.
    */
    method GetAdjacentHalfEdges(p: int, heData: HalfEdgeData, ghost period: nat) returns (r: seq<int>)
      requires period >= 1 && heData.Spin(At(heIndex, p), period) == At(heIndex, p)
      ensures exists k :: (1 <= k <= period && |r| == 2 * k
                           && heData.Spin(At(heIndex, p), k) == At(heIndex, p)
                           && forall t :: 1 <= t < k ==> heData.Spin(At(heIndex, p), t) != At(heIndex, p))
      ensures forall i :: 0 <= i < |r| ==>
        r[i] == if i % 2 == 0 then heData.Spin(At(heIndex, p), i / 2)
                else heData.Opposite(heData.Spin(At(heIndex, p), i / 2))
    {
      var start := At(heIndex, p);
      var current := start;
      var opp := heData.Opposite(current);
      r := [current, opp];
      current := heData.Next(opp);
      assert heData.Spin(start, 1) == SpinStep(heData.oppIndex, heData.nextIndex)(heData.Spin(start, 0));
      ghost var k: nat := 1;
      while current != start
        invariant 1 <= k <= period && |r| == 2 * k && current == heData.Spin(start, k)
        invariant forall t :: 1 <= t < k ==> heData.Spin(start, t) != start
        invariant forall i :: 0 <= i < |r| ==>
          r[i] == if i % 2 == 0 then heData.Spin(start, i / 2) else heData.Opposite(heData.Spin(start, i / 2))
        decreases period - k
      {
        opp := heData.Opposite(current);
        r := r + [current, opp];
        current := heData.Next(opp);
        k := k + 1;
      }
    }

    /**
      `copy`: new arrays with the same entries, and every embedded plane spread into a new array;
      spreading an unset (undefined) embedded plane throws a TypeError, which is None here.
    */
    method Copy() returns (c: Option<PointData>)
      requires Valid()
      ensures c.None? <==> exists i :: 0 <= i < count && embeddedPlanEquation[i] == Unset
      ensures c.Some? ==> fresh(c.value) && c.value.Valid()
      ensures c.Some? ==> c.value.coords == coords && c.value.heIndex == heIndex
      ensures c.Some? ==> c.value.embeddedPlanEquation == embeddedPlanEquation
      ensures c.Some? ==> c.value.supportPlanEquation == supportPlanEquation
      ensures c.Some? ==> c.value.nbAdjacentFaces == nbAdjacentFaces && c.value.count == count
    {
      var copy := new PointData(coords, heIndex, nbAdjacentFaces, supportPlanEquation);
      var i := 0;
      while i < count
        invariant 0 <= i <= count && copy.count == count && |copy.embeddedPlanEquation| == count
        invariant forall k :: 0 <= k < i ==> embeddedPlanEquation[k] != Unset
        invariant forall k :: 0 <= k < count ==>
          copy.embeddedPlanEquation[k] == if k < i then embeddedPlanEquation[k] else Unset
        invariant copy.coords == coords && copy.heIndex == heIndex && copy.nbAdjacentFaces == nbAdjacentFaces
        invariant copy.supportPlanEquation == supportPlanEquation
        invariant fresh(copy)
        modifies copy
      {
        if embeddedPlanEquation[i] == Unset {
          return None;
        }
        copy.embeddedPlanEquation := copy.embeddedPlanEquation[i := embeddedPlanEquation[i]];
        i := i + 1;
      }
      return Some(copy);
    }
  }

  /** `EdgeData`: one half-edge per edge, planes and flags. */
  class EdgeData {
    var heIndex: seq<int>
    var embeddedPlanEquation: seq<PlaneSlot>
    var supportPlanEquation: seq<Option<Plane>>
    var flipable: seq<bool>
    var underconstrained: seq<bool>
    var count: int

    ghost predicate Valid()
      reads this
    {
      && |heIndex| == count
      && |embeddedPlanEquation| == count
      && |supportPlanEquation| == count
      && |flipable| == count
      && |underconstrained| == count
    }

    constructor (heIndex: seq<int>, supportPlanEquation: seq<Option<Plane>>, underconstrained: seq<bool>)
      ensures this.heIndex == heIndex && count == |heIndex|
      ensures this.supportPlanEquation == supportPlanEquation && this.underconstrained == underconstrained
      ensures embeddedPlanEquation == seq(|heIndex|, _ => Unset) && flipable == seq(|heIndex|, _ => false)
      ensures Valid() <==> |supportPlanEquation| == |underconstrained| == |heIndex|
    {
      this.heIndex := heIndex;
      count := |heIndex|;
      embeddedPlanEquation := seq(|heIndex|, _ => Unset);
      flipable := seq(|heIndex|, _ => false);
      this.supportPlanEquation := supportPlanEquation;
      this.underconstrained := underconstrained;
    }

    /** `add`: an edge along `he` with no support plane, neither flipable nor underconstrained. */
    method Add(he: int, embedded: PlaneSlot)
      modifies this
      ensures heIndex == old(heIndex) + [he] && embeddedPlanEquation == old(embeddedPlanEquation) + [embedded]
      ensures supportPlanEquation == old(supportPlanEquation) + [None]
      ensures flipable == old(flipable) + [false] && underconstrained == old(underconstrained) + [false]
      ensures count == old(count) + 1
      ensures old(Valid()) ==> Valid()
    {
      heIndex := heIndex + [he];
      embeddedPlanEquation := embeddedPlanEquation + [embedded];
      supportPlanEquation := supportPlanEquation + [None];
      flipable := flipable + [false];
      underconstrained := underconstrained + [false];
      count := count + 1;
    }

    /**
      `delete(e)` as written: only heIndex, flipable and embeddedPlanEquation are spliced, so on an
      aligned table the support planes and the underconstrained flags keep one entry too many and
      every entry after e is read for the wrong edge.
    */
    method DeleteAsWritten(e: nat)
      modifies this
      ensures heIndex == Splice(old(heIndex), e) && flipable == Splice(old(flipable), e)
      ensures embeddedPlanEquation == Splice(old(embeddedPlanEquation), e)
      ensures supportPlanEquation == old(supportPlanEquation) && underconstrained == old(underconstrained)
      ensures count == old(count) - 1
      ensures old(Valid()) && e < old(count) ==> !Valid()
    {
      heIndex := Splice(heIndex, e);
      flipable := Splice(flipable, e);
      embeddedPlanEquation := Splice(embeddedPlanEquation, e);
      count := count - 1;
    }

    /** `delete(e)` as intended: the same slot spliced from all five arrays. */
    method Delete(e: nat)
      modifies this
      ensures heIndex == Splice(old(heIndex), e) && flipable == Splice(old(flipable), e)
      ensures embeddedPlanEquation == Splice(old(embeddedPlanEquation), e)
      ensures supportPlanEquation == Splice(old(supportPlanEquation), e)
      ensures underconstrained == Splice(old(underconstrained), e)
      ensures count == old(count) - 1
      ensures old(Valid()) && e < old(count) ==> Valid()
    {
      heIndex := Splice(heIndex, e);
      flipable := Splice(flipable, e);
      embeddedPlanEquation := Splice(embeddedPlanEquation, e);
      supportPlanEquation := Splice(supportPlanEquation, e);
      underconstrained := Splice(underconstrained, e);
      count := count - 1;
    }

    /**
      `copy`: a new table built from heIndex alone (so every flipable flag is false), then the
      embedded planes and underconstrained flags copied slot by slot and the support planes that
      are set copied over; spreading an unset embedded plane throws, which is None here.
    */
    method Copy() returns (c: Option<EdgeData>)
      requires Valid()
      ensures c.None? <==> exists i :: 0 <= i < count && embeddedPlanEquation[i] == Unset
      ensures c.Some? ==> fresh(c.value) && c.value.Valid()
      ensures c.Some? ==> c.value.heIndex == heIndex && c.value.embeddedPlanEquation == embeddedPlanEquation
      ensures c.Some? ==> c.value.supportPlanEquation == supportPlanEquation
      ensures c.Some? ==> c.value.underconstrained == underconstrained
      ensures c.Some? ==> c.value.flipable == seq(count, _ => false) && c.value.count == count
    {
      var copy := new EdgeData(heIndex, seq(count, _ => None), seq(count, _ => false));
      var i := 0;
      while i < count
        invariant 0 <= i <= count && copy.Valid() && copy.count == count && fresh(copy)
        invariant forall k :: 0 <= k < i ==> embeddedPlanEquation[k] != Unset
        invariant forall k :: 0 <= k < count ==>
          copy.embeddedPlanEquation[k] == if k < i then embeddedPlanEquation[k] else Unset
        invariant forall k :: 0 <= k < count ==>
          copy.underconstrained[k] == if k < i then underconstrained[k] else false
        invariant copy.heIndex == heIndex && copy.flipable == seq(count, _ => false)
        invariant copy.supportPlanEquation == seq(count, _ => None)
        modifies copy
      {
        if embeddedPlanEquation[i] == Unset {
          return None;
        }
        copy.embeddedPlanEquation := copy.embeddedPlanEquation[i := embeddedPlanEquation[i]];
        copy.underconstrained := copy.underconstrained[i := underconstrained[i]];
        i := i + 1;
      }
      i := 0;
      while i < count
        invariant 0 <= i <= count && copy.Valid() && copy.count == count && fresh(copy)
        invariant copy.embeddedPlanEquation == embeddedPlanEquation && copy.underconstrained == underconstrained
        invariant copy.heIndex == heIndex && copy.flipable == seq(count, _ => false)
        invariant forall k :: 0 <= k < count ==>
          copy.supportPlanEquation[k] == if k < i then supportPlanEquation[k] else None
        modifies copy
      {
        if supportPlanEquation[i].Some? {
          copy.supportPlanEquation := copy.supportPlanEquation[i := supportPlanEquation[i]];
        }
        i := i + 1;
      }
      return Some(copy);
    }
  }

  /**
    `FaceData`: plane, first exterior half-edge (stored as `[h]`, here h) and the first half-edge
    of every interior ring of each face, plus the display colour and opacity arrays, which start
    empty and are filled elsewhere.
  */
  class FaceData {
    var planeEquation: seq<Option<Plane>>
    var hExtIndex: seq<int>
    var hIntIndices: seq<seq<int>>
    var color: seq<seq<real>>
    var opacity: seq<real>
    var count: int

    /** The topological and geometric arrays are parallel; colour and opacity are not tied to them. */
    ghost predicate Valid()
      reads this
    {
      |planeEquation| == count && |hExtIndex| == count && |hIntIndices| == count
    }

    constructor (planeEquation: seq<Option<Plane>>, hExtIndex: seq<int>, hIntIndices: seq<seq<int>>)
      ensures this.planeEquation == planeEquation && this.hExtIndex == hExtIndex
      ensures this.hIntIndices == hIntIndices && count == |planeEquation|
      ensures color == [] && opacity == []
      ensures Valid() <==> |hExtIndex| == |hIntIndices| == |planeEquation|
    {
      this.planeEquation := planeEquation;
      this.hExtIndex := hExtIndex;
      this.hIntIndices := hIntIndices;
      count := |planeEquation|;
      color := [];
      opacity := [];
    }

    /** `add`: a face with the given borders and plane; colour and opacity are not extended. */
    method Add(hExt: int, hInts: seq<int>, plane: Option<Plane>)
      modifies this
      ensures hExtIndex == old(hExtIndex) + [hExt] && hIntIndices == old(hIntIndices) + [hInts]
      ensures planeEquation == old(planeEquation) + [plane]
      ensures color == old(color) && opacity == old(opacity)
      ensures count == old(count) + 1
      ensures old(Valid()) ==> Valid()
    {
      hExtIndex := hExtIndex + [hExt];
      hIntIndices := hIntIndices + [hInts];
      planeEquation := planeEquation + [plane];
      count := count + 1;
    }

    /** `delete(f)`: slot f spliced from the plane, border, colour and opacity arrays. */
    method Delete(f: nat)
      modifies this
      ensures planeEquation == Splice(old(planeEquation), f) && hExtIndex == Splice(old(hExtIndex), f)
      ensures hIntIndices == Splice(old(hIntIndices), f)
      ensures color == Splice(old(color), f) && opacity == Splice(old(opacity), f)
      ensures count == old(count) - 1
      ensures old(Valid()) && f < old(count) ==> Valid()
    {
      planeEquation := Splice(planeEquation, f);
      hExtIndex := Splice(hExtIndex, f);
      hIntIndices := Splice(hIntIndices, f);
      color := Splice(color, f);
      opacity := Splice(opacity, f);
      count := count - 1;
    }

    /**
      `copy`: every entry spread into a new array and a new table built from them, so colour and
      opacity start empty again; spreading a null plane throws a TypeError, which is None here.
    */
    method Copy() returns (c: Option<FaceData>)
      ensures c.None? <==> exists i :: 0 <= i < |planeEquation| && planeEquation[i].None?
      ensures c.Some? ==> fresh(c.value)
      ensures c.Some? ==> c.value.planeEquation == planeEquation && c.value.hExtIndex == hExtIndex
      ensures c.Some? ==> c.value.hIntIndices == hIntIndices && c.value.count == |planeEquation|
      ensures c.Some? ==> c.value.color == [] && c.value.opacity == []
    {
      var i := 0;
      while i < |planeEquation|
        invariant 0 <= i <= |planeEquation|
        invariant forall k :: 0 <= k < i ==> planeEquation[k].Some?
      {
        if planeEquation[i].None? {
          return None;
        }
        i := i + 1;
      }
      var copy := new FaceData(planeEquation, hExtIndex, hIntIndices);
      return Some(copy);
    }
  }
}
