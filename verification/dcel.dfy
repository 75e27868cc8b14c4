/**
  The half-edge records of the planar subdivision (src/compgeo/dcel.py):
  vertices, half-edges and faces as heap objects, and the walk that lists the
  half-edges bounding a face by following `next` links.
*/
module Dcel {

  class Vertex {
    var x: real
    var y: real

    /** A vertex at the coordinate pair `coords`. */
    constructor (coords: (real, real))
      ensures x == coords.0 && y == coords.1
    {
      x := coords.0;
      y := coords.1;
    }
  }

  class Face {
    var boundaryEdge: Edge?

    /** A face with no boundary edge yet. */
    constructor ()
      ensures boundaryEdge == null
    {
      boundaryEdge := null;
    }

    /** Lists the half-edges of this face's boundary: starting at
        `boundaryEdge`, follow `next` until the walk is back at the start.
        The caller guarantees that `boundaryEdge` lies on a finite `next`
        cycle, here named by the ghost parameter `cycle`; the walk returns
        exactly that cycle, in order. */
    method GetSurroundingEdges(ghost cycle: seq<Edge>) returns (edges: seq<Edge>)
      requires boundaryEdge != null
      requires IsNextCycle(cycle) && cycle[0] == boundaryEdge
      ensures edges == cycle
      ensures |edges| > 0 && edges[0] == boundaryEdge
      ensures forall i :: 0 <= i < |edges| - 1 ==> edges[i].next == edges[i + 1]
      ensures edges[|edges| - 1].next == boundaryEdge
      ensures forall i, j :: 0 <= i < j < |edges| ==> edges[i] != edges[j]
      ensures boundaryEdge.next == boundaryEdge ==> edges == [boundaryEdge]
    {
      var initial := boundaryEdge;
      var current := initial.next;
      edges := [initial];
      while true
        invariant 1 <= |edges| <= |cycle|
        invariant edges == cycle[..|edges|]
        invariant |edges| < |cycle| ==> current == cycle[|edges|]
        invariant |edges| == |cycle| ==> current == cycle[0]
        decreases |cycle| - |edges|
      {
        if initial == current {
          break;
        }
        edges := edges + [current];
        current := current.next;
      }
      assert |edges| == |cycle|;
    }
  }

  class Edge {
    var origin: Vertex?
    var interiorFace: Face?
    var twin: Edge?
    var next: Edge?
    var prev: Edge?

    /** A half-edge leaving `origin` and bounding `interiorFace` (both absent
        unless given), not yet linked to a twin or to neighbours along the
        face. */
    constructor (origin: Vertex? := null, interiorFace: Face? := null)
      ensures this.origin == origin && this.interiorFace == interiorFace
      ensures twin == null && next == null && prev == null
    {
      this.origin := origin;
      this.interiorFace := interiorFace;
      twin := null;
      next := null;
      prev := null;
    }
  }

  /** `c` lists distinct half-edges, each one's `next` is the following one,
      and the last one's `next` is the first: a closed `next` cycle. */
  ghost predicate IsNextCycle(c: seq<Edge>)
    reads set e | e in c
  {
    && |c| > 0
    && (forall i, j :: 0 <= i < j < |c| ==> c[i] != c[j])
    && (forall i :: 0 <= i < |c| - 1 ==> c[i].next == c[i + 1])
    && c[|c| - 1].next == c[0]
  }

  /** A `next` cycle is determined by any one of its half-edges: two cycles
      through the same first half-edge are the same sequence. */
  lemma NextCycleUnique(c: seq<Edge>, d: seq<Edge>)
    requires IsNextCycle(c) && IsNextCycle(d) && c[0] == d[0]
    ensures c == d
  {
    var k := 0;
    while k < |c| - 1 && k < |d| - 1
      invariant 0 <= k < |c| && k < |d|
      invariant c[..k + 1] == d[..k + 1]
    {
      assert c[k + 1] == c[k].next == d[k].next == d[k + 1];
      k := k + 1;
      assert c[..k + 1] == c[..k] + [c[k]];
    }
    NoEarlyReturn(c);
    NoEarlyReturn(d);
    assert c[k].next == d[k].next;
    assert |c| == |d|;
    assert c == c[..k + 1] && d == d[..k + 1];
  }

  /** Along a `next` cycle, only the last half-edge leads back to the first. */
  lemma NoEarlyReturn(c: seq<Edge>)
    requires IsNextCycle(c)
    ensures forall m :: 0 <= m < |c| - 1 ==> c[m].next != c[0]
  {
    forall m | 0 <= m < |c| - 1
      ensures c[m].next != c[0]
    {
      assert c[m].next == c[m + 1];
    }
  }
}
