/**
 * The half-edge mesh the UV tools walk over (a BMesh as the tools see it).
 * Elements are numbered; a loop is a face corner (half-edge) that knows its
 * face, its vertex (where it starts), its edge and its neighbours in the face
 * cycle. Every adjacency list keeps the order in which the mesh reports it.
 * The transient tag bits are not part of this value: the algorithms that set
 * them own an array of them.
 */
module HalfEdge {
  import opened Wrappers

  datatype Mesh = Mesh(
    loopNext: seq<nat>,          // link_loop_next
    loopPrev: seq<nat>,          // link_loop_prev
    loopVert: seq<nat>,          // vert (the loop starts here)
    loopEdge: seq<nat>,          // edge
    loopFace: seq<nat>,          // face
    edgeV1: seq<nat>,            // verts[0]
    edgeV2: seq<nat>,            // verts[1]
    edgeFaces: seq<seq<nat>>,    // link_faces
    edgeSeam: seq<bool>,         // seam
    faceLoops: seq<seq<nat>>,    // loops, in winding order
    vertEdges: seq<seq<nat>>,    // link_edges
    vertFaces: seq<seq<nat>>,    // link_faces
    vertLoops: seq<seq<nat>>)    // link_loops
  {
    function Loops(): nat { |loopNext| }
    function Edges(): nat { |edgeV1| }
    function Faces(): nat { |faceLoops| }
    function Verts(): nat { |vertEdges| }

    /** Every index stored in the mesh names an element that exists. */
    ghost predicate Valid()
    {
      && |loopPrev| == Loops() && |loopVert| == Loops() && |loopEdge| == Loops() && |loopFace| == Loops()
      && |edgeV2| == Edges() && |edgeFaces| == Edges() && |edgeSeam| == Edges()
      && |vertFaces| == Verts() && |vertLoops| == Verts()
      && (forall l :: 0 <= l < Loops() ==>
            loopNext[l] < Loops() && loopPrev[l] < Loops() && loopVert[l] < Verts()
            && loopEdge[l] < Edges() && loopFace[l] < Faces())
      && (forall e :: 0 <= e < Edges() ==>
            edgeV1[e] < Verts() && edgeV2[e] < Verts() && edgeV1[e] != edgeV2[e])
      && (forall e, i :: 0 <= e < Edges() && 0 <= i < |edgeFaces[e]| ==> edgeFaces[e][i] < Faces())
      // an edge lists each of its faces once
      && (forall e, i, j :: 0 <= e < Edges() && 0 <= i < j < |edgeFaces[e]| ==> edgeFaces[e][i] != edgeFaces[e][j])
      && (forall f, i :: 0 <= f < Faces() && 0 <= i < |faceLoops[f]| ==>
            faceLoops[f][i] < Loops() && loopFace[faceLoops[f][i]] == f)
      && (forall v, i :: 0 <= v < Verts() && 0 <= i < |vertEdges[v]| ==>
            vertEdges[v][i] < Edges()
            && (edgeV1[vertEdges[v][i]] == v || edgeV2[vertEdges[v][i]] == v))
      && (forall v, i :: 0 <= v < Verts() && 0 <= i < |vertFaces[v]| ==> vertFaces[v][i] < Faces())
      && (forall v, i :: 0 <= v < Verts() && 0 <= i < |vertLoops[v]| ==>
            vertLoops[v][i] < Loops() && loopVert[vertLoops[v][i]] == v)
      // the face of a loop is among the faces of the loop's edge
      && (forall l :: 0 <= l < Loops() ==> loopFace[l] in edgeFaces[loopEdge[l]])
    }

    /** The loop after `l` starts where `l` ends. */
    function EndVert(l: nat): nat
      requires Valid() && l < Loops()
    {
      loopVert[loopNext[l]]
    }

    /**
     * Faces are consistently wound: two loops of one edge in different faces
     * run in opposite directions, so one starts where the other ends.
     */
    ghost predicate Oriented()
      requires Valid()
    {
      forall l1, l2 ::
        (0 <= l1 < Loops() && 0 <= l2 < Loops() && loopEdge[l1] == loopEdge[l2] && loopFace[l1] != loopFace[l2])
        ==> loopVert[l2] == EndVert(l1)
    }

    /** BMEdge.is_boundary: the edge has exactly one face. */
    predicate EdgeIsBoundary(e: nat)
      requires Valid() && e < Edges()
    {
      |edgeFaces[e]| == 1
    }

    /** BMEdge.other_vert. */
    function OtherVert(e: nat, v: nat): (r: nat)
      requires Valid() && e < Edges()
      ensures r < Verts()
      ensures v == edgeV1[e] ==> r == edgeV2[e]
      ensures v == edgeV2[e] ==> r == edgeV1[e]
    {
      if edgeV1[e] == v then edgeV2[e] else edgeV1[e]
    }

    /** The edges of a face, in winding order (BMFace.edges). */
    function FaceEdges(f: nat): (r: seq<nat>)
      requires Valid() && f < Faces()
      ensures |r| == |faceLoops[f]|
      ensures forall i :: 0 <= i < |r| ==> r[i] == loopEdge[faceLoops[f][i]] && r[i] < Edges()
    {
      seq(|faceLoops[f]|, i requires 0 <= i < |faceLoops[f]| => loopEdge[faceLoops[f][i]])
    }

    /** Two vertices joined by one of the first vertex's edges. */
    ghost predicate Adjacent(a: nat, b: nat)
      requires Valid() && a < Verts()
    {
      exists i :: 0 <= i < |vertEdges[a]| && OtherVert(vertEdges[a][i], a) == b
    }
  }

  /**
   * shared_edge(p1, p2): the first edge of p1, in winding order, that has p2
   * among its faces; None when there is none.
   */
  function SharedEdge(m: Mesh, p1: nat, p2: nat): (r: Option<nat>)
    requires m.Valid() && p1 < m.Faces()
    ensures r.None? <==> forall i :: 0 <= i < |m.faceLoops[p1]| ==> p2 !in m.edgeFaces[m.FaceEdges(p1)[i]]
    ensures r.Some? ==> exists i :: 0 <= i < |m.faceLoops[p1]| && r.value == m.FaceEdges(p1)[i]
                          && p2 in m.edgeFaces[r.value]
                          && forall j :: 0 <= j < i ==> p2 !in m.edgeFaces[m.FaceEdges(p1)[j]]
  {
    FirstEdgeWithFace(m, m.FaceEdges(p1), p2)
  }

  /** The scan behind SharedEdge: the first edge of `es` that lists face `p`. */
  function FirstEdgeWithFace(m: Mesh, es: seq<nat>, p: nat): (r: Option<nat>)
    requires m.Valid() && forall i :: 0 <= i < |es| ==> es[i] < m.Edges()
    ensures r.None? <==> forall i :: 0 <= i < |es| ==> p !in m.edgeFaces[es[i]]
    ensures r.Some? ==> exists i :: 0 <= i < |es| && r.value == es[i] && p in m.edgeFaces[es[i]]
                          && forall j :: 0 <= j < i ==> p !in m.edgeFaces[es[j]]
  {
    if es == [] then None
    else if p in m.edgeFaces[es[0]] then Some(es[0])
    else
      var r := FirstEdgeWithFace(m, es[1..], p);
      assert forall i :: 1 <= i < |es| ==> es[1..][i - 1] == es[i];
      if r.Some? then
        assert exists i :: (0 <= i < |es| - 1 && r.value == es[1..][i] && p in m.edgeFaces[es[1..][i]]
                            && forall j :: 0 <= j < i ==> p !in m.edgeFaces[es[1..][j]]);
        r
      else r
  }

  /** The faces listed by an edge are exactly the faces that have a loop on it. */
  ghost predicate EdgeFacesAgree(m: Mesh)
    requires m.Valid()
  {
    forall e, f :: 0 <= e < m.Edges() && 0 <= f < m.Faces() ==>
      (f in m.edgeFaces[e] <==> exists i :: 0 <= i < |m.faceLoops[f]| && m.loopEdge[m.faceLoops[f][i]] == e)
  }

  /** Whether two faces share an edge does not depend on which one is asked. */
  lemma SharedEdgeSymmetric(m: Mesh, p1: nat, p2: nat)
    requires m.Valid() && EdgeFacesAgree(m) && p1 < m.Faces() && p2 < m.Faces()
    ensures SharedEdge(m, p1, p2).None? <==> SharedEdge(m, p2, p1).None?
  {
    if SharedEdge(m, p1, p2).Some? {
      SharedEdgeBack(m, p1, p2);
    }
    if SharedEdge(m, p2, p1).Some? {
      SharedEdgeBack(m, p2, p1);
    }
  }

  /** An edge of `p1` listing `p2` is an edge of `p2` listing `p1`. */
  lemma SharedEdgeBack(m: Mesh, p1: nat, p2: nat)
    requires m.Valid() && EdgeFacesAgree(m) && p1 < m.Faces() && p2 < m.Faces()
    requires SharedEdge(m, p1, p2).Some?
    ensures SharedEdge(m, p2, p1).Some?
  {
    var e := SharedEdge(m, p1, p2).value;
    var i :| 0 <= i < |m.faceLoops[p1]| && e == m.FaceEdges(p1)[i] && p2 in m.edgeFaces[e];
    var k :| 0 <= k < |m.faceLoops[p2]| && m.loopEdge[m.faceLoops[p2][k]] == e;
    assert p1 in m.edgeFaces[m.FaceEdges(p2)[k]];
  }
}
