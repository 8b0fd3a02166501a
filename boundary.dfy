/**
 * Boundary classification of a patch of faces and the walk that orders the
 * boundary loops into a chain following the winding of the faces. Membership
 * in the patch is the face tag (`faceTag`), set by the caller beforehand.
 */
module Boundary {
  import opened Wrappers
  import opened HalfEdge
  import opened SeqFacts

  /** Whether some face of `fs` other than `self` is untagged (outside the patch). */
  function AnyOtherUntagged(fs: seq<nat>, self: nat, faceTag: seq<bool>): (r: bool)
    requires forall i :: 0 <= i < |fs| ==> fs[i] < |faceTag|
    ensures r <==> exists i :: 0 <= i < |fs| && fs[i] != self && !faceTag[fs[i]]
  {
    if fs == [] then false
    else if fs[0] != self && !faceTag[fs[0]] then true
    else
      assert forall i :: 1 <= i < |fs| ==> fs[1..][i - 1] == fs[i];
      AnyOtherUntagged(fs[1..], self, faceTag)
  }

  /**
   * is_boundary: a loop lies on the patch boundary iff its edge is a seam or a
   * mesh boundary, or some other face of its edge is outside the patch.
   */
  predicate IsBoundary(m: Mesh, faceTag: seq<bool>, l: nat)
    requires m.Valid() && |faceTag| == m.Faces() && l < m.Loops()
  {
    var e := m.loopEdge[l];
    m.edgeSeam[e] || m.EdgeIsBoundary(e) || AnyOtherUntagged(m.edgeFaces[e], m.loopFace[l], faceTag)
  }

  /** The classifier stated outright over the faces of the loop's edge. */
  lemma IsBoundaryIff(m: Mesh, faceTag: seq<bool>, l: nat)
    requires m.Valid() && |faceTag| == m.Faces() && l < m.Loops()
    ensures var e := m.loopEdge[l];
            IsBoundary(m, faceTag, l) <==>
              m.edgeSeam[e] || |m.edgeFaces[e]| == 1
              || exists f :: f in m.edgeFaces[e] && f != m.loopFace[l] && !faceTag[f]
  {
    var e := m.loopEdge[l];
    if exists f :: f in m.edgeFaces[e] && f != m.loopFace[l] && !faceTag[f] {
      var f :| f in m.edgeFaces[e] && f != m.loopFace[l] && !faceTag[f];
      var i :| 0 <= i < |m.edgeFaces[e]| && m.edgeFaces[e][i] == f;
    }
  }

  /** A loop of face `faces[i]` for some i. */
  ghost predicate LoopOfFaces(m: Mesh, faces: seq<nat>, l: nat)
  {
    exists i :: 0 <= i < |faces| && faces[i] < m.Faces() && l in m.faceLoops[faces[i]]
  }

  /** GetBoundaryLoops: exactly the boundary loops of the given faces. Nothing is written. */
  method GetBoundaryLoops(m: Mesh, faceTag: seq<bool>, faces: seq<nat>) returns (r: set<nat>)
    requires m.Valid() && |faceTag| == m.Faces()
    requires forall i :: 0 <= i < |faces| ==> faces[i] < m.Faces()
    ensures forall l: nat :: l in r <==> l < m.Loops() && LoopOfFaces(m, faces, l) && IsBoundary(m, faceTag, l)
  {
    r := {};
    var i := 0;
    while i < |faces|
      invariant 0 <= i <= |faces|
      invariant forall l: nat :: l in r <==> l < m.Loops() && LoopOfFaces(m, faces[..i], l) && IsBoundary(m, faceTag, l)
    {
      var loops := m.faceLoops[faces[i]];
      var k := 0;
      while k < |loops|
        invariant 0 <= k <= |loops|
        invariant forall l: nat :: l in r <==>
          l < m.Loops() && (LoopOfFaces(m, faces[..i], l) || l in loops[..k]) && IsBoundary(m, faceTag, l)
      {
        if IsBoundary(m, faceTag, loops[k]) {
          r := r + {loops[k]};
        }
        assert loops[..k + 1] == loops[..k] + [loops[k]];
        k := k + 1;
      }
      assert loops[..k] == loops;
      forall l: nat ensures LoopOfFaces(m, faces[..i + 1], l) <==> LoopOfFaces(m, faces[..i], l) || l in loops {
        if LoopOfFaces(m, faces[..i + 1], l) {
          var j :| 0 <= j < i + 1 && faces[..i + 1][j] < m.Faces() && l in m.faceLoops[faces[..i + 1][j]];
          if j < i {
            assert faces[..i][j] == faces[..i + 1][j];
          }
        }
        if LoopOfFaces(m, faces[..i], l) {
          var j :| 0 <= j < i && faces[..i][j] < m.Faces() && l in m.faceLoops[faces[..i][j]];
          assert faces[..i + 1][j] == faces[..i][j];
        }
        if l in loops {
          assert faces[..i + 1][i] == faces[i];
        }
      }
      i := i + 1;
    }
    assert faces[..|faces|] == faces;
  }

  /**
   * The face on the other side of an edge, as the source finds it: the first
   * face of the edge that is not `self`, or the last face when there is none.
   */
  function OtherFace(fs: seq<nat>, self: nat): (r: nat)
    requires fs != []
    ensures r in fs
    ensures (exists i :: 0 <= i < |fs| && fs[i] != self) ==> r != self
  {
    if |fs| == 1 || fs[0] != self then fs[0]
    else
      assert forall i :: 1 <= i < |fs| ==> fs[1..][i - 1] == fs[i];
      OtherFace(fs[1..], self)
  }

  /** The first loop of `loops` that lies on edge `e`. */
  function LoopOnEdge(m: Mesh, loops: seq<nat>, e: nat): (r: Option<nat>)
    requires m.Valid() && forall i :: 0 <= i < |loops| ==> loops[i] < m.Loops()
    ensures r.Some? ==> r.value in loops && m.loopEdge[r.value] == e
    ensures r.None? ==> forall i :: 0 <= i < |loops| ==> m.loopEdge[loops[i]] != e
  {
    if loops == [] then None
    else if m.loopEdge[loops[0]] == e then Some(loops[0])
    else
      assert forall i :: 1 <= i < |loops| ==> loops[1..][i - 1] == loops[i];
      LoopOnEdge(m, loops[1..], e)
  }

  /**
   * One crossing of the boundary walks: from loop `l`, the loop on the same
   * edge in the face across it (OtherFace), if that face has one.
   */
  function Across(m: Mesh, l: nat): (r: Option<nat>)
    requires m.Valid() && l < m.Loops()
    ensures r.Some? ==> r.value < m.Loops() && m.loopEdge[r.value] == m.loopEdge[l]
    ensures r.Some? ==> m.loopFace[r.value] == OtherFace(m.edgeFaces[m.loopEdge[l]], m.loopFace[l])
  {
    var e := m.loopEdge[l];
    var other := OtherFace(m.edgeFaces[e], m.loopFace[l]);
    var r := LoopOnEdge(m, m.faceLoops[other], e);
    if r.Some? then
      var k :| 0 <= k < |m.faceLoops[other]| && m.faceLoops[other][k] == r.value;
      r
    else r
  }

  /** Away from the mesh boundary, the loop across lies in a different face. */
  lemma AcrossLeavesFace(m: Mesh, faceTag: seq<bool>, l: nat, a: nat)
    requires m.Valid() && |faceTag| == m.Faces() && l < m.Loops()
    requires !IsBoundary(m, faceTag, l)
    requires Across(m, l) == Some(a)
    ensures m.loopFace[a] != m.loopFace[l]
  {
    var fs := m.edgeFaces[m.loopEdge[l]];
    assert m.loopFace[l] in fs;
    var j :| 0 <= j < |fs| && fs[j] == m.loopFace[l];
    var k := if j == 0 then 1 else 0;
    assert fs[k] != m.loopFace[l];
  }

  /**
   * next_boundary_loop: from the loop after `loop`, keep crossing to the face
   * across the current edge and stepping forward until a boundary loop is
   * reached; stop at the current loop when no loop lies across. The walk
   * turns around the vertex where `loop` ends, so on a consistently wound
   * mesh the result starts at that vertex. The number of crossings is bounded
   * by the number of loops.
   */
  method NextBoundaryLoop(m: Mesh, faceTag: seq<bool>, loop: nat) returns (r: nat)
    requires m.Valid() && |faceTag| == m.Faces() && loop < m.Loops()
    ensures r < m.Loops()
    ensures IsBoundary(m, faceTag, m.loopNext[loop]) ==> r == m.loopNext[loop]
    ensures m.Oriented() ==> m.loopVert[r] == m.EndVert(loop)
  {
    r := m.loopNext[loop];
    var steps := 0;
    while !IsBoundary(m, faceTag, r) && steps < m.Loops()
      invariant r < m.Loops()
      invariant IsBoundary(m, faceTag, m.loopNext[loop]) ==> r == m.loopNext[loop]
      invariant m.Oriented() ==> m.loopVert[r] == m.EndVert(loop)
      decreases m.Loops() - steps
    {
      var l := r;
      var across := Across(m, l);
      if across.None? {
        break;
      }
      if m.Oriented() {
        NextStepKeepsVert(m, faceTag, l, across.value);
      }
      r := m.loopNext[across.value];
      steps := steps + 1;
    }
  }

  /** Crossing and stepping forward stays at the vertex the walk turns around. */
  lemma NextStepKeepsVert(m: Mesh, faceTag: seq<bool>, l: nat, a: nat)
    requires m.Valid() && |faceTag| == m.Faces() && l < m.Loops() && m.Oriented()
    requires !IsBoundary(m, faceTag, l) && Across(m, l) == Some(a)
    ensures m.loopVert[m.loopNext[a]] == m.loopVert[l]
  {
    AcrossLeavesFace(m, faceTag, l, a);
    assert m.loopEdge[a] == m.loopEdge[l];
  }

  /** Crossing and stepping backward ends at the vertex the walk turns around. */
  lemma PrevStepKeepsVert(m: Mesh, faceTag: seq<bool>, l: nat, a: nat)
    requires m.Valid() && |faceTag| == m.Faces() && l < m.Loops() && m.Oriented() && PrevInverse(m)
    requires !IsBoundary(m, faceTag, l) && Across(m, l) == Some(a)
    ensures m.EndVert(m.loopPrev[a]) == m.EndVert(l)
  {
    AcrossLeavesFace(m, faceTag, l, a);
    assert m.loopEdge[l] == m.loopEdge[a];
    assert m.loopNext[m.loopPrev[a]] == a;
  }

  /** `prev` undoes `next` on every loop. */
  ghost predicate PrevInverse(m: Mesh)
    requires m.Valid()
  {
    forall l :: 0 <= l < m.Loops() ==> m.loopNext[m.loopPrev[l]] == l
  }

  /** Every loop of `ps` ends at vertex `v`. */
  ghost predicate AllEndAt(m: Mesh, ps: seq<nat>, v: nat)
    requires m.Valid() && forall i :: 0 <= i < |ps| ==> ps[i] < m.Loops()
  {
    forall i :: 0 <= i < |ps| ==> m.EndVert(ps[i]) == v
  }

  lemma AllEndAtExtend(m: Mesh, ps: seq<nat>, p: nat, v: nat)
    requires m.Valid() && forall i :: 0 <= i < |ps| ==> ps[i] < m.Loops()
    requires p < m.Loops() && AllEndAt(m, ps, v) && m.EndVert(p) == v
    ensures forall i :: 0 <= i < |ps + [p]| ==> (ps + [p])[i] < m.Loops()
    ensures AllEndAt(m, ps + [p], v)
  {
  }

  /**
   * prev_boundary_loop: the mirror walk backwards. It returns every loop it
   * stepped to, the last being the boundary loop found (or the loop it
   * stopped at). On a consistently wound mesh every one of them ends where
   * `loop` starts.
   */
  method PrevBoundaryLoops(m: Mesh, faceTag: seq<bool>, loop: nat) returns (ps: seq<nat>)
    requires m.Valid() && |faceTag| == m.Faces() && loop < m.Loops()
    ensures ps != [] && ps[0] == m.loopPrev[loop]
    ensures forall i :: 0 <= i < |ps| ==> ps[i] < m.Loops()
    ensures IsBoundary(m, faceTag, m.loopPrev[loop]) ==> ps == [m.loopPrev[loop]]
    ensures m.Oriented() && PrevInverse(m) ==> AllEndAt(m, ps, m.loopVert[loop])
  {
    ps := [m.loopPrev[loop]];
    var p := ps[0];
    var steps := 0;
    while !IsBoundary(m, faceTag, p) && steps < m.Loops()
      invariant ps != [] && ps[0] == m.loopPrev[loop] && p == ps[|ps| - 1]
      invariant forall i :: 0 <= i < |ps| ==> ps[i] < m.Loops()
      invariant IsBoundary(m, faceTag, m.loopPrev[loop]) ==> ps == [m.loopPrev[loop]]
      invariant m.Oriented() && PrevInverse(m) ==> AllEndAt(m, ps, m.loopVert[loop])
      decreases m.Loops() - steps
    {
      var l := p;
      var across := Across(m, l);
      if across.None? {
        break;
      }
      if m.Oriented() && PrevInverse(m) {
        PrevStepKeepsVert(m, faceTag, l, across.value);
        AllEndAtExtend(m, ps, m.loopPrev[across.value], m.loopVert[loop]);
      }
      p := m.loopPrev[across.value];
      ps := ps + [p];
      steps := steps + 1;
    }
  }

  /**
   * The state of sort_loop_chain between steps: the chain `r` holds
   * `loops[0]`, has no repetitions and draws only on `loops` and on loops
   * tagged on entry (`before`); a loop is tagged now iff it was tagged on
   * entry or is one of `loops`, and is not yet placed.
   */
  ghost predicate Placed(m: Mesh, loops: seq<nat>, before: seq<bool>, tag: seq<bool>, r: seq<nat>)
    requires |before| == m.Loops() && |tag| == m.Loops() && loops != []
  {
    && loops[0] in r && Distinct(r)
    && (forall j :: 0 <= j < |r| ==> r[j] < m.Loops() && (r[j] in loops || before[r[j]]))
    && (forall l :: 0 <= l < m.Loops() ==> tag[l] == ((before[l] || l in loops) && l !in r))
  }

  /** Consecutive loops of the chain meet at a vertex. */
  ghost predicate Chained(m: Mesh, r: seq<nat>)
    requires m.Valid() && forall j :: 0 <= j < |r| ==> r[j] < m.Loops()
  {
    forall j :: 0 <= j < |r| - 1 ==> m.EndVert(r[j]) == m.loopVert[r[j + 1]]
  }

  /** A loop starting where the chain ends extends it at the end. */
  lemma ChainLast(m: Mesh, r: seq<nat>, nl: nat)
    requires m.Valid() && (forall j :: 0 <= j < |r| ==> r[j] < m.Loops()) && nl < m.Loops()
    requires r != [] && Chained(m, r) && m.loopVert[nl] == m.EndVert(r[|r| - 1])
    ensures forall j :: 0 <= j < |r + [nl]| ==> (r + [nl])[j] < m.Loops()
    ensures Chained(m, r + [nl])
  {
  }

  /** A loop ending where the chain starts extends it at the start. */
  lemma ChainFirst(m: Mesh, r: seq<nat>, pl: nat)
    requires m.Valid() && (forall j :: 0 <= j < |r| ==> r[j] < m.Loops()) && pl < m.Loops()
    requires r != [] && Chained(m, r) && m.EndVert(pl) == m.loopVert[r[0]]
    ensures forall j :: 0 <= j < |[pl] + r| ==> ([pl] + r)[j] < m.Loops()
    ensures Chained(m, [pl] + r)
  {
    var r' := [pl] + r;
    forall j | 1 <= j < |r'| - 1 ensures m.EndVert(r'[j]) == m.loopVert[r'[j + 1]] {
      assert r'[j] == r[j - 1] && r'[j + 1] == r[j];
    }
  }

  /** Placing a tagged loop at the end keeps the state. */
  lemma PlaceLast(m: Mesh, loops: seq<nat>, before: seq<bool>, tag: seq<bool>, r: seq<nat>, nl: nat)
    requires |before| == m.Loops() && |tag| == m.Loops() && loops != []
    requires Placed(m, loops, before, tag, r) && nl < m.Loops() && tag[nl]
    ensures Placed(m, loops, before, tag[nl := false], r + [nl])
  {
    assert nl !in r;
    var r' := r + [nl];
    forall i, j | 0 <= i < j < |r'| ensures r'[i] != r'[j] {
      if j < |r| {
        assert r'[i] == r[i] && r'[j] == r[j];
      }
    }
  }

  /** Placing a tagged loop at the start keeps the state. */
  lemma PlaceFirst(m: Mesh, loops: seq<nat>, before: seq<bool>, tag: seq<bool>, r: seq<nat>, pl: nat)
    requires |before| == m.Loops() && |tag| == m.Loops() && loops != []
    requires Placed(m, loops, before, tag, r) && pl < m.Loops() && tag[pl]
    ensures Placed(m, loops, before, tag[pl := false], [pl] + r)
  {
    assert pl !in r;
    var r' := [pl] + r;
    forall i, j | 0 <= i < j < |r'| ensures r'[i] != r'[j] {
      if 0 < i {
        assert r'[i] == r[i - 1] && r'[j] == r[j - 1];
      }
    }
    assert forall j :: 0 <= j < |r'| ==> r'[j] == pl || r'[j] in r;
  }

  /** The first pass of sort_loop_chain: tag every loop of `loops`. */
  method TagLoops(loopTag: array<bool>, loops: seq<nat>)
    requires forall i :: 0 <= i < |loops| ==> loops[i] < loopTag.Length
    modifies loopTag
    ensures forall l :: 0 <= l < loopTag.Length ==> loopTag[l] == (old(loopTag[l]) || l in loops)
  {
    for k := 0 to |loops|
      invariant forall l :: 0 <= l < loopTag.Length ==> loopTag[l] == (old(loopTag[l]) || l in loops[..k])
    {
      loopTag[loops[k]] := true;
      assert loops[..k + 1] == loops[..k] + [loops[k]];
    }
    assert loops[..|loops|] == loops;
  }

  /**
   * One round of sort_loop_chain: place the next boundary loop after the
   * chain's last loop, then the previous boundary loop before its first
   * loop, each only if still tagged.
   */
  method GrowChain(m: Mesh, faceTag: seq<bool>, loopTag: array<bool>, loops: seq<nat>,
                   ghost before: seq<bool>, r: seq<nat>) returns (r': seq<nat>)
    requires m.Valid() && |faceTag| == m.Faces() && loopTag.Length == m.Loops()
    requires |before| == m.Loops() && loops != []
    requires Placed(m, loops, before, loopTag[..], r)
    requires m.Oriented() && PrevInverse(m) ==> Chained(m, r)
    modifies loopTag
    ensures Placed(m, loops, before, loopTag[..], r')
    ensures m.Oriented() && PrevInverse(m) ==> Chained(m, r')
  {
    r' := r;
    ghost var chained := m.Oriented() && PrevInverse(m);
    // append to the end
    var nl := NextBoundaryLoop(m, faceTag, r'[|r'| - 1]);
    if loopTag[nl] {
      PlaceLast(m, loops, before, loopTag[..], r', nl);
      if chained {
        ChainLast(m, r', nl);
      }
      ghost var t := loopTag[..];
      loopTag[nl] := false;
      assert loopTag[..] == t[nl := false];
      r' := r' + [nl];
    }
    // insert at the start
    var pls := PrevBoundaryLoops(m, faceTag, r'[0]);
    var pl := pls[|pls| - 1];
    if loopTag[pl] {
      PlaceFirst(m, loops, before, loopTag[..], r', pl);
      if chained {
        ChainFirst(m, r', pl);
      }
      ghost var t := loopTag[..];
      loopTag[pl] := false;
      assert loopTag[..] == t[pl := false];
      r' := [pl] + r';
    }
  }

  /**
   * sort_loop_chain: orders the boundary loops `loops` of a patch along the
   * winding of its faces, starting from `loops[0]` and growing the chain at
   * both ends. Loop tags mark the loops not yet placed; a loop is placed only
   * while tagged, so the chain has no repetitions and draws only on `loops`
   * (and on loops that were tagged on entry). Consecutive loops of the chain
   * meet at a vertex on a consistently wound mesh.
   */
  method SortLoopChain(m: Mesh, faceTag: seq<bool>, loopTag: array<bool>, loops: seq<nat>)
    returns (r: seq<nat>)
    requires m.Valid() && |faceTag| == m.Faces() && loopTag.Length == m.Loops()
    requires loops != [] && forall i :: 0 <= i < |loops| ==> loops[i] < m.Loops()
    modifies loopTag
    ensures loops[0] in r && Distinct(r)
    ensures forall i :: 0 <= i < |r| ==> r[i] < m.Loops() && (r[i] in loops || old(loopTag[r[i]]))
    ensures forall l :: 0 <= l < m.Loops() ==> loopTag[l] == ((old(loopTag[l]) || l in loops) && l !in r)
    ensures m.Oriented() && PrevInverse(m) ==> Chained(m, r)
  {
    ghost var before := loopTag[..];
    TagLoops(loopTag, loops);
    r := [loops[0]];
    loopTag[loops[0]] := false;
    assert Placed(m, loops, before, loopTag[..], r);
    for i := 1 to |loops|
      invariant Placed(m, loops, before, loopTag[..], r)
      invariant m.Oriented() && PrevInverse(m) ==> Chained(m, r)
    {
      r := GrowChain(m, faceTag, loopTag, loops, before, r);
      if |r| >= |loops| {
        break;
      }
    }
  }

  /**
   * When no loop outside `loops` is tagged on entry, the chain is drawn from
   * `loops` alone and is therefore no longer than it.
   */
  lemma SortedChainBound(loops: seq<nat>, r: seq<nat>, tagged: set<nat>)
    requires Distinct(r)
    requires forall i :: 0 <= i < |r| ==> r[i] in loops || r[i] in tagged
    requires forall l :: l in tagged ==> l in loops
    ensures |r| <= |loops|
  {
    DistinctSubseqBound(r, loops);
  }
}
