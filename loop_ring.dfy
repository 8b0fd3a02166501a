/**
 * The UV loop and ring selection walks. A UV edge is a loop's edge seen in
 * UV space; two faces are continuous across an edge when their loops on it
 * carry the same UVs crosswise (UVs are compared exactly). The walks extend
 * a group of loops, tag every loop they add (the tag bits are the visited
 * set) and recurse from it.
 */
module LoopRing {
  import opened Vec
  import opened HalfEdge
  import opened SeqFacts

  /** A mesh with one UV per loop. */
  ghost predicate UvOk(m: Mesh, uv: seq<Vec2>)
  {
    m.Valid() && |uv| == m.Loops()
  }

  /** Loops `l1` and `l2` lie on one edge and their UVs match crosswise. */
  predicate CrossMatch(m: Mesh, uv: seq<Vec2>, l1: nat, l2: nat)
    requires UvOk(m, uv) && l1 < m.Loops() && l2 < m.Loops()
  {
    m.loopEdge[l1] == m.loopEdge[l2] && uv[m.loopNext[l1]] == uv[l2] && uv[l1] == uv[m.loopNext[l2]]
  }

  /** edge_continuous(f1, f2): some loop of `f1` and some loop of `f2` match crosswise. */
  predicate EdgeContinuous(m: Mesh, uv: seq<Vec2>, f1: nat, f2: nat)
    requires UvOk(m, uv) && f1 < m.Faces() && f2 < m.Faces()
  {
    exists i, j :: 0 <= i < |m.faceLoops[f1]| && 0 <= j < |m.faceLoops[f2]|
      && CrossMatch(m, uv, m.faceLoops[f1][i], m.faceLoops[f2][j])
  }

  /** With exact UV equality, continuity does not depend on the order of the faces. */
  lemma ContinuousSymmetric(m: Mesh, uv: seq<Vec2>, f1: nat, f2: nat)
    requires UvOk(m, uv) && f1 < m.Faces() && f2 < m.Faces()
    ensures EdgeContinuous(m, uv, f1, f2) <==> EdgeContinuous(m, uv, f2, f1)
  {
    if EdgeContinuous(m, uv, f1, f2) {
      var i, j :| 0 <= i < |m.faceLoops[f1]| && 0 <= j < |m.faceLoops[f2]|
        && CrossMatch(m, uv, m.faceLoops[f1][i], m.faceLoops[f2][j]);
      assert CrossMatch(m, uv, m.faceLoops[f2][j], m.faceLoops[f1][i]);
    }
    if EdgeContinuous(m, uv, f2, f1) {
      var i, j :| 0 <= i < |m.faceLoops[f2]| && 0 <= j < |m.faceLoops[f1]|
        && CrossMatch(m, uv, m.faceLoops[f2][i], m.faceLoops[f1][j]);
      assert CrossMatch(m, uv, m.faceLoops[f1][j], m.faceLoops[f2][i]);
    }
  }

  /** uvedge_boundary(l): no other face of the loop's edge is continuous with the loop's face. */
  predicate UvEdgeBoundary(m: Mesh, uv: seq<Vec2>, l: nat)
    requires UvOk(m, uv) && l < m.Loops()
  {
    var fs := m.edgeFaces[m.loopEdge[l]];
    forall k :: 0 <= k < |fs| && fs[k] != m.loopFace[l] ==> !EdgeContinuous(m, uv, m.loopFace[l], fs[k])
  }

  /** A loop on a mesh boundary edge is always a UV boundary. */
  lemma MeshBoundaryIsUvBoundary(m: Mesh, uv: seq<Vec2>, l: nat)
    requires UvOk(m, uv) && l < m.Loops() && m.EdgeIsBoundary(m.loopEdge[l])
    ensures UvEdgeBoundary(m, uv, l)
  {
    var fs := m.edgeFaces[m.loopEdge[l]];
    assert m.loopFace[l] in fs;
    assert fs == [fs[0]];
  }

  /**
   * The two loops of an edge between two faces agree on whether the edge is
   * a UV boundary.
   */
  lemma BoundaryBothSides(m: Mesh, uv: seq<Vec2>, l1: nat, l2: nat)
    requires UvOk(m, uv) && l1 < m.Loops() && l2 < m.Loops()
    requires m.loopEdge[l1] == m.loopEdge[l2] && m.loopFace[l1] != m.loopFace[l2]
    requires |m.edgeFaces[m.loopEdge[l1]]| == 2
    ensures UvEdgeBoundary(m, uv, l1) <==> UvEdgeBoundary(m, uv, l2)
  {
    var fs := m.edgeFaces[m.loopEdge[l1]];
    var f1, f2 := m.loopFace[l1], m.loopFace[l2];
    assert f1 in fs && f2 in fs;
    assert forall k :: 0 <= k < |fs| && fs[k] != f1 ==> fs[k] == f2;
    assert forall k :: 0 <= k < |fs| && fs[k] != f2 ==> fs[k] == f1;
    ContinuousSymmetric(m, uv, f1, f2);
  }

  // ---------------------------------------------------------------------
  // Counting the UV edges at a corner

  /** The running state of the count: the continuous edges met so far and the count. */
  datatype Tally = Tally(counted: set<nat>, count: nat)

  /**
   * One loop of the count at corner `c`: an edge of c's vertex not counted
   * yet whose end at that vertex carries c's UV adds one; a non-boundary
   * one is remembered so that its other loop is not counted again.
   */
  function TallyLoop(m: Mesh, uv: seq<Vec2>, c: nat, t: Tally, l: nat): Tally
    requires UvOk(m, uv) && c < m.Loops() && l < m.Loops()
  {
    var v := m.loopVert[c];
    var e := m.loopEdge[l];
    if e !in m.vertEdges[v] || e in t.counted then t
    else if (if m.loopVert[l] == v then uv[l] == uv[c] else uv[m.loopNext[l]] == uv[c]) then
      Tally(if UvEdgeBoundary(m, uv, l) then t.counted else t.counted + {e}, t.count + 1)
    else t
  }

  /** The count carried over the loops `ls`, in order. */
  function TallyLoops(m: Mesh, uv: seq<Vec2>, c: nat, t: Tally, ls: seq<nat>): Tally
    requires UvOk(m, uv) && c < m.Loops() && forall i :: 0 <= i < |ls| ==> ls[i] < m.Loops()
  {
    if ls == [] then t else TallyLoop(m, uv, c, TallyLoops(m, uv, c, t, ls[..|ls| - 1]), ls[|ls| - 1])
  }

  /** The count carried over the loops of the faces `fs`, face after face. */
  function TallyFaces(m: Mesh, uv: seq<Vec2>, c: nat, fs: seq<nat>): Tally
    requires UvOk(m, uv) && c < m.Loops() && forall i :: 0 <= i < |fs| ==> fs[i] < m.Faces()
  {
    if fs == [] then Tally({}, 0)
    else
      var f := fs[|fs| - 1];
      assert f < m.Faces() == |m.faceLoops|;
      TallyLoops(m, uv, c, TallyFaces(m, uv, c, fs[..|fs| - 1]), m.faceLoops[f])
  }

  /** The number of UV edges coming out of corner `c`, over the faces of its vertex. */
  function UvEdgeCount(m: Mesh, uv: seq<Vec2>, c: nat): nat
    requires UvOk(m, uv) && c < m.Loops()
  {
    TallyFaces(m, uv, c, m.vertFaces[m.loopVert[c]]).count
  }

  /** The remembered edges are edges of the corner's vertex, and each was counted once. */
  ghost predicate TallyOk(m: Mesh, c: nat, t: Tally)
    requires m.Valid() && c < m.Loops()
  {
    t.counted <= Elems(m.vertEdges[m.loopVert[c]]) && |t.counted| <= t.count
  }

  /** Counting more loops keeps the remembered edges among the vertex's, and no more than the count. */
  lemma {:induction false} TallyLoopsOk(m: Mesh, uv: seq<Vec2>, c: nat, t: Tally, ls: seq<nat>)
    requires UvOk(m, uv) && c < m.Loops() && forall i :: 0 <= i < |ls| ==> ls[i] < m.Loops()
    requires TallyOk(m, c, t)
    ensures TallyOk(m, c, TallyLoops(m, uv, c, t, ls))
    ensures t.count <= TallyLoops(m, uv, c, t, ls).count <= t.count + |ls|
  {
    if ls != [] {
      TallyLoopsOk(m, uv, c, t, ls[..|ls| - 1]);
    }
  }

  /** The count at a corner bounds the number of continuous edges remembered, all of the vertex. */
  lemma {:induction false} TallyFacesOk(m: Mesh, uv: seq<Vec2>, c: nat, fs: seq<nat>)
    requires UvOk(m, uv) && c < m.Loops() && forall i :: 0 <= i < |fs| ==> fs[i] < m.Faces()
    ensures TallyOk(m, c, TallyFaces(m, uv, c, fs))
  {
    if fs != [] {
      TallyFacesOk(m, uv, c, fs[..|fs| - 1]);
      TallyLoopsOk(m, uv, c, TallyFaces(m, uv, c, fs[..|fs| - 1]), m.faceLoops[fs[|fs| - 1]]);
    }
  }

  /** The inner loop of the count: the loops of face `f`. */
  method CountFace(m: Mesh, uv: seq<Vec2>, c: nat, counted0: set<nat>, count0: nat, f: nat)
    returns (counted: set<nat>, count: nat)
    requires UvOk(m, uv) && c < m.Loops() && f < m.Faces()
    ensures Tally(counted, count) == TallyLoops(m, uv, c, Tally(counted0, count0), m.faceLoops[f])
  {
    var v := m.loopVert[c];
    var loops := m.faceLoops[f];
    counted, count := counted0, count0;
    for j := 0 to |loops|
      invariant Tally(counted, count) == TallyLoops(m, uv, c, Tally(counted0, count0), loops[..j])
    {
      assert loops[..j + 1][..j] == loops[..j];
      var l := loops[j];
      var e := m.loopEdge[l];
      if e !in m.vertEdges[v] || e in counted {
        continue;
      }
      if m.loopVert[l] == v {
        if uv[l] == uv[c] {
          if !UvEdgeBoundary(m, uv, l) {
            counted := counted + {e};
          }
          count := count + 1;
        }
      } else {
        if uv[m.loopNext[l]] == uv[c] {
          if !UvEdgeBoundary(m, uv, l) {
            counted := counted + {e};
          }
          count := count + 1;
        }
      }
    }
    assert loops[..|loops|] == loops;
  }

  /** The UV-edge count at the start of uvedge_loop_fwd and uvedge_loop_rev. */
  method CountUvEdges(m: Mesh, uv: seq<Vec2>, c: nat) returns (count: nat)
    requires UvOk(m, uv) && c < m.Loops()
    ensures count == UvEdgeCount(m, uv, c)
  {
    var fs := m.vertFaces[m.loopVert[c]];
    var counted: set<nat> := {};
    count := 0;
    for i := 0 to |fs|
      invariant Tally(counted, count) == TallyFaces(m, uv, c, fs[..i])
    {
      assert fs[..i + 1][..i] == fs[..i];
      counted, count := CountFace(m, uv, c, counted, count, fs[i]);
    }
    assert fs[..|fs|] == fs;
  }

  // ---------------------------------------------------------------------
  // The walks

  /** Which walk: uvedge_loop_fwd, uvedge_loop_rev or uvedge_ring. */
  datatype Walk = Forward | Backward | Ring

  /**
   * One step of a loop walk: the next loop forward, the previous one
   * backward. It gives both the pivot whose edge the walk crosses and the
   * loop appended after a loop found on that edge.
   */
  function WalkStep(m: Mesh, l: nat, w: Walk): (r: nat)
    requires m.Valid() && l < m.Loops()
    ensures r < m.Loops()
  {
    if w.Forward? then m.loopNext[l] else m.loopPrev[l]
  }

  /** The corner whose UV edges a loop walk counts: the next loop forward, the loop itself backward. */
  function Corner(m: Mesh, p: nat, w: Walk): (r: nat)
    requires m.Valid() && p < m.Loops()
    ensures r < m.Loops()
  {
    if w.Forward? then m.loopNext[p] else p
  }

  /** The loop across a quad from `p` (link_loop_next.link_loop_next). */
  function Opposite(m: Mesh, p: nat): (r: nat)
    requires m.Valid() && p < m.Loops()
    ensures r < m.Loops()
  {
    m.loopNext[m.loopNext[p]]
  }

  /**
   * The walk may append `x` after reaching `p`. A loop walk: the count at
   * p's corner is 3 or 4, the pivot is not a UV boundary, `x` follows a
   * loop of another face on the pivot's edge, and with count 3 `x` is a UV
   * boundary. A ring: `x` is across p's quad, or lies on p's edge in a face
   * continuous with p's.
   */
  ghost predicate Step(m: Mesh, uv: seq<Vec2>, w: Walk, p: nat, x: nat)
    requires UvOk(m, uv)
  {
    p < m.Loops() && x < m.Loops() &&
    if w.Ring? then
      || (|m.faceLoops[m.loopFace[p]]| == 4 && x == Opposite(m, p))
      || (m.loopEdge[x] == m.loopEdge[p] && EdgeContinuous(m, uv, m.loopFace[x], m.loopFace[p]))
    else
      var nl := WalkStep(m, p, w);
      var c := UvEdgeCount(m, uv, Corner(m, p, w));
      && (c == 3 || c == 4) && !UvEdgeBoundary(m, uv, nl)
      && (exists l :: 0 <= l < m.Loops() && m.loopEdge[l] == m.loopEdge[nl] && m.loopFace[l] != m.loopFace[nl]
                      && WalkStep(m, l, w) == x)
      && (c == 3 ==> UvEdgeBoundary(m, uv, x))
  }

  /** The steps a walk of kind `w` may take, as (from, to) pairs. */
  ghost function Links(m: Mesh, uv: seq<Vec2>, w: Walk): set<(nat, nat)>
    requires UvOk(m, uv)
  {
    set p: nat, x: nat | p < m.Loops() && x < m.Loops() && Step(m, uv, w, p, x) :: (p, x)
  }

  lemma InLinks(m: Mesh, uv: seq<Vec2>, w: Walk, p: nat, x: nat)
    requires UvOk(m, uv) && Step(m, uv, w, p, x)
    ensures (p, x) in Links(m, uv, w)
  {
  }

  /** Each appended loop is one step from a root or from a loop appended before it. */
  ghost predicate Reached(links: set<(nat, nat)>, roots: set<nat>, added: seq<nat>)
  {
    forall k :: 0 <= k < |added| ==> exists p :: (p in roots || p in added[..k]) && (p, added[k]) in links
  }

  /**
   * What a walk did to the tags: it appended `added`, loops that were
   * untagged before, each once; the tags set now are exactly those set
   * before and the appended loops.
   */
  ghost predicate Fresh(before: seq<bool>, after: seq<bool>, added: seq<nat>)
  {
    && |before| == |after|
    && (forall k :: 0 <= k < |added| ==> added[k] < |before| && !before[added[k]])
    && (forall l :: 0 <= l < |after| ==> after[l] == (before[l] || l in added))
    && Distinct(added)
  }

  /** A walk's whole effect: fresh loops appended, each reached by a step. */
  ghost predicate Grown(m: Mesh, uv: seq<Vec2>, w: Walk, roots: set<nat>, before: seq<bool>, after: seq<bool>,
                        added: seq<nat>)
    requires UvOk(m, uv)
  {
    |before| == m.Loops() && Fresh(before, after, added) && Reached(Links(m, uv, w), roots, added)
  }

  /** Tagging loops never adds untagged ones. */
  lemma FreshUntagged(t0: seq<bool>, t1: seq<bool>, a: seq<nat>)
    requires Fresh(t0, t1, a)
    ensures |Untagged(t1)| <= |Untagged(t0)|
  {
    assert Untagged(t1) <= Untagged(t0);
    SubsetCard(Untagged(t1), Untagged(t0));
  }

  /** Two walks one after the other tag fresh loops, each once. */
  lemma FreshTrans(t0: seq<bool>, t1: seq<bool>, t2: seq<bool>, a: seq<nat>, b: seq<nat>)
    requires Fresh(t0, t1, a) && Fresh(t1, t2, b)
    ensures Fresh(t0, t2, a + b)
  {
    var c := a + b;
    assert forall x :: x in b ==> x !in a by {
      forall x | x in b ensures x !in a {
        var k :| 0 <= k < |b| && b[k] == x;
        assert !t1[x];
      }
    }
    DistinctAppend(a, b);
    forall k | 0 <= k < |c| ensures c[k] < |t0| && !t0[c[k]] {
      if k >= |a| {
        assert c[k] == b[k - |a|];
        assert !t1[c[k]];
      }
    }
  }

  /** The loops reached by a second walk, rooted at a root or an appended loop of the first, are reached. */
  lemma ReachedTrans(links: set<(nat, nat)>, roots: set<nat>, x: nat, a: seq<nat>, b: seq<nat>)
    requires x in roots || x in a
    requires Reached(links, roots, a) && Reached(links, {x}, b)
    ensures Reached(links, roots, a + b)
  {
    var c := a + b;
    forall k | 0 <= k < |c| ensures exists p :: (p in roots || p in c[..k]) && (p, c[k]) in links {
      if k < |a| {
        var p :| (p in roots || p in a[..k]) && (p, a[k]) in links;
        assert c[..k] == a[..k] && c[k] == a[k];
      } else {
        var k' := k - |a|;
        var p :| (p == x || p in b[..k']) && (p, b[k']) in links;
        assert c[..k] == a + b[..k'] && c[k] == b[k'];
        assert p in roots || p in c[..k];
      }
    }
  }

  lemma SuffixSnoc(g: seq<nat>, n: nat, x: nat)
    requires n <= |g|
    ensures (g + [x])[n..] == g[n..] + [x] && (g + [x])[..n] == g[..n]
  {
  }

  lemma SuffixJoin(g: seq<nat>, g1: seq<nat>, n: nat)
    requires n <= |g1| <= |g| && g[..|g1|] == g1
    ensures g[n..] == g1[n..] + g[|g1|..] && g[..n] == g1[..n]
  {
    assert g == g[..|g1|] + g[|g1|..];
  }

  /** A group that grew from `group + [x]` starts with `group`, then `x`, then the rest. */
  lemma AfterSnoc(group: seq<nat>, x: nat, g: seq<nat>)
    requires |group| + 1 <= |g| && g[..|group| + 1] == group + [x]
    ensures g[..|group|] == group && g[|group|] == x && g[|group|..] == [x] + g[|group| + 1..]
  {
    assert g[..|group|] == g[..|group| + 1][..|group|];
    assert g[|group|] == g[..|group| + 1][|group|];
  }

  /** Nothing appended, nothing tagged. */
  lemma GrownNone(m: Mesh, uv: seq<Vec2>, w: Walk, roots: set<nat>, t: seq<bool>)
    requires UvOk(m, uv) && |t| == m.Loops()
    ensures Grown(m, uv, w, roots, t, t, [])
  {
  }

  /**
   * Tagging and appending an untagged loop that a root or an appended loop
   * steps to; fewer loops are untagged than at the start.
   */
  lemma Appended(links: set<(nat, nat)>, roots: set<nat>, t0: seq<bool>, t1: seq<bool>, a: seq<nat>, p: nat, x: nat)
    requires Fresh(t0, t1, a) && Reached(links, roots, a)
    requires (p in roots || p in a) && (p, x) in links && x < |t1| && !t1[x]
    ensures Fresh(t0, t1[x := true], a + [x]) && Reached(links, roots, a + [x])
    ensures |Untagged(t1[x := true])| < |Untagged(t0)|
  {
    assert Fresh(t1, t1[x := true], [x]);
    FreshTrans(t0, t1, t1[x := true], a, [x]);
    assert Reached(links, {p}, [x]) by {
      assert [x][..0] == [];
    }
    ReachedTrans(links, roots, p, a, [x]);
    FreshUntagged(t0, t1, a);
    assert Untagged(t1[x := true]) <= Untagged(t1) - {x};
    SubsetCard(Untagged(t1[x := true]), Untagged(t1) - {x});
  }

  /** A walk continued by one rooted at a root or an appended loop. */
  lemma Continued(links: set<(nat, nat)>, roots: set<nat>, t0: seq<bool>, t1: seq<bool>, t2: seq<bool>,
                  a: seq<nat>, x: nat, b: seq<nat>)
    requires Fresh(t0, t1, a) && Reached(links, roots, a)
    requires (x in roots || x in a) && Fresh(t1, t2, b) && Reached(links, {x}, b)
    ensures Fresh(t0, t2, a + b) && Reached(links, roots, a + b)
    ensures |Untagged(t2)| <= |Untagged(t0)|
  {
    FreshTrans(t0, t1, t2, a, b);
    ReachedTrans(links, roots, x, a, b);
    FreshUntagged(t0, t2, a + b);
  }

  /** Every loop is listed among the loops of its own face, as BMesh keeps it. */
  ghost predicate LoopsListed(m: Mesh)
    requires m.Valid()
  {
    forall l :: 0 <= l < m.Loops() ==> l in m.faceLoops[m.loopFace[l]]
  }

  /** Tags only get set: every loop tagged in `t1` is tagged in `t2`. */
  ghost predicate Grows(t1: seq<bool>, t2: seq<bool>)
  {
    |t1| == |t2| && forall l :: 0 <= l < |t1| && t1[l] ==> t2[l]
  }

  lemma FreshGrows(t1: seq<bool>, t2: seq<bool>, a: seq<nat>)
    requires Fresh(t1, t2, a)
    ensures Grows(t1, t2)
  {
  }

  /** Every step a walk may take from one of `ps` leads to a tagged loop. */
  ghost predicate Closed(links: set<(nat, nat)>, ps: seq<nat>, t: seq<bool>)
  {
    forall p, x :: p in ps && (p, x) in links ==> x < |t| && t[x]
  }

  lemma ClosedGrows(links: set<(nat, nat)>, ps: seq<nat>, t1: seq<bool>, t2: seq<bool>)
    requires Closed(links, ps, t1) && Grows(t1, t2)
    ensures Closed(links, ps, t2)
  {
  }

  lemma ClosedJoin(links: set<(nat, nat)>, a: seq<nat>, b: seq<nat>, t: seq<bool>)
    requires Closed(links, a, t) && Closed(links, b, t)
    ensures Closed(links, a + b, t)
  {
  }

  /**
   * Loop `l` is one the scan from pivot `nl` tags the follower of: it lies
   * on the pivot's edge and, with three UV edges, its follower is a UV
   * boundary.
   */
  ghost predicate Candidate(m: Mesh, uv: seq<Vec2>, w: Walk, nl: nat, count: nat, l: nat)
    requires UvOk(m, uv) && nl < m.Loops() && l < m.Loops()
  {
    m.loopEdge[l] == m.loopEdge[nl] && (count == 3 ==> UvEdgeBoundary(m, uv, WalkStep(m, l, w)))
  }

  /** The followers of the candidates among the first `n` loops of face `f` are tagged. */
  ghost predicate FaceScanned(m: Mesh, uv: seq<Vec2>, w: Walk, nl: nat, count: nat, f: nat, t: seq<bool>, n: nat)
    requires UvOk(m, uv) && nl < m.Loops() && f < m.Faces() && n <= |m.faceLoops[f]| && |t| == m.Loops()
  {
    forall j :: 0 <= j < n && Candidate(m, uv, w, nl, count, m.faceLoops[f][j]) ==> t[WalkStep(m, m.faceLoops[f][j], w)]
  }

  /** The first `n` faces of the pivot's edge, other than the pivot's own, are scanned. */
  ghost predicate EdgeScanned(m: Mesh, uv: seq<Vec2>, w: Walk, nl: nat, count: nat, t: seq<bool>, n: nat)
    requires UvOk(m, uv) && nl < m.Loops() && |t| == m.Loops() && n <= |m.edgeFaces[m.loopEdge[nl]]|
  {
    var fs := m.edgeFaces[m.loopEdge[nl]];
    forall i :: 0 <= i < n && fs[i] != m.loopFace[nl] ==> FaceScanned(m, uv, w, nl, count, fs[i], t, |m.faceLoops[fs[i]]|)
  }

  lemma FaceScannedGrows(m: Mesh, uv: seq<Vec2>, w: Walk, nl: nat, count: nat, f: nat, t1: seq<bool>, t2: seq<bool>, n: nat)
    requires UvOk(m, uv) && nl < m.Loops() && f < m.Faces() && n <= |m.faceLoops[f]| && |t1| == m.Loops()
    requires FaceScanned(m, uv, w, nl, count, f, t1, n) && Grows(t1, t2)
    ensures FaceScanned(m, uv, w, nl, count, f, t2, n)
  {
  }

  /** One more loop of the face scanned: not a candidate, or its follower tagged. */
  lemma FaceScannedNext(m: Mesh, uv: seq<Vec2>, w: Walk, nl: nat, count: nat, f: nat, t: seq<bool>, n: nat)
    requires UvOk(m, uv) && nl < m.Loops() && f < m.Faces() && n < |m.faceLoops[f]| && |t| == m.Loops()
    requires FaceScanned(m, uv, w, nl, count, f, t, n)
    requires Candidate(m, uv, w, nl, count, m.faceLoops[f][n]) ==> t[WalkStep(m, m.faceLoops[f][n], w)]
    ensures FaceScanned(m, uv, w, nl, count, f, t, n + 1)
  {
  }

  lemma EdgeScannedGrows(m: Mesh, uv: seq<Vec2>, w: Walk, nl: nat, count: nat, t1: seq<bool>, t2: seq<bool>, n: nat)
    requires UvOk(m, uv) && nl < m.Loops() && |t1| == m.Loops() && n <= |m.edgeFaces[m.loopEdge[nl]]|
    requires EdgeScanned(m, uv, w, nl, count, t1, n) && Grows(t1, t2)
    ensures EdgeScanned(m, uv, w, nl, count, t2, n)
  {
    var fs := m.edgeFaces[m.loopEdge[nl]];
    forall i | 0 <= i < n && fs[i] != m.loopFace[nl]
      ensures FaceScanned(m, uv, w, nl, count, fs[i], t2, |m.faceLoops[fs[i]]|)
    {
      FaceScannedGrows(m, uv, w, nl, count, fs[i], t1, t2, |m.faceLoops[fs[i]]|);
    }
  }

  /**
   * Once every other face of the pivot's edge is scanned, every step of the
   * walk from `p` leads to a tagged loop.
   */
  lemma PivotClosed(m: Mesh, uv: seq<Vec2>, w: Walk, p: nat, t: seq<bool>)
    requires UvOk(m, uv) && LoopsListed(m) && p < m.Loops() && !w.Ring? && |t| == m.Loops()
    requires var nl := WalkStep(m, p, w);
             EdgeScanned(m, uv, w, nl, UvEdgeCount(m, uv, Corner(m, p, w)), t, |m.edgeFaces[m.loopEdge[nl]]|)
    ensures Closed(Links(m, uv, w), [p], t)
  {
    var nl := WalkStep(m, p, w);
    var count := UvEdgeCount(m, uv, Corner(m, p, w));
    var fs := m.edgeFaces[m.loopEdge[nl]];
    forall x | (p, x) in Links(m, uv, w) ensures x < |t| && t[x] {
      assert Step(m, uv, w, p, x);
      var l :| 0 <= l < m.Loops() && m.loopEdge[l] == m.loopEdge[nl] && m.loopFace[l] != m.loopFace[nl]
               && WalkStep(m, l, w) == x;
      var f := m.loopFace[l];
      assert f in fs;
      var i :| 0 <= i < |fs| && fs[i] == f;
      assert l in m.faceLoops[f];
      var j :| 0 <= j < |m.faceLoops[f]| && m.faceLoops[f][j] == l;
      assert Candidate(m, uv, w, nl, count, m.faceLoops[f][j]);
    }
  }

  /** With a count other than 3 or 4, or a boundary pivot, a loop walk has no step from `p`. */
  lemma NoStepFrom(m: Mesh, uv: seq<Vec2>, w: Walk, p: nat, t: seq<bool>)
    requires UvOk(m, uv) && p < m.Loops() && !w.Ring?
    requires var c := UvEdgeCount(m, uv, Corner(m, p, w));
             (c != 3 && c != 4) || UvEdgeBoundary(m, uv, WalkStep(m, p, w))
    ensures Closed(Links(m, uv, w), [p], t)
  {
  }

  /**
   * uvedge_loop_fwd (Forward) and uvedge_loop_rev (Backward): when the
   * corner has 3 or 4 UV edges and the pivot is not a UV boundary, every
   * untagged loop that follows a loop of another face on the pivot's edge
   * (with 3 edges, only a UV boundary one) is tagged, appended and walked
   * from. The group keeps its prefix and gains untagged loops only, each
   * once, each one step from the start or from a loop appended before it;
   * and every step from the start or from an appended loop ends at a
   * tagged loop, so the walk leaves nothing of the UV loop behind.
   */
  method LoopWalk(m: Mesh, uv: seq<Vec2>, tag: array<bool>, loop: nat, group: seq<nat>, w: Walk)
    returns (g: seq<nat>)
    requires UvOk(m, uv) && LoopsListed(m) && tag.Length == m.Loops() && loop < m.Loops() && !w.Ring?
    modifies tag
    ensures |group| <= |g| && g[..|group|] == group
    ensures Grown(m, uv, w, {loop}, old(tag[..]), tag[..], g[|group|..])
    ensures Closed(Links(m, uv, w), [loop] + g[|group|..], tag[..])
    ensures var c := UvEdgeCount(m, uv, Corner(m, loop, w));
            ((c != 3 && c != 4) || UvEdgeBoundary(m, uv, WalkStep(m, loop, w))) ==> g == group
    decreases |Untagged(tag[..])|, 3
  {
    var nl := WalkStep(m, loop, w);
    var count := CountUvEdges(m, uv, Corner(m, loop, w));
    g := group;
    GrownNone(m, uv, w, {loop}, tag[..]);
    if (count != 3 && count != 4) || UvEdgeBoundary(m, uv, nl) {
      NoStepFrom(m, uv, w, loop, tag[..]);
      assert [loop] + g[|group|..] == [loop];
      return;
    }
    g := ScanFaces(m, uv, tag, loop, nl, count, group, w);
    PivotClosed(m, uv, w, loop, tag[..]);
    ClosedJoin(Links(m, uv, w), [loop], g[|group|..], tag[..]);
  }

  /** The loop of uvedge_loop_fwd/rev over the other faces of the pivot's edge. */
  method ScanFaces(m: Mesh, uv: seq<Vec2>, tag: array<bool>, p: nat, nl: nat, count: nat, group: seq<nat>, w: Walk)
    returns (g: seq<nat>)
    requires UvOk(m, uv) && LoopsListed(m) && tag.Length == m.Loops() && p < m.Loops() && !w.Ring?
    requires nl == WalkStep(m, p, w) && count == UvEdgeCount(m, uv, Corner(m, p, w))
    requires (count == 3 || count == 4) && !UvEdgeBoundary(m, uv, nl)
    modifies tag
    ensures |group| <= |g| && g[..|group|] == group
    ensures Grown(m, uv, w, {p}, old(tag[..]), tag[..], g[|group|..])
    ensures Closed(Links(m, uv, w), g[|group|..], tag[..])
    ensures EdgeScanned(m, uv, w, nl, count, tag[..], |m.edgeFaces[m.loopEdge[nl]]|)
    decreases |Untagged(tag[..])|, 2
  {
    var fs := m.edgeFaces[m.loopEdge[nl]];
    g := group;
    GrownNone(m, uv, w, {p}, tag[..]);
    for i := 0 to |fs|
      invariant |group| <= |g| && g[..|group|] == group
      invariant Grown(m, uv, w, {p}, old(tag[..]), tag[..], g[|group|..])
      invariant |Untagged(tag[..])| <= |Untagged(old(tag[..]))|
      invariant Closed(Links(m, uv, w), g[|group|..], tag[..])
      invariant EdgeScanned(m, uv, w, nl, count, tag[..], i)
    {
      if fs[i] == m.loopFace[nl] {
        continue;
      }
      ghost var t1 := tag[..];
      ghost var g1 := g;
      g := ScanFace(m, uv, tag, p, nl, count, fs[i], g, w);
      Continued(Links(m, uv, w), {p}, old(tag[..]), t1, tag[..], g1[|group|..], p, g[|g1|..]);
      SuffixJoin(g, g1, |group|);
      FreshGrows(t1, tag[..], g[|g1|..]);
      ClosedGrows(Links(m, uv, w), g1[|group|..], t1, tag[..]);
      ClosedJoin(Links(m, uv, w), g1[|group|..], g[|g1|..], tag[..]);
      EdgeScannedGrows(m, uv, w, nl, count, t1, tag[..], i);
    }
  }

  /** The inner loop of uvedge_loop_fwd/rev: the loops of face `f` on the pivot's edge. */
  method ScanFace(m: Mesh, uv: seq<Vec2>, tag: array<bool>, p: nat, nl: nat, count: nat, f: nat, group: seq<nat>, w: Walk)
    returns (g: seq<nat>)
    requires UvOk(m, uv) && LoopsListed(m) && tag.Length == m.Loops() && p < m.Loops() && !w.Ring?
    requires nl == WalkStep(m, p, w) && count == UvEdgeCount(m, uv, Corner(m, p, w))
    requires (count == 3 || count == 4) && !UvEdgeBoundary(m, uv, nl)
    requires f < m.Faces() && f != m.loopFace[nl]
    modifies tag
    ensures |group| <= |g| && g[..|group|] == group
    ensures Grown(m, uv, w, {p}, old(tag[..]), tag[..], g[|group|..])
    ensures Closed(Links(m, uv, w), g[|group|..], tag[..])
    ensures FaceScanned(m, uv, w, nl, count, f, tag[..], |m.faceLoops[f]|)
    decreases |Untagged(tag[..])|, 1
  {
    var loops := m.faceLoops[f];
    g := group;
    GrownNone(m, uv, w, {p}, tag[..]);
    for j := 0 to |loops|
      invariant |group| <= |g| && g[..|group|] == group
      invariant Grown(m, uv, w, {p}, old(tag[..]), tag[..], g[|group|..])
      invariant |Untagged(tag[..])| <= |Untagged(old(tag[..]))|
      invariant Closed(Links(m, uv, w), g[|group|..], tag[..])
      invariant FaceScanned(m, uv, w, nl, count, f, tag[..], j)
    {
      var l := loops[j];
      var next := WalkStep(m, l, w);
      if m.loopEdge[l] != m.loopEdge[nl] || tag[next] || (count == 3 && !UvEdgeBoundary(m, uv, next)) {
        FaceScannedNext(m, uv, w, nl, count, f, tag[..], j);
        continue;
      }
      assert Step(m, uv, w, p, next) by {
        assert m.loopFace[l] == f;
      }
      InLinks(m, uv, w, p, next);
      ghost var t1 := tag[..];
      ghost var g1 := g;
      g := Take(m, uv, tag, p, next, g, w);
      ghost var t2 := tag[..];
      assert t2[WalkStep(m, m.faceLoops[f][j], w)] by {
        assert m.faceLoops[f][j] == l && tag[next];
      }
      Continued(Links(m, uv, w), {p}, old(tag[..]), t1, tag[..], g1[|group|..], p, g[|g1|..]);
      SuffixJoin(g, g1, |group|);
      FreshGrows(t1, tag[..], g[|g1|..]);
      ClosedGrows(Links(m, uv, w), g1[|group|..], t1, tag[..]);
      ClosedJoin(Links(m, uv, w), g1[|group|..], g[|g1|..], tag[..]);
      FaceScannedGrows(m, uv, w, nl, count, f, t1, t2, j);
      FaceScannedNext(m, uv, w, nl, count, f, t2, j);
    }
  }

  /**
   * The body of that scan for one follower `next` of the pivot's edge,
   * untagged: tag it, append it and walk on from it.
   */
  method Take(m: Mesh, uv: seq<Vec2>, tag: array<bool>, p: nat, next: nat, group: seq<nat>, w: Walk)
    returns (g: seq<nat>)
    requires UvOk(m, uv) && LoopsListed(m) && tag.Length == m.Loops() && !w.Ring?
    requires (p, next) in Links(m, uv, w) && next < m.Loops() && !tag[next]
    modifies tag
    ensures |group| < |g| && g[..|group|] == group && g[|group|] == next && tag[next]
    ensures Grown(m, uv, w, {p}, old(tag[..]), tag[..], g[|group|..])
    ensures Closed(Links(m, uv, w), g[|group|..], tag[..])
    decreases |Untagged(tag[..])|, 0
  {
    ghost var t1 := tag[..];
    tag[next] := true;
    assert tag[..] == t1[next := true];
    TagOne(Links(m, uv, w), p, t1, next);
    ghost var t2 := tag[..];
    g := LoopWalk(m, uv, tag, next, group + [next], w);
    TakeGrown(m, uv, w, p, next, t1, t2, tag[..], group, g);
  }

  /**
   * Tagging `x`, appending it to `group` and walking on from it to reach
   * `g`: the whole is one walk from `p`, and what is closed from `x` and the
   * loops after it is closed from everything appended.
   */
  lemma TakeGrown(m: Mesh, uv: seq<Vec2>, w: Walk, p: nat, x: nat, t1: seq<bool>, t2: seq<bool>, t3: seq<bool>,
                  group: seq<nat>, g: seq<nat>)
    requires UvOk(m, uv) && |t1| == m.Loops()
    requires Fresh(t1, t2, [x]) && Reached(Links(m, uv, w), {p}, [x])
    requires |group| + 1 <= |g| && g[..|group| + 1] == group + [x]
    requires Grown(m, uv, w, {x}, t2, t3, g[|group| + 1..])
    ensures |group| < |g| && g[..|group|] == group && g[|group|] == x && x < |t3| && t3[x]
    ensures Grown(m, uv, w, {p}, t1, t3, g[|group|..])
    ensures Closed(Links(m, uv, w), [x] + g[|group| + 1..], t3) ==> Closed(Links(m, uv, w), g[|group|..], t3)
  {
    AfterSnoc(group, x, g);
    TakeDone(Links(m, uv, w), p, x, t1, t2, t3, g[|group| + 1..]);
  }

  /** Tagging one untagged loop that `p` steps to. */
  lemma TagOne(links: set<(nat, nat)>, p: nat, t: seq<bool>, x: nat)
    requires (p, x) in links && x < |t| && !t[x]
    ensures Fresh(t, t[x := true], [x]) && Reached(links, {p}, [x])
    ensures |Untagged(t[x := true])| < |Untagged(t)|
  {
    assert Fresh(t, t, []);
    Appended(links, {p}, t, t, [], p, x);
  }

  /** Tagging `x` and then walking on from it: the whole is one walk from `p`. */
  lemma TakeDone(links: set<(nat, nat)>, p: nat, x: nat, t1: seq<bool>, t2: seq<bool>, t3: seq<bool>, b: seq<nat>)
    requires Fresh(t1, t2, [x]) && Reached(links, {p}, [x])
    requires Fresh(t2, t3, b) && Reached(links, {x}, b)
    ensures Fresh(t1, t3, [x] + b) && Reached(links, {p}, [x] + b)
    ensures x < |t3| && t3[x]
  {
    Continued(links, {p}, t1, t2, t3, [x], x, b);
    assert x in [x] && t2[x];
  }

  /**
   * `x` lies on the edge of `p`, in another face whose UVs continue p's
   * face across that edge: the loops a ring walk crosses to from `p`.
   */
  ghost predicate CrossesTo(m: Mesh, uv: seq<Vec2>, p: nat, x: nat)
    requires UvOk(m, uv) && p < m.Loops() && x < m.Loops()
  {
    && m.loopEdge[x] == m.loopEdge[p] && m.loopFace[x] != m.loopFace[p]
    && EdgeContinuous(m, uv, m.loopFace[x], m.loopFace[p])
  }

  /** Loops `l1` and `l2` belong to one face and lie on one edge. */
  ghost predicate Twins(m: Mesh, l1: nat, l2: nat)
    requires m.Valid()
  {
    l1 < m.Loops() && l2 < m.Loops() && m.loopEdge[l1] == m.loopEdge[l2] && m.loopFace[l1] == m.loopFace[l2]
  }

  /** Edge `e` borders at most two faces, each through one loop. */
  ghost predicate ManifoldEdge(m: Mesh, e: nat)
    requires m.Valid() && e < m.Edges()
  {
    && |m.edgeFaces[e]| <= 2
    && forall l1: nat, l2: nat {:trigger Twins(m, l1, l2)} :: Twins(m, l1, l2) && m.loopEdge[l1] == e ==> l1 == l2
  }

  /** Every loop a ring walk can cross to from `p` is tagged. */
  ghost predicate AllCrossed(m: Mesh, uv: seq<Vec2>, p: nat, t: seq<bool>)
    requires UvOk(m, uv) && p < m.Loops() && |t| == m.Loops()
  {
    forall x {:trigger CrossesTo(m, uv, p, x)} :: 0 <= x < m.Loops() && CrossesTo(m, uv, p, x) ==> t[x]
  }

  /** Those of them in the faces `fs[..i]` are tagged. */
  ghost predicate CrossedInto(m: Mesh, uv: seq<Vec2>, p: nat, fs: seq<nat>, i: nat, t: seq<bool>)
    requires UvOk(m, uv) && p < m.Loops() && |t| == m.Loops() && i <= |fs|
  {
    forall x {:trigger CrossesTo(m, uv, p, x)} ::
      0 <= x < m.Loops() && CrossesTo(m, uv, p, x) && m.loopFace[x] in fs[..i] ==> t[x]
  }

  /** Every loop of face `f` on edge `e` is tagged. */
  ghost predicate FaceTagged(m: Mesh, e: nat, f: nat, t: seq<bool>)
    requires m.Valid() && |t| == m.Loops()
  {
    forall x :: 0 <= x < m.Loops() && m.loopEdge[x] == e && m.loopFace[x] == f ==> t[x]
  }

  /** On a manifold edge, two faces other than a third one are the same face. */
  lemma OtherFace(m: Mesh, e: nat, a: nat, b: nat, c: nat)
    requires m.Valid() && e < m.Edges() && ManifoldEdge(m, e)
    requires a in m.edgeFaces[e] && b in m.edgeFaces[e] && c in m.edgeFaces[e] && a != c && b != c
    ensures a == b
  {
    var fs := m.edgeFaces[e];
    assert a == fs[0] || a == fs[1];
    assert b == fs[0] || b == fs[1];
    assert c == fs[0] || c == fs[1];
  }

  /**
   * On a manifold edge, a tagged loop of the face across from `p` is the
   * only loop a ring walk can cross to from `p`, so all of them are tagged.
   */
  lemma CrossingsTagged(m: Mesh, uv: seq<Vec2>, p: nat, c: nat, t: seq<bool>)
    requires UvOk(m, uv) && p < m.Loops() && c < m.Loops() && |t| == m.Loops()
    requires ManifoldEdge(m, m.loopEdge[p]) && m.loopEdge[c] == m.loopEdge[p]
    requires m.loopFace[c] != m.loopFace[p] && t[c]
    ensures AllCrossed(m, uv, p, t)
  {
    forall x | 0 <= x < m.Loops() && CrossesTo(m, uv, p, x)
      ensures t[x]
    {
      OtherFace(m, m.loopEdge[p], m.loopFace[x], m.loopFace[c], m.loopFace[p]);
      assert Twins(m, x, c);
    }
  }

  /**
   * After a ring walk from `loop` on a quad whose loop across was untagged
   * before (`t0`), and whose edge is manifold, every loop the walk can cross
   * to from the loop across is tagged.
   */
  ghost predicate RingClosed(m: Mesh, uv: seq<Vec2>, loop: nat, t0: seq<bool>, t: seq<bool>)
    requires UvOk(m, uv) && loop < m.Loops() && |t0| == m.Loops() && |t| == m.Loops()
  {
    var o := Opposite(m, loop);
    |m.faceLoops[m.loopFace[loop]]| == 4 && !t0[o] && ManifoldEdge(m, m.loopEdge[o]) ==> AllCrossed(m, uv, o, t)
  }

  /**
   * uvedge_ring: on a quad, the loop across the face is tagged and appended
   * (unless already tagged), then every loop of another face on its edge
   * whose face is continuous with the current one becomes the current loop;
   * an already tagged one ends the walk, an untagged one is tagged, appended
   * and walked from. Not a quad: nothing happens. On a quad the loop across
   * ends tagged, and when the walk appended it and its edge is manifold,
   * so does every loop the walk can cross to from it.
   */
  method RingWalk(m: Mesh, uv: seq<Vec2>, tag: array<bool>, loop: nat, group: seq<nat>) returns (g: seq<nat>)
    requires UvOk(m, uv) && LoopsListed(m) && tag.Length == m.Loops() && loop < m.Loops()
    modifies tag
    ensures |group| <= |g| && g[..|group|] == group
    ensures Grown(m, uv, Ring, {loop}, old(tag[..]), tag[..], g[|group|..])
    ensures |m.faceLoops[m.loopFace[loop]]| != 4 || old(tag[Opposite(m, loop)]) ==> g == group
    ensures |m.faceLoops[m.loopFace[loop]]| == 4 ==> tag[Opposite(m, loop)]
    ensures |m.faceLoops[m.loopFace[loop]]| == 4 && !old(tag[Opposite(m, loop)]) ==>
              |g| > |group| && g[|group|] == Opposite(m, loop)
    ensures RingClosed(m, uv, loop, old(tag[..]), tag[..])
    decreases |Untagged(tag[..])|, 4
  {
    g := group;
    GrownNone(m, uv, Ring, {loop}, tag[..]);
    if |m.faceLoops[m.loopFace[loop]]| != 4 {
      return;
    }
    var next := Opposite(m, loop);
    if tag[next] {
      return;
    }
    ghost var t1 := tag[..];
    tag[next] := true;
    assert tag[..] == t1[next := true];
    InLinks(m, uv, Ring, loop, next);
    TagOne(Links(m, uv, Ring), loop, t1, next);
    ghost var t2 := tag[..];
    var g1 := RingEdge(m, uv, tag, next, group + [next]);
    ghost var b := g1[|group| + 1..];
    TakeDone(Links(m, uv, Ring), loop, next, t1, t2, tag[..], b);
    g := g1;
    AfterSnoc(group, next, g);
  }

  /**
   * The loop of uvedge_ring over the faces of the edge of `next`, the loop
   * just tagged: the current loop starts as `next` and moves across each
   * continuous face; a tagged one ends the walk. On a manifold edge every
   * loop the walk can cross to from `next` ends tagged.
   */
  method RingEdge(m: Mesh, uv: seq<Vec2>, tag: array<bool>, next: nat, group: seq<nat>) returns (g: seq<nat>)
    requires UvOk(m, uv) && LoopsListed(m) && tag.Length == m.Loops() && next < m.Loops()
    modifies tag
    ensures |group| <= |g| && g[..|group|] == group
    ensures Grown(m, uv, Ring, {next}, old(tag[..]), tag[..], g[|group|..])
    ensures ManifoldEdge(m, m.loopEdge[next]) ==> AllCrossed(m, uv, next, tag[..])
    decreases |Untagged(tag[..])|, 3
  {
    g := group;
    GrownNone(m, uv, Ring, {next}, tag[..]);
    var cur := next;
    ghost var at := 0;
    var e := m.loopEdge[next];
    var fs := m.edgeFaces[e];
    ghost var man := ManifoldEdge(m, e);
    for i := 0 to |fs|
      invariant |group| <= |g| && g[..|group|] == group
      invariant Grown(m, uv, Ring, {next}, old(tag[..]), tag[..], g[|group|..])
      invariant |Untagged(tag[..])| <= |Untagged(old(tag[..]))|
      invariant cur < m.Loops() && (cur == next || (|group| <= at < |g| && g[at] == cur))
      invariant m.loopEdge[cur] == e
      invariant man ==> cur == next || (m.loopFace[cur] != m.loopFace[next] && tag[cur])
      invariant man ==> CrossedInto(m, uv, next, fs, i, tag[..])
    {
      if fs[i] == m.loopFace[cur] {
        RingEdgeSkip(m, uv, next, cur, fs, i, tag[..]);
        continue;
      }
      ghost var t1 := tag[..];
      ghost var g1 := g;
      ghost var c0 := cur;
      assert c0 == next || c0 in g1[|group|..] by {
        if c0 != next {
          assert g1[|group|..][at - |group|] == c0;
        }
      }
      var stop;
      ghost var at1;
      g, cur, stop, at1 := RingFace(m, uv, tag, fs[i], cur, g);
      Continued(Links(m, uv, Ring), {next}, old(tag[..]), t1, tag[..], g1[|group|..], c0, g[|g1|..]);
      SuffixJoin(g, g1, |group|);
      FreshGrows(t1, tag[..], g[|g1|..]);
      if man {
        RingEdgeStep(m, uv, next, c0, cur, fs, i, t1, tag[..]);
      }
      if stop {
        if man {
          RingEdgeStop(m, uv, next, c0, cur, fs[i], tag[..]);
        }
        return;
      }
      if cur != c0 {
        at := at1;
      } else if c0 != next {
        assert g[at] == g[..|g1|][at];
      }
    }
    if man {
      CrossedAll(m, uv, next, tag[..]);
    }
  }

  /** Crossings into all the faces of the edge are all the crossings. */
  lemma CrossedAll(m: Mesh, uv: seq<Vec2>, p: nat, t: seq<bool>)
    requires UvOk(m, uv) && p < m.Loops() && |t| == m.Loops()
    requires CrossedInto(m, uv, p, m.edgeFaces[m.loopEdge[p]], |m.edgeFaces[m.loopEdge[p]]|, t)
    ensures AllCrossed(m, uv, p, t)
  {
    var fs := m.edgeFaces[m.loopEdge[p]];
    assert fs[..|fs|] == fs;
  }

  /** RingEdge skips the face of the current loop and keeps what it knows. */
  lemma RingEdgeSkip(m: Mesh, uv: seq<Vec2>, next: nat, cur: nat, fs: seq<nat>, i: nat, t: seq<bool>)
    requires UvOk(m, uv) && next < m.Loops() && cur < m.Loops() && |t| == m.Loops()
    requires fs == m.edgeFaces[m.loopEdge[next]] && i < |fs| && fs[i] == m.loopFace[cur]
    requires m.loopEdge[cur] == m.loopEdge[next]
    requires ManifoldEdge(m, m.loopEdge[next]) ==> cur == next || (m.loopFace[cur] != m.loopFace[next] && t[cur])
    requires ManifoldEdge(m, m.loopEdge[next]) ==> CrossedInto(m, uv, next, fs, i, t)
    ensures ManifoldEdge(m, m.loopEdge[next]) ==> CrossedInto(m, uv, next, fs, i + 1, t)
  {
    if ManifoldEdge(m, m.loopEdge[next]) && cur != next {
      CrossingsTagged(m, uv, next, cur, t);
    }
  }

  /** After RingFace on face `fs[i]`: the crossings into faces up to `fs[i]` are tagged, and the current loop is known. */
  lemma RingEdgeStep(m: Mesh, uv: seq<Vec2>, next: nat, c0: nat, cur: nat, fs: seq<nat>, i: nat, t1: seq<bool>, t2: seq<bool>)
    requires UvOk(m, uv) && next < m.Loops() && c0 < m.Loops() && cur < m.Loops() && |t1| == m.Loops()
    requires ManifoldEdge(m, m.loopEdge[next]) && Grows(t1, t2)
    requires fs == m.edgeFaces[m.loopEdge[next]] && i < |fs| && fs[i] != m.loopFace[c0]
    requires m.loopEdge[c0] == m.loopEdge[next] && m.loopEdge[cur] == m.loopEdge[next]
    requires c0 == next || (m.loopFace[c0] != m.loopFace[next] && t1[c0])
    requires CrossedInto(m, uv, next, fs, i, t1)
    requires cur == c0 || (m.loopFace[cur] == fs[i] && t2[cur])
    requires c0 == next && EdgeContinuous(m, uv, fs[i], m.loopFace[c0]) ==> FaceTagged(m, m.loopEdge[c0], fs[i], t2)
    ensures cur == next || (m.loopFace[cur] != m.loopFace[next] && t2[cur])
    ensures CrossedInto(m, uv, next, fs, i + 1, t2)
  {
    if cur != c0 && m.loopFace[cur] == m.loopFace[next] {
      assert Twins(m, cur, next);
    }
    if c0 != next {
      CrossingsTagged(m, uv, next, c0, t2);
    } else {
      forall x | 0 <= x < m.Loops() && CrossesTo(m, uv, next, x) && m.loopFace[x] in fs[..i + 1]
        ensures t2[x]
      {
        if m.loopFace[x] != fs[i] {
          assert m.loopFace[x] in fs[..i];
        }
      }
    }
  }

  /** RingFace stopped at a tagged loop of another face: on a manifold edge that is every crossing. */
  lemma RingEdgeStop(m: Mesh, uv: seq<Vec2>, next: nat, c0: nat, cur: nat, f: nat, t: seq<bool>)
    requires UvOk(m, uv) && next < m.Loops() && c0 < m.Loops() && cur < m.Loops() && |t| == m.Loops()
    requires ManifoldEdge(m, m.loopEdge[next]) && f != m.loopFace[c0]
    requires m.loopEdge[cur] == m.loopEdge[next] && m.loopEdge[c0] == m.loopEdge[next]
    requires c0 == next || (m.loopFace[c0] != m.loopFace[next] && t[c0])
    requires m.loopFace[cur] == f && t[cur]
    ensures AllCrossed(m, uv, next, t)
  {
    if c0 != next {
      CrossingsTagged(m, uv, next, c0, t);
    } else if cur != next {
      CrossingsTagged(m, uv, next, cur, t);
    }
  }

  /**
   * The inner loop of uvedge_ring over the loops of face `f`: a loop on the
   * current loop's edge, in a face continuous with the current loop's,
   * becomes the current loop. `stop` reports that it was already tagged,
   * which ends the whole walk. A face not continuous with the start's
   * leaves everything as it was; on a manifold edge, a continuous face's
   * loop on the edge ends tagged.
   */
  method RingFace(m: Mesh, uv: seq<Vec2>, tag: array<bool>, f: nat, cur0: nat, group: seq<nat>)
    returns (g: seq<nat>, cur: nat, stop: bool, ghost at: nat)
    requires UvOk(m, uv) && LoopsListed(m) && tag.Length == m.Loops() && f < m.Faces() && cur0 < m.Loops()
    modifies tag
    ensures |group| <= |g| && g[..|group|] == group
    ensures Grown(m, uv, Ring, {cur0}, old(tag[..]), tag[..], g[|group|..])
    ensures cur < m.Loops() && m.loopEdge[cur] == m.loopEdge[cur0]
    ensures cur == cur0 || (m.loopFace[cur] == f && tag[cur])
    ensures !stop && cur != cur0 ==> |group| <= at < |g| && g[at] == cur
    ensures stop ==> m.loopFace[cur] == f && tag[cur]
    ensures !EdgeContinuous(m, uv, f, m.loopFace[cur0]) ==> !stop && cur == cur0 && g == group && tag[..] == old(tag[..])
    ensures ManifoldEdge(m, m.loopEdge[cur0]) && EdgeContinuous(m, uv, f, m.loopFace[cur0]) ==>
              FaceTagged(m, m.loopEdge[cur0], f, tag[..])
    decreases |Untagged(tag[..])|, 2
  {
    var loops := m.faceLoops[f];
    g, cur, stop, at := group, cur0, false, 0;
    GrownNone(m, uv, Ring, {cur0}, tag[..]);
    ghost var e := m.loopEdge[cur0];
    ghost var man := ManifoldEdge(m, e);
    ghost var cont := EdgeContinuous(m, uv, f, m.loopFace[cur0]);
    for j := 0 to |loops|
      invariant |group| <= |g| && g[..|group|] == group
      invariant Grown(m, uv, Ring, {cur0}, old(tag[..]), tag[..], g[|group|..])
      invariant |Untagged(tag[..])| <= |Untagged(old(tag[..]))|
      invariant cur < m.Loops() && m.loopEdge[cur] == e
      invariant cur == cur0 || (m.loopFace[cur] == f && tag[cur] && |group| <= at < |g| && g[at] == cur)
      invariant !cont ==> cur == cur0 && g == group && tag[..] == old(tag[..])
      invariant man && cont ==> EdgeLoopsTagged(m, f, e, tag[..], j)
    {
      var l := loops[j];
      if m.loopEdge[l] == m.loopEdge[cur] && EdgeContinuous(m, uv, f, m.loopFace[cur]) {
        assert cur == cur0 || cur in g[|group|..] by {
          if cur != cur0 {
            assert g[|group|..][at - |group|] == cur;
          }
        }
        ghost var g1 := g;
        ghost var t1 := tag[..];
        g, stop := RingCross(m, uv, tag, f, cur0, cur, l, group, g, old(tag[..]));
        cur := l;
        if man && cont {
          EdgeLoopsNext(m, f, e, t1, tag[..], j);
        }
        if stop {
          if man && cont {
            RingFaceOnly(m, l, f, tag[..]);
          }
          return;
        }
        at := |g1|;
      } else if man && cont {
        RingFaceSkip(m, uv, f, cur0, cur, j, tag[..]);
        EdgeLoopsNext(m, f, e, tag[..], tag[..], j);
      }
    }
    if man && cont {
      FaceTaggedAll(m, e, f, tag[..]);
    }
  }

  /** The loops among the first `j` of face `f` that lie on edge `e` are tagged. */
  ghost predicate EdgeLoopsTagged(m: Mesh, f: nat, e: nat, t: seq<bool>, j: nat)
    requires m.Valid() && f < m.Faces() && |t| == m.Loops() && j <= |m.faceLoops[f]|
  {
    forall k :: 0 <= k < j && m.loopEdge[m.faceLoops[f][k]] == e ==> t[m.faceLoops[f][k]]
  }

  /** One more of them, tagged or off the edge, keeps the first `j + 1` tagged as the tags grow. */
  lemma EdgeLoopsNext(m: Mesh, f: nat, e: nat, t1: seq<bool>, t2: seq<bool>, j: nat)
    requires m.Valid() && f < m.Faces() && |t1| == m.Loops() && j < |m.faceLoops[f]|
    requires EdgeLoopsTagged(m, f, e, t1, j) && Grows(t1, t2)
    requires m.loopEdge[m.faceLoops[f][j]] == e ==> t2[m.faceLoops[f][j]]
    ensures EdgeLoopsTagged(m, f, e, t2, j + 1)
  {
  }

  /**
   * On a manifold edge, with `f` continuous with the start's face, a loop of
   * `f` on the edge that the scan does not cross to is the current loop,
   * which is tagged.
   */
  lemma RingFaceSkip(m: Mesh, uv: seq<Vec2>, f: nat, cur0: nat, cur: nat, j: nat, t: seq<bool>)
    requires UvOk(m, uv) && f < m.Faces() && cur0 < m.Loops() && cur < m.Loops() && |t| == m.Loops()
    requires j < |m.faceLoops[f]| && ManifoldEdge(m, m.loopEdge[cur0]) && EdgeContinuous(m, uv, f, m.loopFace[cur0])
    requires m.loopEdge[cur] == m.loopEdge[cur0] && (cur == cur0 || (m.loopFace[cur] == f && t[cur]))
    requires !(m.loopEdge[m.faceLoops[f][j]] == m.loopEdge[cur] && EdgeContinuous(m, uv, f, m.loopFace[cur]))
    ensures m.loopEdge[m.faceLoops[f][j]] == m.loopEdge[cur0] ==> t[m.faceLoops[f][j]]
  {
    var l := m.faceLoops[f][j];
    if m.loopEdge[l] == m.loopEdge[cur0] {
      assert Twins(m, l, cur);
    }
  }

  /** Every loop of face `f` on edge `e` is among the face's loops, so tagging those tags them all. */
  lemma FaceTaggedAll(m: Mesh, e: nat, f: nat, t: seq<bool>)
    requires m.Valid() && LoopsListed(m) && f < m.Faces() && |t| == m.Loops()
    requires EdgeLoopsTagged(m, f, e, t, |m.faceLoops[f]|)
    ensures FaceTagged(m, e, f, t)
  {
    forall x | 0 <= x < m.Loops() && m.loopEdge[x] == e && m.loopFace[x] == f
      ensures t[x]
    {
      var k :| 0 <= k < |m.faceLoops[f]| && m.faceLoops[f][k] == x;
    }
  }

  /**
   * The body of that inner loop for a loop `l` that the current loop
   * `parent` crosses to: an already tagged one stops the walk and changes
   * nothing; an untagged one is tagged, appended and walked from. `t0`
   * holds the tags from before the whole face was scanned.
   */
  method RingCross(m: Mesh, uv: seq<Vec2>, tag: array<bool>, f: nat, cur0: nat, parent: nat, l: nat,
                   group: seq<nat>, g0: seq<nat>, ghost t0: seq<bool>)
    returns (g: seq<nat>, stop: bool)
    requires UvOk(m, uv) && LoopsListed(m) && tag.Length == m.Loops() && f < m.Faces() && cur0 < m.Loops()
    requires parent < m.Loops() && l < m.Loops() && m.loopFace[l] == f && m.loopEdge[l] == m.loopEdge[parent]
    requires EdgeContinuous(m, uv, f, m.loopFace[parent])
    requires |group| <= |g0| && g0[..|group|] == group && (parent == cur0 || parent in g0[|group|..])
    requires Grown(m, uv, Ring, {cur0}, t0, tag[..], g0[|group|..]) && |Untagged(tag[..])| <= |Untagged(t0)|
    modifies tag
    ensures stop == old(tag[l]) && tag[l] && Grows(old(tag[..]), tag[..])
    ensures stop ==> g == g0 && tag[..] == old(tag[..])
    ensures !stop ==> |g0| < |g| && g[|g0|] == l
    ensures |group| <= |g| && g[..|group|] == group
    ensures Grown(m, uv, Ring, {cur0}, t0, tag[..], g[|group|..]) && |Untagged(tag[..])| <= |Untagged(t0)|
    decreases |Untagged(tag[..])|, 1
  {
    g := g0;
    stop := tag[l];
    if stop {
      return;
    }
    ghost var t1 := tag[..];
    assert Step(m, uv, Ring, parent, l);
    InLinks(m, uv, Ring, parent, l);
    g := RingTake(m, uv, tag, parent, l, g0);
    Continued(Links(m, uv, Ring), {cur0}, t0, t1, tag[..], g0[|group|..], parent, g[|g0|..]);
    SuffixJoin(g, g0, |group|);
    FreshGrows(t1, tag[..], g[|g0|..]);
  }

  /** On a manifold edge a face has one loop there: a tagged one tags them all. */
  lemma RingFaceOnly(m: Mesh, l: nat, f: nat, t: seq<bool>)
    requires m.Valid() && l < m.Loops() && |t| == m.Loops() && m.loopFace[l] == f && t[l]
    requires ManifoldEdge(m, m.loopEdge[l])
    ensures FaceTagged(m, m.loopEdge[l], f, t)
  {
    forall x | 0 <= x < m.Loops() && m.loopEdge[x] == m.loopEdge[l] && m.loopFace[x] == f
      ensures t[x]
    {
      assert Twins(m, x, l);
    }
  }

  /**
   * The body of uvedge_ring's inner loop for an untagged loop `l` the
   * current loop `parent` crosses to: tag it, append it and walk on from it.
   */
  method RingTake(m: Mesh, uv: seq<Vec2>, tag: array<bool>, parent: nat, l: nat, group: seq<nat>)
    returns (g: seq<nat>)
    requires UvOk(m, uv) && LoopsListed(m) && tag.Length == m.Loops()
    requires (parent, l) in Links(m, uv, Ring) && l < m.Loops() && !tag[l]
    modifies tag
    ensures |group| < |g| && g[..|group|] == group && g[|group|] == l && tag[l]
    ensures Grown(m, uv, Ring, {parent}, old(tag[..]), tag[..], g[|group|..])
    decreases |Untagged(tag[..])|, 0
  {
    ghost var t1 := tag[..];
    tag[l] := true;
    assert tag[..] == t1[l := true];
    TagOne(Links(m, uv, Ring), parent, t1, l);
    ghost var t2 := tag[..];
    g := RingWalk(m, uv, tag, l, group + [l]);
    TakeGrown(m, uv, Ring, parent, l, t1, t2, tag[..], group, g);
  }
}
