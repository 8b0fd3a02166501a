/**
 * The relaxation patches handed to the LSCM solve. Polygons are grouped into
 * patches by flood fill over shared vertices, never across a seam; within a
 * patch every polygon corner is mapped to a relax vertex held in a registry
 * (the class-level `RelaxVertex.all_verts`). A vertex that is an endpoint of
 * a seam edge may be split into several relax vertices, one per side of the
 * seam; any other vertex gets exactly one.
 */
module Relax {
  import opened Wrappers
  import opened HalfEdge
  import opened SeqFacts

  /** A RelaxVertex: a mesh vertex, the polygons that use it, and its registry position. */
  datatype RelaxVert = RelaxVert(vert: nat, polygons: set<nat>, idx: nat)

  /**
   * One patch as lscm consumes it: the polygons in the order they were
   * visited, for each the registry indices of its corners (a relax
   * polygon), and the registry as it stood when the patch was yielded.
   */
  datatype Patch = Patch(faces: seq<nat>, polys: seq<seq<nat>>, verts: seq<RelaxVert>)

  /**
   * Polygon `p` may join relax polygon `rp`'s vertex: they share no edge, or
   * the first edge of `rp` that `p` shares is not a seam.
   */
  predicate Joinable(m: Mesh, rp: nat, p: nat)
    requires m.Valid() && rp < m.Faces()
  {
    var e := SharedEdge(m, rp, p);
    e.None? || !m.edgeSeam[e.value]
  }

  /** Whether relax vertex `rv` takes polygon `p` at vertex `v`. */
  ghost predicate Takes(m: Mesh, vtag: seq<bool>, rv: RelaxVert, v: nat, p: nat)
    requires m.Valid() && |vtag| == m.Verts() && v < m.Verts()
    requires forall f :: f in rv.polygons ==> f < m.Faces()
  {
    rv.vert == v && (!vtag[v] || exists rp :: rp in rv.polygons && Joinable(m, rp, p))
  }

  /** The registry is well formed: positions, ranges, and one entry per untagged vertex. */
  ghost predicate RegistryOk(m: Mesh, vtag: seq<bool>, all: seq<RelaxVert>)
    requires m.Valid() && |vtag| == m.Verts()
  {
    && (forall k :: 0 <= k < |all| ==>
          all[k].idx == k && all[k].vert < m.Verts() && all[k].polygons != {}
          && forall f :: f in all[k].polygons ==> f < m.Faces())
    && (forall j, k :: 0 <= j < k < |all| && all[j].vert == all[k].vert ==> vtag[all[j].vert])
  }

  /** `r` is the first entry that takes `p` at `v`, or `|all|` when none does. */
  ghost predicate FirstTaker(m: Mesh, vtag: seq<bool>, all: seq<RelaxVert>, v: nat, p: nat, r: nat)
    requires m.Valid() && |vtag| == m.Verts() && v < m.Verts() && RegistryOk(m, vtag, all)
  {
    && r <= |all|
    && (forall k :: 0 <= k < r ==> !Takes(m, vtag, all[k], v, p))
    && (r < |all| ==> Takes(m, vtag, all[r], v, p))
  }

  /** The registry after GetRelaxVert answered `r`: `p` joins entry `r`, or a new entry is appended. */
  function Register(all: seq<RelaxVert>, r: nat, v: nat, p: nat): (a: seq<RelaxVert>)
    requires r <= |all|
    ensures |a| == if r < |all| then |all| else |all| + 1
    ensures r < |a| && a[r].vert == (if r < |all| then all[r].vert else v) && p in a[r].polygons
    ensures forall k :: 0 <= k < |all| ==>
      a[k].vert == all[k].vert && a[k].idx == all[k].idx && all[k].polygons <= a[k].polygons
  {
    if r < |all| then all[r := all[r].(polygons := all[r].polygons + {p})]
    else all + [RelaxVert(v, {p}, |all|)]
  }

  /** Registering at the first taker keeps the registry well formed. */
  lemma RegisterOk(m: Mesh, vtag: seq<bool>, all: seq<RelaxVert>, v: nat, p: nat, r: nat)
    requires m.Valid() && |vtag| == m.Verts() && v < m.Verts() && p < m.Faces()
    requires RegistryOk(m, vtag, all) && FirstTaker(m, vtag, all, v, p, r)
    ensures RegistryOk(m, vtag, Register(all, r, v, p))
    ensures Register(all, r, v, p)[r].vert == v
  {
    var a := Register(all, r, v, p);
    if r == |all| {
      forall j | 0 <= j < |all| && all[j].vert == v
        ensures vtag[v]
      {
        assert !Takes(m, vtag, all[j], v, p);
      }
    }
  }

  /** An untagged vertex (not on a seam) has at most one relax vertex. */
  lemma UntaggedVertexOnce(m: Mesh, vtag: seq<bool>, all: seq<RelaxVert>, j: nat, k: nat)
    requires m.Valid() && |vtag| == m.Verts() && RegistryOk(m, vtag, all)
    requires j < |all| && k < |all| && all[j].vert == all[k].vert && !vtag[all[j].vert]
    ensures j == k
  {
  }

  /** The scan over `rv._polygons`: does some polygon of `polys` let `p` join? */
  method JoinsSomePolygon(m: Mesh, polys: set<nat>, p: nat) returns (b: bool)
    requires m.Valid() && forall f :: f in polys ==> f < m.Faces()
    ensures b <==> exists rp :: rp in polys && Joinable(m, rp, p)
  {
    var rest := polys;
    while rest != {}
      invariant rest <= polys
      invariant forall rp :: rp in polys - rest ==> !Joinable(m, rp, p)
      decreases |rest|
    {
      var rp :| rp in rest;
      if Joinable(m, rp, p) {
        return true;
      }
      rest := rest - {rp};
    }
    return false;
  }

  /** RelaxVertex.all_verts. */
  class Registry {
    var all: seq<RelaxVert>

    constructor ()
      ensures all == []
    {
      all := [];
    }

    /**
     * GetRelaxVert(vertex, polygon): the first relax vertex of `v` that
     * takes polygon `p` gets it added; when none does, a new relax vertex
     * is appended. The answer is the registry position.
     */
    method GetRelaxVert(m: Mesh, vtag: seq<bool>, v: nat, p: nat) returns (r: nat)
      requires m.Valid() && |vtag| == m.Verts() && v < m.Verts() && p < m.Faces()
      requires RegistryOk(m, vtag, all)
      modifies this
      ensures FirstTaker(m, vtag, old(all), v, p, r)
      ensures all == Register(old(all), r, v, p)
      ensures RegistryOk(m, vtag, all) && r < |all| && all[r].vert == v
    {
      for k := 0 to |all|
        invariant all == old(all)
        invariant forall j :: 0 <= j < k ==> !Takes(m, vtag, all[j], v, p)
      {
        if all[k].vert == v {
          if vtag[v] {
            var b := JoinsSomePolygon(m, all[k].polygons, p);
            if b {
              r := k;
              RegisterOk(m, vtag, all, v, p, r);
              all := Register(all, r, v, p);
              return;
            }
          } else {
            r := k;
            RegisterOk(m, vtag, all, v, p, r);
            all := Register(all, r, v, p);
            return;
          }
        }
      }
      r := |all|;
      RegisterOk(m, vtag, all, v, p, r);
      all := Register(all, r, v, p);
    }

    /** all_verts.clear(). */
    method Clear()
      modifies this
      ensures all == []
    {
      all := [];
    }
  }

  /** Vertex `v` is an endpoint of a seam edge of one of `polygons`. */
  ghost predicate SeamEnd(m: Mesh, polygons: seq<nat>, v: nat)
    requires m.Valid() && forall i :: 0 <= i < |polygons| ==> polygons[i] < m.Faces()
  {
    exists i :: 0 <= i < |polygons| && polygons[i] < m.Faces() && SeamAmong(m, m.faceLoops[polygons[i]], v)
  }

  /** The first pass of lscm_patches: tag both endpoints of every seam edge of `polygons`. */
  method TagSeamEnds(m: Mesh, vtag: array<bool>, polygons: seq<nat>)
    requires m.Valid() && vtag.Length == m.Verts()
    requires forall i :: 0 <= i < |polygons| ==> polygons[i] < m.Faces()
    modifies vtag
    ensures forall v :: 0 <= v < vtag.Length ==> vtag[v] == (old(vtag[v]) || SeamEnd(m, polygons, v))
  {
    for i := 0 to |polygons|
      invariant forall v :: 0 <= v < vtag.Length ==> vtag[v] == (old(vtag[v]) || SeamEnd(m, polygons[..i], v))
    {
      var loops := m.faceLoops[polygons[i]];
      for j := 0 to |loops|
        invariant forall v :: 0 <= v < vtag.Length ==>
          vtag[v] == (old(vtag[v]) || SeamEnd(m, polygons[..i], v) || SeamAmong(m, loops[..j], v))
      {
        var e := m.loopEdge[loops[j]];
        if m.edgeSeam[e] {
          vtag[m.edgeV1[e]] := true;
          vtag[m.edgeV2[e]] := true;
        }
        assert loops[..j + 1] == loops[..j] + [loops[j]];
      }
      assert loops[..|loops|] == loops;
      forall v ensures SeamEnd(m, polygons[..i + 1], v) <==> SeamEnd(m, polygons[..i], v) || SeamAmong(m, loops, v) {
        SeamEndStep(m, polygons, i, v);
      }
    }
    assert polygons[..|polygons|] == polygons;
  }

  /** `v` is an endpoint of the seam edge of one of `loops`. */
  ghost predicate SeamAmong(m: Mesh, loops: seq<nat>, v: nat)
    requires m.Valid() && forall j :: 0 <= j < |loops| ==> loops[j] < m.Loops()
  {
    exists j :: 0 <= j < |loops| && SeamLoop(m, loops[j], v)
  }

  /** The edge of loop `l` is a seam and `v` is one of its ends. */
  predicate SeamLoop(m: Mesh, l: nat, v: nat)
    requires m.Valid() && l < m.Loops()
  {
    var e := m.loopEdge[l];
    m.edgeSeam[e] && (m.edgeV1[e] == v || m.edgeV2[e] == v)
  }

  lemma SeamEndStep(m: Mesh, polygons: seq<nat>, i: nat, v: nat)
    requires m.Valid() && forall k :: 0 <= k < |polygons| ==> polygons[k] < m.Faces()
    requires i < |polygons|
    ensures SeamEnd(m, polygons[..i + 1], v) <==>
            SeamEnd(m, polygons[..i], v) || SeamAmong(m, m.faceLoops[polygons[i]], v)
  {
    var a := polygons[..i];
    var b := polygons[..i + 1];
    if SeamEnd(m, b, v) {
      var k :| 0 <= k < |b| && SeamAmong(m, m.faceLoops[b[k]], v);
      if k < i {
        assert a[k] == b[k];
      }
    }
    if SeamEnd(m, a, v) {
      var k :| 0 <= k < |a| && SeamAmong(m, m.faceLoops[a[k]], v);
      assert b[k] == a[k];
    }
    if SeamAmong(m, m.faceLoops[polygons[i]], v) {
      assert b[i] == polygons[i];
    }
  }

  /** From polygon `p` at vertex `v`, the flood fill may spread to `np`. */
  predicate Spreads(m: Mesh, vtag: seq<bool>, p: nat, v: nat, np: nat)
    requires m.Valid() && |vtag| == m.Verts() && p < m.Faces() && v < m.Verts()
  {
    !vtag[v] || (var e := SharedEdge(m, p, np); e.Some? && !m.edgeSeam[e.value])
  }

  /**
   * The scan over `l.vert.link_loops` in lscm_patches: every untagged
   * polygon of `polygons` around `v` that the fill may reach from `p` is
   * tagged and added to the worklist.
   */
  method ScanAround(m: Mesh, faceTag: array<bool>, vtag: seq<bool>, polygons: seq<nat>, p: nat, v: nat,
                    outer: set<nat>) returns (outer': set<nat>)
    requires m.Valid() && faceTag.Length == m.Faces() && |vtag| == m.Verts()
    requires p < m.Faces() && v < m.Verts()
    requires forall f :: f in outer ==> f < m.Faces() && faceTag[f]
    modifies faceTag
    ensures outer <= outer'
    ensures forall f :: f in outer' ==> f < m.Faces() && faceTag[f]
    ensures forall f :: f in outer' - outer <==>
      && (exists j :: 0 <= j < |m.vertLoops[v]| && m.loopFace[m.vertLoops[v][j]] == f)
      && f < m.Faces() && !old(faceTag[f]) && f in polygons && Spreads(m, vtag, p, v, f)
    ensures Untagged(faceTag[..]) == Untagged(old(faceTag[..])) - (outer' - outer)
  {
    outer' := outer;
    var around := m.vertLoops[v];
    for j := 0 to |around|
      invariant outer <= outer'
      invariant forall f :: f in outer' ==> f < m.Faces() && faceTag[f]
      invariant forall f :: f in outer' - outer <==>
        && (exists k :: 0 <= k < j && m.loopFace[around[k]] == f)
        && f < m.Faces() && !old(faceTag[f]) && f in polygons && Spreads(m, vtag, p, v, f)
      invariant forall f :: 0 <= f < faceTag.Length ==> faceTag[f] == (old(faceTag[f]) || f in outer' - outer)
    {
      ghost var before := outer';
      outer' := Consider(m, faceTag, vtag, polygons, p, v, m.loopFace[around[j]], outer');
      assert forall f :: f in outer' - outer <==> f in before - outer || f in outer' - before;
    }
    UntaggedMinus(old(faceTag[..]), faceTag[..], outer' - outer);
  }

  /** The body of that scan for the polygon `np` of one loop around `v`. */
  method Consider(m: Mesh, faceTag: array<bool>, vtag: seq<bool>, polygons: seq<nat>, p: nat, v: nat, np: nat,
                  outer: set<nat>) returns (outer': set<nat>)
    requires m.Valid() && faceTag.Length == m.Faces() && |vtag| == m.Verts()
    requires p < m.Faces() && v < m.Verts() && np < m.Faces()
    modifies faceTag
    ensures var takes := !old(faceTag[np]) && np in polygons && Spreads(m, vtag, p, v, np);
            && outer' == (if takes then outer + {np} else outer)
            && faceTag[..] == (if takes then old(faceTag[..])[np := true] else old(faceTag[..]))
  {
    outer' := outer;
    if faceTag[np] {
      return;
    }
    if vtag[v] {
      var e := SharedEdge(m, p, np);
      if e.None? || m.edgeSeam[e.value] {
        return;
      }
    }
    if np in polygons {
      outer' := outer + {np};
      faceTag[np] := true;
    }
  }

  /** `b` extends registry `a`: entries keep their vertex and position, and only gain polygons. */
  ghost predicate Grows(a: seq<RelaxVert>, b: seq<RelaxVert>)
  {
    |a| <= |b| && forall k :: 0 <= k < |a| ==>
      b[k].vert == a[k].vert && b[k].idx == a[k].idx && a[k].polygons <= b[k].polygons
  }

  lemma GrowsTrans(a: seq<RelaxVert>, b: seq<RelaxVert>, c: seq<RelaxVert>)
    requires Grows(a, b) && Grows(b, c)
    ensures Grows(a, c)
  {
  }

  /** `rp` maps the first corners of polygon `p` to registry entries of their vertices that hold `p`. */
  ghost predicate RelaxCorners(m: Mesh, all: seq<RelaxVert>, p: nat, rp: seq<nat>)
    requires m.Valid() && p < m.Faces()
  {
    |rp| <= |m.faceLoops[p]| &&
    forall j :: 0 <= j < |rp| ==>
      rp[j] < |all| && all[rp[j]].vert == m.loopVert[m.faceLoops[p][j]] && p in all[rp[j]].polygons
  }

  /** Relax polygon `rp` maps every corner of polygon `p`. */
  ghost predicate RelaxPolyOf(m: Mesh, all: seq<RelaxVert>, p: nat, rp: seq<nat>)
    requires m.Valid() && p < m.Faces()
  {
    |rp| == |m.faceLoops[p]| && RelaxCorners(m, all, p, rp)
  }

  /** One more corner mapped, while the registry grows. */
  lemma CornersExtend(m: Mesh, a: seq<RelaxVert>, b: seq<RelaxVert>, p: nat, rp: seq<nat>, rv: nat)
    requires m.Valid() && p < m.Faces() && RelaxCorners(m, a, p, rp) && Grows(a, b)
    requires |rp| < |m.faceLoops[p]| && rv < |b|
    requires b[rv].vert == m.loopVert[m.faceLoops[p][|rp|]] && p in b[rv].polygons
    ensures RelaxCorners(m, b, p, rp + [rv])
  {
  }

  /** A relax polygon stays valid while the registry grows. */
  lemma RelaxPolyGrows(m: Mesh, a: seq<RelaxVert>, b: seq<RelaxVert>, p: nat, rp: seq<nat>)
    requires m.Valid() && p < m.Faces() && RelaxPolyOf(m, a, p, rp) && Grows(a, b)
    ensures RelaxPolyOf(m, b, p, rp)
  {
  }

  /**
   * The body of the worklist loop for polygon `p`: map each corner to its
   * relax vertex and spread the fill around the corner's vertex.
   */
  method ProcessPolygon(m: Mesh, reg: Registry, faceTag: array<bool>, vtag: seq<bool>, polygons: seq<nat>,
                        p: nat, outer: set<nat>) returns (rp: seq<nat>, outer': set<nat>)
    requires m.Valid() && faceTag.Length == m.Faces() && |vtag| == m.Verts() && p < m.Faces()
    requires RegistryOk(m, vtag, reg.all)
    requires forall f :: f in outer ==> f < m.Faces() && faceTag[f]
    modifies reg, faceTag
    ensures RegistryOk(m, vtag, reg.all) && Grows(old(reg.all), reg.all)
    ensures RelaxPolyOf(m, reg.all, p, rp)
    ensures outer <= outer'
    ensures forall f :: f in outer' ==> f < m.Faces() && faceTag[f]
    ensures forall f :: f in outer' - outer ==> f < m.Faces() && !old(faceTag[f]) && f in polygons
    ensures Untagged(faceTag[..]) == Untagged(old(faceTag[..])) - (outer' - outer)
  {
    rp := [];
    outer' := outer;
    var loops := m.faceLoops[p];
    for k := 0 to |loops|
      invariant RegistryOk(m, vtag, reg.all) && Grows(old(reg.all), reg.all)
      invariant |rp| == k && RelaxCorners(m, reg.all, p, rp)
      invariant outer <= outer'
      invariant forall f :: f in outer' ==> f < m.Faces() && faceTag[f]
      invariant forall f :: f in outer' - outer ==> f < m.Faces() && !old(faceTag[f]) && f in polygons
      invariant Untagged(faceTag[..]) == Untagged(old(faceTag[..])) - (outer' - outer)
    {
      var v := m.loopVert[loops[k]];
      ghost var regBefore := reg.all;
      var rv := reg.GetRelaxVert(m, vtag, v, p);
      CornersExtend(m, regBefore, reg.all, p, rp, rv);
      rp := rp + [rv];
      outer' := ScanAround(m, faceTag, vtag, polygons, p, v, outer');
    }
  }

  /** The worklist measure: untagged faces count twice, queued ones once. */
  lemma FillMeasure(u: set<nat>, outer: set<nat>, outer': set<nat>)
    requires outer <= outer' && outer' - outer <= u
    ensures 2 * |u - (outer' - outer)| + |outer'| <= 2 * |u| + |outer|
  {
    var added := outer' - outer;
    assert u == (u - added) + added;
    assert outer' == outer + added;
  }

  /**
   * The worklist state of one patch against the face tags `before` it
   * started: visited polygons `faces` and queued ones `outer` were untagged
   * before, belong to `polygons`, and are exactly the faces tagged since.
   */
  ghost predicate FillState(before: seq<bool>, now: seq<bool>, polygons: seq<nat>, faces: seq<nat>, outer: set<nat>)
    requires |before| == |now|
  {
    && (forall f: nat :: f in outer ==> f < |now| && !before[f] && f in polygons && f !in faces)
    && (forall k :: 0 <= k < |faces| ==> faces[k] < |now| && !before[faces[k]] && faces[k] in polygons)
    && (forall f :: 0 <= f < |now| ==> now[f] == (before[f] || f in faces || f in outer))
  }

  /** Processing the popped polygon `p` moves it to the visited ones and queues the newly tagged. */
  lemma FillStep(before: seq<bool>, now: seq<bool>, now': seq<bool>, polygons: seq<nat>,
                 faces: seq<nat>, outer: set<nat>, outer': set<nat>, p: nat)
    requires |before| == |now| == |now'|
    requires FillState(before, now, polygons, faces, outer + {p}) && p !in outer
    requires outer <= outer' && forall f :: f in outer' - outer ==> f < |now| && !now[f] && f in polygons
    requires Untagged(now') == Untagged(now) - (outer' - outer)
    ensures FillState(before, now', polygons, faces + [p], outer')
    ensures Distinct(faces) ==> Distinct(faces + [p])
  {
    assert p in outer + {p};
    forall f: nat | f in outer' ensures f < |now'| && !before[f] && f in polygons && f !in faces + [p] {
      if f !in outer {
        assert f !in Untagged(now');
      }
    }
    forall f | 0 <= f < |now'| ensures now'[f] == (before[f] || f in faces + [p] || f in outer') {
      assert (f in Untagged(now')) == !now'[f];
    }
    if Distinct(faces) {
      forall i, j | 0 <= i < j < |faces + [p]| ensures (faces + [p])[i] != (faces + [p])[j] {
        if j < |faces| {
          assert (faces + [p])[i] == faces[i] && (faces + [p])[j] == faces[j];
        } else {
          assert (faces + [p])[i] == faces[i] && faces[i] in faces;
        }
      }
    }
  }

  /** Queued polygons are tagged. */
  lemma QueuedTagged(before: seq<bool>, now: seq<bool>, polygons: seq<nat>, faces: seq<nat>, outer: set<nat>)
    requires |before| == |now| && FillState(before, now, polygons, faces, outer)
    ensures forall f :: f in outer ==> f < |now| && now[f]
  {
  }

  /** Every visited polygon has its relax polygon. */
  ghost predicate AllMapped(m: Mesh, all: seq<RelaxVert>, faces: seq<nat>, polys: seq<seq<nat>>)
    requires m.Valid()
  {
    |polys| == |faces| &&
    forall k :: 0 <= k < |faces| ==> faces[k] < m.Faces() && RelaxPolyOf(m, all, faces[k], polys[k])
  }

  lemma AllMappedGrows(m: Mesh, a: seq<RelaxVert>, b: seq<RelaxVert>, faces: seq<nat>, polys: seq<seq<nat>>,
                       p: nat, rp: seq<nat>)
    requires m.Valid() && AllMapped(m, a, faces, polys) && Grows(a, b)
    requires p < m.Faces() && RelaxPolyOf(m, b, p, rp)
    ensures AllMapped(m, b, faces + [p], polys + [rp])
  {
    forall k | 0 <= k < |faces| ensures RelaxPolyOf(m, b, faces[k], polys[k]) {
      RelaxPolyGrows(m, a, b, faces[k], polys[k]);
    }
  }

  /**
   * One patch of lscm_patches: tag `poly` and flood-fill from it. Every
   * polygon visited was untagged, is one of `polygons` and is visited once;
   * afterwards exactly the visited polygons have become tagged.
   */
  method GrowPatch(m: Mesh, reg: Registry, faceTag: array<bool>, vtag: seq<bool>, polygons: seq<nat>, poly: nat)
    returns (faces: seq<nat>, polys: seq<seq<nat>>)
    requires m.Valid() && faceTag.Length == m.Faces() && |vtag| == m.Verts()
    requires poly in polygons && poly < m.Faces() && !faceTag[poly]
    requires RegistryOk(m, vtag, reg.all)
    modifies reg, faceTag
    ensures RegistryOk(m, vtag, reg.all) && Grows(old(reg.all), reg.all)
    ensures poly in faces && Distinct(faces)
    ensures FillState(old(faceTag[..]), faceTag[..], polygons, faces, {})
    ensures AllMapped(m, reg.all, faces, polys)
  {
    ghost var before := faceTag[..];
    faceTag[poly] := true;
    faces := [];
    polys := [];
    var outer := {poly};
    GrowStart(m, vtag, polygons, poly, reg.all, before, faceTag[..]);
    while outer != {}
      invariant Growing(m, vtag, polygons, poly, old(reg.all), reg.all, before, faceTag[..], faces, polys, outer)
      decreases 2 * |Untagged(faceTag[..])| + |outer|
    {
      var p :| p in outer;
      ghost var queued := outer;
      outer := outer - {p};
      assert queued == outer + {p};
      ghost var regBefore := reg.all;
      ghost var now := faceTag[..];
      QueuedTagged(before, now, polygons, faces, queued);
      var rp, outer' := ProcessPolygon(m, reg, faceTag, vtag, polygons, p, outer);
      GrowStep(m, vtag, polygons, poly, old(reg.all), regBefore, reg.all, before, now, faceTag[..],
               faces, polys, outer, outer', p, rp);
      outer := outer';
      faces := faces + [p];
      polys := polys + [rp];
    }
  }

  /** The loop invariant of GrowPatch over the registry, the face tags and the worklist. */
  ghost predicate Growing(m: Mesh, vtag: seq<bool>, polygons: seq<nat>, poly: nat, start: seq<RelaxVert>,
                          all: seq<RelaxVert>, before: seq<bool>, now: seq<bool>,
                          faces: seq<nat>, polys: seq<seq<nat>>, outer: set<nat>)
    requires m.Valid() && |vtag| == m.Verts()
  {
    && RegistryOk(m, vtag, all) && Grows(start, all)
    && Distinct(faces) && (poly in faces || poly in outer)
    && |before| == |now| && FillState(before, now, polygons, faces, outer)
    && AllMapped(m, all, faces, polys)
  }

  /** Tagging `poly` and queueing it starts the fill. */
  lemma GrowStart(m: Mesh, vtag: seq<bool>, polygons: seq<nat>, poly: nat, all: seq<RelaxVert>,
                  before: seq<bool>, now: seq<bool>)
    requires m.Valid() && |vtag| == m.Verts() && RegistryOk(m, vtag, all)
    requires poly in polygons && poly < |before| && !before[poly] && now == before[poly := true]
    ensures Growing(m, vtag, polygons, poly, all, all, before, now, [], [], {poly})
  {
  }

  /** One turn of the worklist loop keeps its invariant and lowers its measure. */
  lemma GrowStep(m: Mesh, vtag: seq<bool>, polygons: seq<nat>, poly: nat, start: seq<RelaxVert>,
                 all: seq<RelaxVert>, all': seq<RelaxVert>, before: seq<bool>, now: seq<bool>, now': seq<bool>,
                 faces: seq<nat>, polys: seq<seq<nat>>, outer: set<nat>, outer': set<nat>, p: nat, rp: seq<nat>)
    requires m.Valid() && |vtag| == m.Verts() && p !in outer
    requires Growing(m, vtag, polygons, poly, start, all, before, now, faces, polys, outer + {p})
    requires |now'| == |now| && RegistryOk(m, vtag, all') && Grows(all, all')
    requires p < m.Faces() && RelaxPolyOf(m, all', p, rp)
    requires outer <= outer' && forall f :: f in outer' - outer ==> f < |now| && !now[f] && f in polygons
    requires Untagged(now') == Untagged(now) - (outer' - outer)
    ensures Growing(m, vtag, polygons, poly, start, all', before, now', faces + [p], polys + [rp], outer')
    ensures 2 * |Untagged(now')| + |outer'| < 2 * |Untagged(now)| + |outer + {p}|
  {
    FillStep(before, now, now', polygons, faces, outer, outer', p);
    AllMappedGrows(m, all, all', faces, polys, p, rp);
    GrowsTrans(start, all, all');
    FillMeasure(Untagged(now), outer, outer');
    assert p in outer + {p};
  }


  /** The polygons of all patches, in order. */
  function AllFaces(patches: seq<Patch>): seq<nat>
  {
    if patches == [] then [] else AllFaces(patches[..|patches| - 1]) + patches[|patches| - 1].faces
  }

  /** A yielded patch: its registry is well formed and maps every corner of every polygon. */
  ghost predicate PatchOk(m: Mesh, vtag: seq<bool>, patch: Patch)
    requires m.Valid() && |vtag| == m.Verts()
  {
    && RegistryOk(m, vtag, patch.verts)
    && |patch.polys| == |patch.faces|
    && forall k :: 0 <= k < |patch.faces| ==>
         patch.faces[k] < m.Faces() && RelaxPolyOf(m, patch.verts, patch.faces[k], patch.polys[k])
  }

  /**
   * The state of lscm_patches after the first `i` polygons: the patches
   * yielded so far hold distinct faces, all of them polygons untagged on
   * entry, each patch is well formed, and a face is tagged exactly when it
   * was on entry or some patch holds it.
   */
  ghost predicate Yielded(m: Mesh, vt: seq<bool>, polygons: seq<nat>, orig: seq<bool>, now: seq<bool>,
                          patches: seq<Patch>, i: nat)
    requires m.Valid() && |vt| == m.Verts()
  {
    && i <= |polygons| && |orig| == |now| == m.Faces()
    && (forall j :: 0 <= j < |polygons| ==> polygons[j] < m.Faces())
    && Distinct(AllFaces(patches))
    && (forall f :: f in AllFaces(patches) ==> f in polygons && f < |orig| && !orig[f])
    && (forall j :: 0 <= j < i ==> now[polygons[j]])
    && (forall k :: 0 <= k < |patches| ==> PatchOk(m, vt, patches[k]))
    && (forall f :: 0 <= f < |now| ==> now[f] == (orig[f] || f in AllFaces(patches)))
  }

  /** A polygon already tagged yields nothing. */
  lemma YieldSkip(m: Mesh, vt: seq<bool>, polygons: seq<nat>, orig: seq<bool>, now: seq<bool>,
                  patches: seq<Patch>, i: nat)
    requires m.Valid() && |vt| == m.Verts()
    requires Yielded(m, vt, polygons, orig, now, patches, i) && i < |polygons| && now[polygons[i]]
    ensures Yielded(m, vt, polygons, orig, now, patches, i + 1)
  {
  }

  /** The patch grown from an untagged polygon is appended, and its faces are tagged. */
  lemma YieldStep(m: Mesh, vt: seq<bool>, polygons: seq<nat>, orig: seq<bool>, now: seq<bool>, now': seq<bool>,
                  patches: seq<Patch>, i: nat, patch: Patch)
    requires m.Valid() && |vt| == m.Verts()
    requires Yielded(m, vt, polygons, orig, now, patches, i) && i < |polygons| && !now[polygons[i]]
    requires |now'| == |now| && FillState(now, now', polygons, patch.faces, {})
    requires polygons[i] in patch.faces && Distinct(patch.faces)
    requires RegistryOk(m, vt, patch.verts) && AllMapped(m, patch.verts, patch.faces, patch.polys)
    ensures Yielded(m, vt, polygons, orig, now', patches + [patch], i + 1)
  {
    var all := AllFaces(patches);
    var ps := patches + [patch];
    assert ps[..|ps| - 1] == patches;
    assert AllFaces(ps) == all + patch.faces;
    assert forall x :: x in patch.faces ==> x !in all by {
      forall x | x in patch.faces ensures x !in all {
        var k :| 0 <= k < |patch.faces| && patch.faces[k] == x;
        assert !now[x];
      }
    }
    DistinctAppend(all, patch.faces);
    forall f | f in AllFaces(ps) ensures f in polygons && f < |orig| && !orig[f] {
      if f !in all {
        var k :| 0 <= k < |patch.faces| && patch.faces[k] == f;
      }
    }
    forall k | 0 <= k < |ps| ensures PatchOk(m, vt, ps[k]) {
      if k < |patches| {
        assert ps[k] == patches[k];
      }
    }
  }

  /**
   * lscm_patches(polygons): tag the seam endpoints, then start a patch at
   * every polygon not yet tagged. Every polygon of `polygons` untagged on
   * entry lands in exactly one patch, and no other polygon does; the
   * registry is cleared after each patch.
   */
  method LscmPatches(m: Mesh, reg: Registry, faceTag: array<bool>, vtag: array<bool>, polygons: seq<nat>)
    returns (patches: seq<Patch>)
    requires m.Valid() && faceTag.Length == m.Faces() && vtag.Length == m.Verts()
    requires forall i :: 0 <= i < |polygons| ==> polygons[i] < m.Faces()
    requires reg.all == [] && faceTag != vtag
    modifies reg, faceTag, vtag
    ensures reg.all == []
    ensures forall v :: 0 <= v < vtag.Length ==> vtag[v] == (old(vtag[v]) || SeamEnd(m, polygons, v))
    ensures Distinct(AllFaces(patches))
    ensures forall f :: f in AllFaces(patches) <==> f in polygons && !old(faceTag[f])
    ensures forall i :: 0 <= i < |patches| ==> PatchOk(m, vtag[..], patches[i])
    ensures forall f :: 0 <= f < m.Faces() ==> faceTag[f] == (old(faceTag[f]) || f in AllFaces(patches))
  {
    TagSeamEnds(m, vtag, polygons);
    var vt := vtag[..];
    ghost var orig := faceTag[..];
    patches := [];
    for i := 0 to |polygons|
      invariant reg.all == [] && vtag[..] == vt
      invariant Yielded(m, vt, polygons, orig, faceTag[..], patches, i)
    {
      var poly := polygons[i];
      if faceTag[poly] {
        YieldSkip(m, vt, polygons, orig, faceTag[..], patches, i);
        continue;
      }
      ghost var tagBefore := faceTag[..];
      var faces, polys := GrowPatch(m, reg, faceTag, vt, polygons, poly);
      var patch := Patch(faces, polys, reg.all);
      YieldStep(m, vt, polygons, orig, tagBefore, faceTag[..], patches, i, patch);
      patches := patches + [patch];
      reg.Clear();
    }
    assert forall f :: f in polygons && !orig[f] ==> f in AllFaces(patches) by {
      forall f | f in polygons && !orig[f] ensures f in AllFaces(patches) {
        var j :| 0 <= j < |polygons| && polygons[j] == f;
      }
    }
  }
}
