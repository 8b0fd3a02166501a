/**
 * Bounding boxes of UV points and the refit of a group of faces into a
 * given box (BBoxFromPoints and FitToBBox). Coordinates are exact reals;
 * the sentinels of the min/max fold are the source's own constants.
 */
module BBox {
  import opened Vec
  import opened HalfEdge
  import opened SeqFacts

  /** An axis-aligned box from its minimum corner to its maximum corner. */
  datatype Box = Box(lo: Vec2, hi: Vec2)

  /** The initial minimum of the fold. */
  const Far: real := 99999.0

  function UnitBox(): Box { Box(Vec2(0.0, 0.0), Vec2(1.0, 1.0)) }

  function Width(b: Box): real { b.hi.x - b.lo.x }

  function Height(b: Box): real { b.hi.y - b.lo.y }

  predicate Inside(p: Vec2, b: Box)
  {
    b.lo.x <= p.x <= b.hi.x && b.lo.y <= p.y <= b.hi.y
  }

  /**
   * The min/max fold over the points, starting from (Far, Far) and
   * (-Far, -Far): every point lies inside, and each bound is either its
   * sentinel or the coordinate of some point.
   */
  function Extent(points: seq<Vec2>): (r: Box)
    ensures forall i :: 0 <= i < |points| ==> Inside(points[i], r)
    ensures r.lo.x <= Far && r.lo.y <= Far && r.hi.x >= -Far && r.hi.y >= -Far
    ensures r.lo.x == Far || exists i :: 0 <= i < |points| && r.lo.x == points[i].x
    ensures r.lo.y == Far || exists i :: 0 <= i < |points| && r.lo.y == points[i].y
    ensures r.hi.x == -Far || exists i :: 0 <= i < |points| && r.hi.x == points[i].x
    ensures r.hi.y == -Far || exists i :: 0 <= i < |points| && r.hi.y == points[i].y
  {
    if points == [] then Box(Vec2(Far, Far), Vec2(-Far, -Far))
    else
      var b := Extent(points[..|points| - 1]);
      var p := points[|points| - 1];
      assert forall i :: 0 <= i < |points| - 1 ==> points[..|points| - 1][i] == points[i];
      Box(Vec2(Min(b.lo.x, p.x), Min(b.lo.y, p.y)), Vec2(Max(b.hi.x, p.x), Max(b.hi.y, p.y)))
  }

  /**
   * BBoxFromPoints: the fold, replaced by the unit square when its width
   * or height is at most `epsilon`. The result is the unit square or a box
   * wider and taller than `epsilon` that holds every point.
   */
  function BBoxFromPoints(points: seq<Vec2>, epsilon: real): (r: Box)
    ensures r == UnitBox() || ((forall i :: 0 <= i < |points| ==> Inside(points[i], r))
                               && Width(r) > epsilon && Height(r) > epsilon)
    ensures epsilon >= 0.0 ==> Width(r) > 0.0 && Height(r) > 0.0
  {
    var b := Extent(points);
    if Width(b) <= epsilon || Height(b) <= epsilon then UnitBox() else b
  }

  /** Some two points lie more than `epsilon` apart horizontally. */
  predicate WideX(points: seq<Vec2>, epsilon: real)
  {
    exists i, j :: 0 <= i < |points| && 0 <= j < |points| && points[i].x - points[j].x > epsilon
  }

  /** Some two points lie more than `epsilon` apart vertically. */
  predicate WideY(points: seq<Vec2>, epsilon: real)
  {
    exists i, j :: 0 <= i < |points| && 0 <= j < |points| && points[i].y - points[j].y > epsilon
  }

  /** The points lie strictly between the sentinels of the fold. */
  predicate WithinFar(points: seq<Vec2>)
  {
    forall i :: 0 <= i < |points| ==> -Far < points[i].x < Far && -Far < points[i].y < Far
  }

  /**
   * With no points, or with all points within `epsilon` of each other
   * horizontally or vertically, the box is the unit square.
   */
  lemma BBoxDegenerate(points: seq<Vec2>, epsilon: real)
    requires epsilon >= 0.0 && WithinFar(points)
    requires !WideX(points, epsilon) || !WideY(points, epsilon)
    ensures BBoxFromPoints(points, epsilon) == UnitBox()
  {
    var b := Extent(points);
    if points != [] {
      assert Inside(points[0], b);
      var i0 :| 0 <= i0 < |points| && b.lo.x == points[i0].x;
      var i1 :| 0 <= i1 < |points| && b.hi.x == points[i1].x;
      var j0 :| 0 <= j0 < |points| && b.lo.y == points[j0].y;
      var j1 :| 0 <= j1 < |points| && b.hi.y == points[j1].y;
      if !WideX(points, epsilon) {
        assert Width(b) == points[i1].x - points[i0].x;
      } else {
        assert Height(b) == points[j1].y - points[j0].y;
      }
    }
  }

  /**
   * Otherwise the fold is kept: the box is wider and taller than
   * `epsilon`, holds every point, and each of its sides touches a point.
   */
  lemma BBoxKept(points: seq<Vec2>, epsilon: real)
    requires WithinFar(points) && WideX(points, epsilon) && WideY(points, epsilon)
    ensures var r := BBoxFromPoints(points, epsilon);
            && r == Extent(points) && Width(r) > epsilon && Height(r) > epsilon
            && (forall i :: 0 <= i < |points| ==> Inside(points[i], r))
            && (exists i :: 0 <= i < |points| && r.lo.x == points[i].x)
            && (exists i :: 0 <= i < |points| && r.lo.y == points[i].y)
            && (exists i :: 0 <= i < |points| && r.hi.x == points[i].x)
            && (exists i :: 0 <= i < |points| && r.hi.y == points[i].y)
  {
    var b := Extent(points);
    var i0, i1 :| 0 <= i0 < |points| && 0 <= i1 < |points| && points[i0].x - points[i1].x > epsilon;
    var j0, j1 :| 0 <= j0 < |points| && 0 <= j1 < |points| && points[j0].y - points[j1].y > epsilon;
    assert Inside(points[i0], b) && Inside(points[i1], b);
    assert Inside(points[j0], b) && Inside(points[j1], b);
    assert Width(b) > epsilon && Height(b) > epsilon;
    assert BBoxFromPoints(points, epsilon) == b;
    assert b.lo.x < Far && b.lo.y < Far && b.hi.x > -Far && b.hi.y > -Far;
  }

  /**
   * The refit matrix T(initial centre) * S * T(-final centre) applied to a
   * point. S scales x by initial width / final width and y by the target
   * height (initial width times the initial aspect) / final height, or by
   * the x scale when `uniform`.
   */
  function FitPoint(p: Vec2, init: Box, fin: Box, uniform: bool): Vec2
    requires Width(init) != 0.0 && Width(fin) != 0.0 && Height(fin) != 0.0
  {
    var aspect := Height(init) / Width(init);
    var sx := Width(init) / Width(fin);
    var sy := if uniform then sx else (Width(init) * aspect) / Height(fin);
    Vec2(sx * (p.x + (fin.lo.x + fin.hi.x) * -0.5) + (init.lo.x + init.hi.x) * 0.5,
         sy * (p.y + (fin.lo.y + fin.hi.y) * -0.5) + (init.lo.y + init.hi.y) * 0.5)
  }

  /** When the current box already is the initial one, the refit changes no point. */
  lemma FitIdentity(p: Vec2, b: Box, uniform: bool)
    requires Width(b) != 0.0 && Height(b) != 0.0
    ensures FitPoint(p, b, b, uniform) == p
  {
    var w := Width(b);
    var h := Height(b);
    assert w / w == 1.0;
    assert w * (h / w) == h;
    assert (w * (h / w)) / h == 1.0;
  }

  /** Without `uniform`, the refit maps the current box's corners onto the initial box's. */
  lemma FitCorners(init: Box, fin: Box)
    requires Width(init) != 0.0 && Width(fin) != 0.0 && Height(fin) != 0.0
    ensures FitPoint(fin.lo, init, fin, false) == init.lo
    ensures FitPoint(fin.hi, init, fin, false) == init.hi
  {
    var wi, wf, hi, hf := Width(init), Width(fin), Height(init), Height(fin);
    assert wi * (hi / wi) == hi;
    assert fin.lo.x + (fin.lo.x + fin.hi.x) * -0.5 == -0.5 * wf;
    assert fin.hi.x + (fin.lo.x + fin.hi.x) * -0.5 == 0.5 * wf;
    assert fin.lo.y + (fin.lo.y + fin.hi.y) * -0.5 == -0.5 * hf;
    assert fin.hi.y + (fin.lo.y + fin.hi.y) * -0.5 == 0.5 * hf;
    assert (wi / wf) * (-0.5 * wf) == -0.5 * wi;
    assert (wi / wf) * (0.5 * wf) == 0.5 * wi;
    assert (hi / hf) * (-0.5 * hf) == -0.5 * hi;
    assert (hi / hf) * (0.5 * hf) == 0.5 * hi;
  }

  /** The UVs of the first `n` corners of face `f`. */
  function CornerUVs(m: Mesh, f: nat, uv: seq<Vec2>, n: nat): (r: seq<Vec2>)
    requires m.Valid() && |uv| == m.Loops() && f < m.Faces() && n <= |m.faceLoops[f]|
    ensures |r| == n && forall i :: 0 <= i < n ==> r[i] == uv[m.faceLoops[f][i]]
  {
    if n == 0 then [] else CornerUVs(m, f, uv, n - 1) + [uv[m.faceLoops[f][n - 1]]]
  }

  /** The UVs of the faces' corners, face by face in winding order. */
  function FaceUVs(m: Mesh, faces: seq<nat>, uv: seq<Vec2>): seq<Vec2>
    requires m.Valid() && |uv| == m.Loops() && forall k :: 0 <= k < |faces| ==> faces[k] < m.Faces()
  {
    if faces == [] then []
    else
      var f := faces[|faces| - 1];
      assert f < m.Faces();
      FaceUVs(m, faces[..|faces| - 1], uv) + CornerUVs(m, f, uv, |m.faceLoops[f]|)
  }

  /** Loop `l` is a corner of one of the first `n` faces. */
  ghost predicate OnFaces(m: Mesh, faces: seq<nat>, n: nat, l: nat)
    requires m.Valid() && n <= |faces| && forall k :: 0 <= k < |faces| ==> faces[k] < m.Faces()
  {
    exists k :: 0 <= k < n && faces[k] < m.Faces() && l in m.faceLoops[faces[k]]
  }

  /** The gathering loop of FitToBBox: every corner's UV, face by face. */
  method GatherUVs(m: Mesh, faces: seq<nat>, uv: array<Vec2>) returns (coords: seq<Vec2>)
    requires m.Valid() && uv.Length == m.Loops() && forall k :: 0 <= k < |faces| ==> faces[k] < m.Faces()
    ensures coords == FaceUVs(m, faces, uv[..])
  {
    coords := [];
    for k := 0 to |faces|
      invariant coords == FaceUVs(m, faces[..k], uv[..])
    {
      assert faces[..k + 1][..k] == faces[..k];
      var f := faces[k];
      assert f < m.Faces();
      ghost var start := coords;
      for i := 0 to |m.faceLoops[f]|
        invariant coords == start + CornerUVs(m, f, uv[..], i)
      {
        coords := coords + [uv[m.faceLoops[f][i]]];
      }
    }
    assert faces[..|faces|] == faces;
  }

  /**
   * FitToBBox: refit the UVs of `faces` so that their bounding box becomes
   * `init` (or, with `uniform`, is scaled evenly about it). A zero-width
   * `init` is the ZeroDivisionError of the aspect ratio, raised before any
   * write. Every corner of the faces is transformed exactly once; every
   * other UV is left as it was.
   */
  method FitToBBox(m: Mesh, faces: seq<nat>, init: Box, uv: array<Vec2>, uniform: bool, epsilon: real)
    returns (ok: bool)
    requires m.Valid() && uv.Length == m.Loops() && epsilon >= 0.0
    requires forall k :: 0 <= k < |faces| ==> faces[k] < m.Faces() && Distinct(m.faceLoops[faces[k]])
    requires Distinct(faces)
    modifies uv
    ensures ok <==> Width(init) != 0.0
    ensures var fin := BBoxFromPoints(FaceUVs(m, faces, old(uv[..])), epsilon);
            forall l :: 0 <= l < uv.Length ==>
              uv[l] == if ok && OnFaces(m, faces, |faces|, l) then FitPoint(old(uv[l]), init, fin, uniform) else old(uv[l])
  {
    var coords := GatherUVs(m, faces, uv);
    var fin := BBoxFromPoints(coords, epsilon);
    if Width(init) == 0.0 {
      return false;
    }
    ghost var orig := uv[..];
    for k := 0 to |faces|
      invariant forall l :: 0 <= l < uv.Length ==>
                  uv[l] == if OnFaces(m, faces, k, l) then FitPoint(orig[l], init, fin, uniform) else orig[l]
    {
      FitFace(m, faces, k, init, fin, uniform, uv, orig);
    }
    return true;
  }

  /** The inner loop of the refit: transform the corners of face `faces[k]`. */
  method FitFace(m: Mesh, faces: seq<nat>, k: nat, init: Box, fin: Box, uniform: bool, uv: array<Vec2>, ghost orig: seq<Vec2>)
    requires m.Valid() && uv.Length == m.Loops() && |orig| == m.Loops() && k < |faces|
    requires forall j :: 0 <= j < |faces| ==> faces[j] < m.Faces()
    requires Distinct(faces) && faces[k] < m.Faces() && Distinct(m.faceLoops[faces[k]])
    requires Width(init) != 0.0 && Width(fin) != 0.0 && Height(fin) != 0.0
    requires forall l :: 0 <= l < uv.Length ==>
               uv[l] == if OnFaces(m, faces, k, l) then FitPoint(orig[l], init, fin, uniform) else orig[l]
    modifies uv
    ensures forall l :: 0 <= l < uv.Length ==>
              uv[l] == if OnFaces(m, faces, k + 1, l) then FitPoint(orig[l], init, fin, uniform) else orig[l]
  {
    var ls := m.faceLoops[faces[k]];
    // a corner of this face is a corner of no earlier face
    forall l | l in ls ensures !OnFaces(m, faces, k, l) {
      assert m.loopFace[l] == faces[k];
      forall j | 0 <= j < k ensures l !in m.faceLoops[faces[j]] {
        assert faces[j] != faces[k];
        assert forall i :: 0 <= i < |m.faceLoops[faces[j]]| ==> m.loopFace[m.faceLoops[faces[j]][i]] == faces[j];
      }
    }
    for i := 0 to |ls|
      invariant forall l :: 0 <= l < uv.Length ==>
                  uv[l] == if OnFaces(m, faces, k, l) || l in ls[..i] then FitPoint(orig[l], init, fin, uniform) else orig[l]
    {
      var l := ls[i];
      assert l !in ls[..i];
      uv[l] := FitPoint(uv[l], init, fin, uniform);
      assert forall l' :: l' in ls[..i + 1] <==> l' in ls[..i] || l' == ls[i];
    }
    assert ls[..|ls|] == ls;
    forall l | 0 <= l < uv.Length ensures OnFaces(m, faces, k + 1, l) <==> OnFaces(m, faces, k, l) || l in ls {
      if l in ls {
        assert l in m.faceLoops[faces[k]];
      }
    }
  }
}
