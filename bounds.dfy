/**
 * Axis-aligned UV rectangles of the hotspot atlas (Bounds2d): the
 * rectangle arithmetic as functions on a `Rect` value, and the mutable
 * Bounds2d object, whose constructor folds a point list and whose inset
 * and material-aspect setter change it in place.
 */
module Bounds {
  import opened Wrappers
  import opened Vec
  import opened BigEndian

  datatype Rect = Rect(lo: Vec2, hi: Vec2)

  /** The default bounds: the unit square. */
  const UnitSquare := Rect(Vec2(0.0, 0.0), Vec2(1.0, 1.0))

  function Width(r: Rect): real { r.hi.x - r.lo.x }

  function Height(r: Rect): real { r.hi.y - r.lo.y }

  function Area(r: Rect): real { Width(r) * Height(r) }

  /** Positive area, stated by signs: width and height both positive or both negative. */
  predicate HasArea(r: Rect)
  {
    (Width(r) > 0.0 && Height(r) > 0.0) || (Width(r) < 0.0 && Height(r) < 0.0)
  }

  lemma HasAreaIff(r: Rect)
    ensures HasArea(r) <==> Area(r) > 0.0
  {
    var w, h := Width(r), Height(r);
    if w > 0.0 && h <= 0.0 { assert w * h <= 0.0; }
    if w < 0.0 && h >= 0.0 { assert w * h <= 0.0; }
    if w == 0.0 { assert w * h == 0.0; }
  }

  function Center(r: Rect): Vec2 { Vec2((r.lo.x + r.hi.x) * 0.5, (r.lo.y + r.hi.y) * 0.5) }

  /** min <= max in both coordinates. */
  predicate Ordered(r: Rect) { r.lo.x <= r.hi.x && r.lo.y <= r.hi.y }

  /** `p` lies in `r`, borders included. */
  predicate Covers(r: Rect, p: Vec2) { r.lo.x <= p.x <= r.hi.x && r.lo.y <= p.y <= r.hi.y }

  /** Widen `r` so that it covers `p`: one step of the constructor's fold. */
  function Grow(r: Rect, p: Vec2): Rect
  {
    Rect(Vec2(Min(p.x, r.lo.x), Min(p.y, r.lo.y)), Vec2(Max(p.x, r.hi.x), Max(p.y, r.hi.y)))
  }

  /** The fold of Grow over `ps`, from `r`. */
  function Fold(r: Rect, ps: seq<Vec2>): Rect
  {
    if ps == [] then r else Grow(Fold(r, ps[..|ps| - 1]), ps[|ps| - 1])
  }

  /** The bounds the constructor computes: the unit square for no points, else the fold from the first point. */
  function BoundsOf(ps: seq<Vec2>): Rect
  {
    if ps == [] then UnitSquare else Fold(Rect(ps[0], ps[0]), ps)
  }

  /**
   * The fold covers its start and every point, and each of its four
   * coordinates is the start's or some point's.
   */
  lemma {:induction false} FoldCovers(r: Rect, ps: seq<Vec2>)
    ensures var f := Fold(r, ps);
      && f.lo.x <= r.lo.x && f.lo.y <= r.lo.y && r.hi.x <= f.hi.x && r.hi.y <= f.hi.y
      && (forall i :: 0 <= i < |ps| ==> Covers(f, ps[i]))
      && (f.lo.x == r.lo.x || exists i :: 0 <= i < |ps| && ps[i].x == f.lo.x)
      && (f.lo.y == r.lo.y || exists i :: 0 <= i < |ps| && ps[i].y == f.lo.y)
      && (f.hi.x == r.hi.x || exists i :: 0 <= i < |ps| && ps[i].x == f.hi.x)
      && (f.hi.y == r.hi.y || exists i :: 0 <= i < |ps| && ps[i].y == f.hi.y)
  {
    if ps != [] {
      var init := ps[..|ps| - 1];
      FoldCovers(r, init);
      assert forall i :: 0 <= i < |init| ==> ps[i] == init[i];
    }
  }

  /**
   * The constructor's bounds: the unit square without points; otherwise
   * min <= every point <= max, each bound attained by some point.
   */
  lemma BoundsOfCovers(ps: seq<Vec2>)
    ensures ps == [] ==> BoundsOf(ps) == UnitSquare
    ensures ps != [] ==> var b := BoundsOf(ps);
      && Ordered(b)
      && (forall i :: 0 <= i < |ps| ==> Covers(b, ps[i]))
      && (exists i :: 0 <= i < |ps| && ps[i].x == b.lo.x)
      && (exists i :: 0 <= i < |ps| && ps[i].y == b.lo.y)
      && (exists i :: 0 <= i < |ps| && ps[i].x == b.hi.x)
      && (exists i :: 0 <= i < |ps| && ps[i].y == b.hi.y)
  {
    if ps != [] {
      FoldCovers(Rect(ps[0], ps[0]), ps);
    }
  }

  /** Strict containment of a point (Bounds2d.inside). */
  predicate Inside(r: Rect, p: Vec2)
  {
    p.x > r.lo.x && p.y > r.lo.y && p.x < r.hi.x && p.y < r.hi.y
  }

  /** Bounds2d.overlapping: neither rectangle lies wholly beside the other. */
  predicate Overlapping(a: Rect, b: Rect)
  {
    !(a.hi.x < b.lo.x || a.lo.x > b.hi.x || a.hi.y < b.lo.y || a.lo.y > b.hi.y)
  }

  /** Bounds2d.overlapping_area: the signed product of the intersection's sides. */
  function OverlappingArea(a: Rect, b: Rect): real
  {
    (Min(a.hi.x, b.hi.x) - Max(a.lo.x, b.lo.x)) * (Min(a.hi.y, b.hi.y) - Max(a.lo.y, b.lo.y))
  }

  /** A rectangle with a point strictly inside has positive area. */
  lemma InsidePositive(r: Rect, p: Vec2)
    requires Inside(r, p)
    ensures Width(r) > 0.0 && Height(r) > 0.0 && Area(r) > 0.0
  {
    assert Width(r) * Height(r) > 0.0 * Height(r);
  }

  /**
   * Overlap is symmetric; for ordered rectangles that overlap, the
   * overlapping area is not negative, and it is the smaller one's area
   * when one contains the other.
   */
  lemma OverlapFacts(a: Rect, b: Rect)
    ensures Overlapping(a, b) == Overlapping(b, a)
    ensures OverlappingArea(a, b) == OverlappingArea(b, a)
    ensures Ordered(a) && Ordered(b) && Overlapping(a, b) ==> OverlappingArea(a, b) >= 0.0
    ensures Ordered(b) && Covers(a, b.lo) && Covers(a, b.hi) ==> Overlapping(a, b) && OverlappingArea(a, b) == Area(b)
  {
    var w := Min(a.hi.x, b.hi.x) - Max(a.lo.x, b.lo.x);
    var h := Min(a.hi.y, b.hi.y) - Max(a.lo.y, b.lo.y);
    if Ordered(a) && Ordered(b) && Overlapping(a, b) {
      assert w >= 0.0 && h >= 0.0;
      assert OverlappingArea(a, b) == w * h;
      assert w * h >= 0.0 * h;
    }
  }

  /** clamp: re-sort the corners, move the center's unit cell onto [0,1)², then cut to the unit square. */
  function ClampRect(r: Rect): Rect
  {
    var n := BoundsOf([r.lo, r.hi]);
    var c := Vec2(FloorR((n.lo.x + n.hi.x) / 2.0), FloorR((n.lo.y + n.hi.y) / 2.0));
    Rect(Vec2(Max(n.lo.x - c.x, 0.0), Max(n.lo.y - c.y, 0.0)),
         Vec2(Min(n.hi.x - c.x, 1.0), Min(n.hi.y - c.y, 1.0)))
  }

  /** The two-point bounds of a rectangle re-sort its corners. */
  lemma TwoPoints(r: Rect)
    ensures BoundsOf([r.lo, r.hi]) == Rect(Vec2(Min(r.lo.x, r.hi.x), Min(r.lo.y, r.hi.y)), Vec2(Max(r.lo.x, r.hi.x), Max(r.lo.y, r.hi.y)))
  {
    var ps := [r.lo, r.hi];
    var r0 := Rect(r.lo, r.lo);
    assert ps[..1] == [r.lo] && [r.lo][..0] == [];
    assert Fold(r0, [r.lo]) == Grow(Fold(r0, []), r.lo) == r0;
    assert Fold(r0, ps) == Grow(Fold(r0, [r.lo]), r.hi);
  }

  /** A clamped rectangle lies in the unit square, and is ordered. */
  lemma ClampInUnit(r: Rect)
    ensures var c := ClampRect(r);
      && 0.0 <= c.lo.x && 0.0 <= c.lo.y && c.hi.x <= 1.0 && c.hi.y <= 1.0
      && Ordered(c)
  {
    TwoPoints(r);
  }

  /** Clamping leaves an ordered rectangle of the unit square alone, unless it is the corner point (1,1). */
  lemma ClampKeepsUnit(r: Rect)
    requires Ordered(r) && 0.0 <= r.lo.x && 0.0 <= r.lo.y && r.hi.x <= 1.0 && r.hi.y <= 1.0
    requires r.lo.x < 1.0 && r.lo.y < 1.0
    ensures ClampRect(r) == r
  {
    TwoPoints(r);
  }

  /** normalized: re-sort the corners and shift by the floor of the center. */
  function NormalizedRect(r: Rect): Rect
  {
    var c := Center(r);
    var n := BoundsOf([r.lo, r.hi]);
    var fx, fy := FloorR(c.x), FloorR(c.y);
    Rect(Vec2(n.lo.x - fx, n.lo.y - fy), Vec2(n.hi.x - fx, n.hi.y - fy))
  }

  /** A normalized rectangle is ordered, keeps its size, and has its center in [0,1)². */
  lemma NormalizedCentered(r: Rect)
    ensures var n := NormalizedRect(r);
      && Ordered(n)
      && Width(n) == Abs(Width(r)) && Height(n) == Abs(Height(r))
      && 0.0 <= Center(n).x < 1.0 && 0.0 <= Center(n).y < 1.0
  {
    TwoPoints(r);
  }

  /** inset: pull every side in, the horizontal ones by `f * aspect`. */
  function InsetRect(r: Rect, f: real, aspect: real): Rect
  {
    Rect(Vec2(r.lo.x + f * aspect, r.lo.y + f), Vec2(r.hi.x - f * aspect, r.hi.y - f))
  }

  /** Inset keeps the center and shrinks the sides by twice the amounts. */
  lemma InsetShrinks(r: Rect, f: real, aspect: real)
    ensures Center(InsetRect(r, f, aspect)) == Center(r)
    ensures Width(InsetRect(r, f, aspect)) == Width(r) - 2.0 * f * aspect
    ensures Height(InsetRect(r, f, aspect)) == Height(r) - 2.0 * f
  {
  }

  /** int(x * 32768) truncated toward zero, then wrapped into an unsigned short (ctypes.c_ushort). */
  function Fixed(x: real): (r: nat)
    ensures r < TwoTo16
  {
    var s := x * 32768.0;
    var t := if s >= 0.0 then s.Floor else -((-s).Floor);
    t % TwoTo16
  }

  /** Bounds2d.__bytes__: four '>H' values, min x, min y, max x, max y. */
  function RectBytes(r: Rect): (b: seq<Byte>)
    ensures |b| == 8
  {
    PackU16(Fixed(r.lo.x)) + PackU16(Fixed(r.lo.y)) + PackU16(Fixed(r.hi.x)) + PackU16(Fixed(r.hi.y))
  }

  /** A coordinate the fixed-point format holds exactly: a multiple of 1/32768 in [0,1]. */
  predicate OnGrid(x: real)
  {
    0.0 <= x <= 1.0 && (x * 32768.0).Floor as real == x * 32768.0
  }

  /** Grid coordinates survive the fixed-point encoding. */
  lemma FixedOnGrid(x: real)
    requires OnGrid(x)
    ensures Fixed(x) as real / 32768.0 == x
  {
  }

  /** The Bounds2d object: its corners, material aspect and cached orientation. */
  class Bounds2d {
    var lo: Vec2
    var hi: Vec2
    var materialAspect: real
    var horizontal: bool

    function Value(): Rect
      reads this
    {
      Rect(lo, hi)
    }

    /**
     * Bounds2d(points, materialaspect=...): the bounds of the points (the
     * unit square when there are none). The orientation is computed for
     * the unit square, and recomputed only when a material aspect is given.
     */
    constructor (points: seq<Vec2>, aspect: Option<real>)
      ensures Value() == BoundsOf(points)
      ensures materialAspect == if aspect.Some? then aspect.value else 1.0
      ensures horizontal == (aspect.Some? && Width(Value()) * aspect.value > Height(Value()))
    {
      var l, h := Vec2(0.0, 0.0), Vec2(1.0, 1.0);
      if points != [] {
        l, h := points[0], points[0];
      }
      for i := 0 to |points|
        invariant points != [] ==> Rect(l, h) == Fold(Rect(points[0], points[0]), points[..i])
        invariant points == [] ==> Rect(l, h) == UnitSquare
      {
        assert points[..i + 1][..i] == points[..i];
        var p := points[i];
        l := Vec2(Min(p.x, l.x), Min(p.y, l.y));
        h := Vec2(Max(p.x, h.x), Max(p.y, h.y));
      }
      assert points[..|points|] == points;
      lo, hi := l, h;
      materialAspect := 1.0;
      horizontal := false;
      if aspect.Some? {
        materialAspect := aspect.value;
        horizontal := (h.x - l.x) * aspect.value > h.y - l.y;
      }
    }

    /** The materialaspect setter: stores the aspect and recomputes the orientation. */
    method SetMaterialAspect(value: real)
      modifies this
      ensures Value() == old(Value()) && materialAspect == value
      ensures horizontal == (Width(Value()) * value > Height(Value()))
    {
      materialAspect := value;
      horizontal := (hi.x - lo.x) * value > hi.y - lo.y;
    }

    /** inset(f, aspect), in place; the orientation is not recomputed. */
    method Inset(f: real, aspect: real)
      modifies this
      ensures Value() == InsetRect(old(Value()), f, aspect)
      ensures materialAspect == old(materialAspect) && horizontal == old(horizontal)
    {
      lo := Vec2(lo.x + f * aspect, lo.y + f);
      hi := Vec2(hi.x - f * aspect, hi.y - f);
    }

    /** clamp(): a new Bounds2d with the default material aspect. */
    method Clamp() returns (b: Bounds2d)
      ensures fresh(b) && b.Value() == ClampRect(Value())
      ensures b.materialAspect == 1.0 && !b.horizontal
    {
      b := new Bounds2d([lo, hi], None);
      var c := Vec2(FloorR((b.lo.x + b.hi.x) / 2.0), FloorR((b.lo.y + b.hi.y) / 2.0));
      b.lo := Vec2(b.lo.x - c.x, b.lo.y - c.y);
      b.hi := Vec2(b.hi.x - c.x, b.hi.y - c.y);
      b.lo := Vec2(Max(b.lo.x, 0.0), Max(b.lo.y, 0.0));
      b.hi := Vec2(Min(b.hi.x, 1.0), Min(b.hi.y, 1.0));
    }

    /** normalized(): a new Bounds2d shifted by the floor of this one's center. */
    method Normalized() returns (b: Bounds2d)
      ensures fresh(b) && b.Value() == NormalizedRect(Value())
      ensures b.materialAspect == 1.0 && !b.horizontal
    {
      var c := Center(Rect(lo, hi));
      b := new Bounds2d([lo, hi], None);
      var fx, fy := FloorR(c.x), FloorR(c.y);
      b.lo := Vec2(b.lo.x - fx, b.lo.y - fy);
      b.hi := Vec2(b.hi.x - fx, b.hi.y - fy);
    }
  }
}
