/**
 * A hotspot: an ordered list of atlas rectangles. Construction keeps the
 * rectangles of positive area; the byte form is a '>I' count followed by
 * eight bytes per rectangle; `nearest` picks the rectangle a UV falls in,
 * or the one whose nearest corner is closest.
 */
module Hotspots {
  import opened Wrappers
  import opened Vec
  import opened BigEndian
  import opened Bounds
  import opened SeqFacts

  /** The name is not part of the byte form; a hotspot read from bytes is unnamed. */
  datatype Hotspot = Hotspot(name: string, data: seq<Rect>)

  /** The rectangles of positive area, in their order. */
  function Positive(rs: seq<Rect>): seq<Rect>
  {
    if rs == [] then []
    else
      var p := Positive(rs[..|rs| - 1]);
      if HasArea(rs[|rs| - 1]) then p + [rs[|rs| - 1]] else p
  }

  /** Filtering distributes over concatenation, so the kept rectangles keep their order. */
  lemma {:induction false} PositiveAppend(a: seq<Rect>, b: seq<Rect>)
    ensures Positive(a + b) == Positive(a) + Positive(b)
  {
    if b == [] {
      assert a + b == a;
    } else {
      assert (a + b)[..|a + b| - 1] == a + b[..|b| - 1];
      PositiveAppend(a, b[..|b| - 1]);
    }
  }

  /** Exactly the rectangles of positive area are kept, none is invented, and an all-positive list is kept whole. */
  lemma {:induction false} PositiveExact(rs: seq<Rect>)
    ensures |Positive(rs)| <= |rs|
    ensures forall r :: r in Positive(rs) <==> r in rs && Area(r) > 0.0
    ensures (forall i :: 0 <= i < |rs| ==> Area(rs[i]) > 0.0) ==> Positive(rs) == rs
  {
    forall r | r in rs {
      HasAreaIff(r);
    }
    if rs != [] {
      var init := rs[..|rs| - 1];
      PositiveExact(init);
      assert rs == init + [rs[|rs| - 1]];
      assert forall i :: 0 <= i < |init| ==> init[i] == rs[i];
    }
  }

  /** Hotspot(bounds2d_list, name=...): the loop that keeps the rectangles of positive area. */
  method NewHotspot(rects: seq<Rect>, name: string) returns (h: Hotspot)
    ensures h.name == name && h.data == Positive(rects)
  {
    var data: seq<Rect> := [];
    for i := 0 to |rects|
      invariant data == Positive(rects[..i])
    {
      assert rects[..i + 1][..i] == rects[..i];
      HasAreaIff(rects[i]);
      if Area(rects[i]) > 0.0 {
        data := data + [rects[i]];
      }
    }
    assert rects[..|rects|] == rects;
    return Hotspot(name, data);
  }

  /** The rectangles' bytes, one after the other. */
  function RectsBytes(rs: seq<Rect>): (b: seq<Byte>)
    ensures |b| == 8 * |rs|
  {
    if rs == [] then [] else RectsBytes(rs[..|rs| - 1]) + RectBytes(rs[|rs| - 1])
  }

  /** Hotspot.__bytes__; a count that does not fit in '>I' is struct.error, here None. */
  function HotspotBytes(h: Hotspot): (b: Option<seq<Byte>>)
    ensures b.Some? <==> |h.data| < TwoTo32
    ensures b.Some? ==> |b.value| == 4 + 8 * |h.data|
  {
    if |h.data| < TwoTo32 then Some(PackU32(|h.data|) + RectsBytes(h.data)) else None
  }

  /** One rectangle read back at `o`: the four shorts over 32768, re-sorted by the Bounds2d constructor. */
  function RectAt(buf: seq<Byte>, o: nat): Rect
    requires o + 8 <= |buf|
  {
    var x0, y0 := UnpackU16(buf, o).value, UnpackU16(buf, o + 2).value;
    var x1, y1 := UnpackU16(buf, o + 4).value, UnpackU16(buf, o + 6).value;
    BoundsOf([Vec2(x0 as real / 32768.0, y0 as real / 32768.0), Vec2(x1 as real / 32768.0, y1 as real / 32768.0)])
  }

  /** The first `n` rectangles stored from `o` on. */
  function RectsAt(buf: seq<Byte>, o: nat, n: nat): (rs: seq<Rect>)
    requires o + 8 * n <= |buf|
    ensures |rs| == n
  {
    seq(n, i requires 0 <= i < n => RectAt(buf, o + 8 * i))
  }

  /**
   * Hotspot.unpack: the count at `off`, then that many rectangles; the
   * result is the hotspot built from them and the offset just past them,
   * or None when the buffer ends early (struct.error).
   */
  function UnpackSpec(buf: seq<Byte>, off: nat): Option<(Hotspot, nat)>
  {
    match UnpackU32(buf, off)
    case None => None
    case Some(n) =>
      if off + 4 + 8 * n <= |buf| then Some((Hotspot("", Positive(RectsAt(buf, off + 4, n))), off + 4 + 8 * n))
      else None
  }

  /** Hotspot.unpack, reading one rectangle per iteration and advancing the offset. */
  method Unpack(buf: seq<Byte>, off: nat) returns (r: Option<(Hotspot, nat)>)
    ensures r == UnpackSpec(buf, off)
  {
    var count := UnpackU32(buf, off);
    if count.None? {
      return None;
    }
    var n := count.value;
    var offset := off + 4;
    var data: seq<Rect> := [];
    for i := 0 to n
      invariant offset == off + 4 + 8 * i <= |buf|
      invariant data == RectsAt(buf, off + 4, i)
    {
      if offset + 8 > |buf| {
        return None;
      }
      data := data + [RectAt(buf, offset)];
      offset := offset + 8;
    }
    var h := NewHotspot(data, "");
    return Some((h, offset));
  }

  /** A rectangle with grid corners in min/max order is read back equal from where its bytes sit. */
  lemma RectRoundTrip(buf: seq<Byte>, o: nat, r: Rect)
    requires Ordered(r) && OnGrid(r.lo.x) && OnGrid(r.lo.y) && OnGrid(r.hi.x) && OnGrid(r.hi.y)
    requires At(buf, o, RectBytes(r))
    ensures o + 8 <= |buf| && RectAt(buf, o) == r
  {
    var a, b := PackU16(Fixed(r.lo.x)), PackU16(Fixed(r.lo.y));
    var c, d := PackU16(Fixed(r.hi.x)), PackU16(Fixed(r.hi.y));
    AtSplit(buf, o, a + b + c, d);
    AtSplit(buf, o, a + b, c);
    AtSplit(buf, o, a, b);
    U16At(buf, o, Fixed(r.lo.x));
    U16At(buf, o + 2, Fixed(r.lo.y));
    U16At(buf, o + 4, Fixed(r.hi.x));
    U16At(buf, o + 6, Fixed(r.hi.y));
    FixedOnGrid(r.lo.x);
    FixedOnGrid(r.lo.y);
    FixedOnGrid(r.hi.x);
    FixedOnGrid(r.hi.y);
    TwoPoints(r);
  }

  /** The bytes of rectangle `i` sit `8 * i` bytes into the rectangles' bytes. */
  lemma {:induction false} RectsBytesEach(buf: seq<Byte>, o: nat, rs: seq<Rect>)
    requires At(buf, o, RectsBytes(rs))
    ensures forall i :: 0 <= i < |rs| ==> At(buf, o + 8 * i, RectBytes(rs[i]))
  {
    if rs != [] {
      var init := rs[..|rs| - 1];
      AtSplit(buf, o, RectsBytes(init), RectBytes(rs[|rs| - 1]));
      RectsBytesEach(buf, o, init);
      assert forall i :: 0 <= i < |init| ==> init[i] == rs[i];
    }
  }

  /** Every rectangle is ordered and has grid corners. */
  predicate Storable(rs: seq<Rect>)
  {
    forall i :: 0 <= i < |rs| ==> Ordered(rs[i]) && OnGrid(rs[i].lo.x) && OnGrid(rs[i].lo.y) && OnGrid(rs[i].hi.x) && OnGrid(rs[i].hi.y)
  }

  /** A count, room for that many rectangles, and the rectangles read: the hotspot they make. */
  lemma UnpackOk(buf: seq<Byte>, off: nat, rs: seq<Rect>)
    requires UnpackU32(buf, off) == Some(|rs|) && off + 4 + 8 * |rs| <= |buf|
    requires RectsAt(buf, off + 4, |rs|) == rs
    ensures UnpackSpec(buf, off) == Some((Hotspot("", Positive(rs)), off + 4 + 8 * |rs|))
  {
  }

  /**
   * A hotspot's bytes, wherever they sit in a buffer, unpack to its
   * rectangles of positive area (all of them, when none is empty: see
   * PositiveExact), and the offset moves past the 4 + 8n bytes.
   */
  lemma UnpackRoundTrip(buf: seq<Byte>, off: nat, h: Hotspot)
    requires |h.data| < TwoTo32 && Storable(h.data) && At(buf, off, HotspotBytes(h).value)
    ensures UnpackSpec(buf, off) == Some((Hotspot("", Positive(h.data)), off + 4 + 8 * |h.data|))
  {
    var n := |h.data|;
    AtSplit(buf, off, PackU32(n), RectsBytes(h.data));
    assert UnpackU32(buf, off) == Some(n) by {
      U32At(buf, off, n);
    }
    assert RectsAt(buf, off + 4, n) == h.data by {
      RectsBytesEach(buf, off + 4, h.data);
      forall i | 0 <= i < n
        ensures RectAt(buf, off + 4 + 8 * i) == h.data[i]
      {
        RectRoundTrip(buf, off + 4 + 8 * i, h.data[i]);
      }
    }
    UnpackOk(buf, off, h.data);
  }

  /** u and v reduced into the unit cell (u -= floor(u)). */
  function Wrap(u: real, v: real): (p: Vec2)
    ensures 0.0 <= p.x < 1.0 && 0.0 <= p.y < 1.0
    ensures (u - p.x).Floor as real == u - p.x && (v - p.y).Floor as real == v - p.y
  {
    Vec2(u - FloorR(u), v - FloorR(v))
  }

  /** Bounds2d.corners: min, (max x, min y), max, (min x, max y). */
  function Corners(r: Rect): seq<Vec2>
  {
    [r.lo, Vec2(r.hi.x, r.lo.y), r.hi, Vec2(r.lo.x, r.hi.y)]
  }

  /**
   * Distances are compared squared: for exact reals a square root keeps
   * their order, so every comparison of `nearest` comes out the same.
   */
  function Dist2(a: Vec2, b: Vec2): real
  {
    (a.x - b.x) * (a.x - b.x) + (a.y - b.y) * (a.y - b.y)
  }

  /** The starting distance 999999999.9, squared. */
  const Far2: real := 999999999.9 * 999999999.9

  /** The running minimum with strict improvement, from `start`. */
  function Least(ds: seq<real>, start: real): real
  {
    if ds == [] then start
    else
      var m := Least(ds[..|ds| - 1], start);
      if ds[|ds| - 1] < m then ds[|ds| - 1] else m
  }

  /** The running minimum is at most the start and every element, and is one of them. */
  lemma {:induction false} LeastIsMin(ds: seq<real>, start: real)
    ensures Least(ds, start) <= start
    ensures forall i :: 0 <= i < |ds| ==> Least(ds, start) <= ds[i]
    ensures Least(ds, start) == start || Least(ds, start) in ds
  {
    if ds != [] {
      LeastIsMin(ds[..|ds| - 1], start);
      assert forall i :: 0 <= i < |ds| - 1 ==> ds[..|ds| - 1][i] == ds[i];
    }
  }

  /** The squared distance from `p` to the nearest corner of `r`, capped at the starting distance. */
  function CornerDist(r: Rect, p: Vec2): real
  {
    var cs := Corners(r);
    Least(seq(4, k requires 0 <= k < 4 => Dist2(cs[k], p)), Far2)
  }

  /** The index of the first rectangle that strictly contains `p`. */
  function FirstInside(data: seq<Rect>, p: Vec2): (r: Option<nat>)
    ensures r.None? <==> forall i :: 0 <= i < |data| ==> !Inside(data[i], p)
    ensures r.Some? ==> r.value < |data| && Inside(data[r.value], p) && forall j :: 0 <= j < r.value ==> !Inside(data[j], p)
  {
    if data == [] then None
    else if Inside(data[0], p) then Some(0)
    else
      var r := FirstInside(data[1..], p);
      assert forall j :: 1 <= j < |data| ==> data[j] == data[1..][j - 1];
      if r.None? then None else Some(r.value + 1)
  }

  /** The choice among the first `n` rectangles: the first of least corner distance (index 0 when all are far). */
  function Best(data: seq<Rect>, p: Vec2, n: nat): (b: (nat, real))
    requires n <= |data|
    ensures b.0 < n || b.0 == 0
  {
    if n == 0 then (0, Far2)
    else
      var b := Best(data, p, n - 1);
      var d := CornerDist(data[n - 1], p);
      if d < b.1 then (n - 1, d) else b
  }

  /**
   * The chosen rectangle has the least corner distance among the first
   * `n`, and every earlier rectangle is strictly farther; when none is
   * nearer than the starting distance, it is the first rectangle.
   */
  lemma {:induction false} BestIsNearest(data: seq<Rect>, p: Vec2, n: nat)
    requires 0 < n <= |data|
    ensures var b := Best(data, p, n);
      && b.0 < n
      && (forall i :: 0 <= i < n ==> b.1 <= CornerDist(data[i], p))
      && (forall j :: 0 <= j < b.0 ==> CornerDist(data[j], p) > b.1)
      && (b.1 == CornerDist(data[b.0], p) || (b.0 == 0 && b.1 == Far2))
  {
    if n > 1 {
      BestIsNearest(data, p, n - 1);
    }
  }

  /**
   * Hotspot.nearest: None for a hotspot without rectangles (the
   * IndexError of data[0]); the first rectangle strictly containing the
   * reduced point; else the first of least corner distance.
   */
  method Nearest(data: seq<Rect>, u: real, v: real) returns (r: Option<Rect>)
    ensures r.None? <==> data == []
    ensures r.Some? ==>
              var p := Wrap(u, v);
              match FirstInside(data, p)
              case Some(i) => r.value == data[i]
              case None => r.value == data[Best(data, p, |data|).0]
  {
    if data == [] {
      return None;
    }
    var p := Wrap(u, v);
    var nearest := 0;
    var nearestDist := Far2;
    for i := 0 to |data|
      invariant (nearest, nearestDist) == Best(data, p, i)
      invariant forall j :: 0 <= j < i ==> !Inside(data[j], p)
    {
      if Inside(data[i], p) {
        return Some(data[i]);
      }
      var d := NearestCorner(data[i], p);
      if d < nearestDist {
        nearest, nearestDist := i, d;
      }
    }
    return Some(data[nearest]);
  }

  /** The inner loop of `nearest` over the four corners. */
  method NearestCorner(r: Rect, p: Vec2) returns (d: real)
    ensures d == CornerDist(r, p)
  {
    var cs := Corners(r);
    ghost var ds := seq(4, k requires 0 <= k < 4 => Dist2(cs[k], p));
    d := Far2;
    for k := 0 to 4
      invariant d == Least(ds[..k], Far2)
    {
      assert ds[..k + 1][..k] == ds[..k];
      var dist := Dist2(cs[k], p);
      if dist < d {
        d := dist;
      }
    }
    assert ds[..4] == ds;
  }
}
