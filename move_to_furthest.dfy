/**
 * "UV Move To Furthest": for one group of loops, the extreme u and v of the
 * group are computed first, then one coordinate of every loop of the group is
 * overwritten with an extreme (or the midpoint of the two extremes), according
 * to the direction chosen. UVs live in an array indexed by loop.
 */
module MoveToFurthest {
  import opened Vec

  /** The accumulators start at these values, as in the source. */
  const MinStart: real := 99999999.9
  const MaxStart: real := -99999999.9

  /** The operator's direction property; `Unrecognised` stands for any other value, which writes nothing. */
  datatype Direction = Up | Down | Left | Right | Vertical | Horizontal | Unrecognised

  datatype Extremes = Extremes(minU: real, maxU: real, minV: real, maxV: real)

  /** One step of the accumulation loop: strict comparisons against the running extremes. */
  function Accumulate(e: Extremes, p: Vec2): Extremes
  {
    Extremes(if p.x < e.minU then p.x else e.minU,
             if p.x > e.maxU then p.x else e.maxU,
             if p.y < e.minV then p.y else e.minV,
             if p.y > e.maxV then p.y else e.maxV)
  }

  /** The extremes of a sequence of UVs, folded from the left from the starting values. */
  function ExtremesOf(s: seq<Vec2>): (e: Extremes)
    decreases |s|, 1
  {
    if s == [] then Extremes(MinStart, MaxStart, MinStart, MaxStart)
    else ExtremesOfMore(s)
  }

  /** ExtremesOf of a non-empty sequence: one accumulation step after its prefix. */
  function ExtremesOfMore(s: seq<Vec2>): (e: Extremes)
    requires s != []
    decreases |s|, 0
  {
    Accumulate(ExtremesOf(s[..|s| - 1]), s[|s| - 1])
  }

  /** The extremes bound every UV and never pass the starting values. */
  lemma {:induction false} ExtremesBound(s: seq<Vec2>)
    ensures var e := ExtremesOf(s);
            (forall i :: 0 <= i < |s| ==> e.minU <= s[i].x <= e.maxU && e.minV <= s[i].y <= e.maxV) &&
            e.minU <= MinStart && e.minV <= MinStart && e.maxU >= MaxStart && e.maxV >= MaxStart
    decreases |s|
  {
    if s != [] {
      var init := s[..|s| - 1];
      ExtremesBound(init);
      assert ExtremesOf(s) == ExtremesOfMore(s) == Accumulate(ExtremesOf(init), s[|s| - 1]);
      assert forall i :: 0 <= i < |s| - 1 ==> init[i] == s[i];
    }
  }

  /** Each extreme is either its starting value or a coordinate of some UV. */
  lemma {:induction false} ExtremesAttained(s: seq<Vec2>)
    ensures var e := ExtremesOf(s);
            (e.minU == MinStart || exists i :: 0 <= i < |s| && s[i].x == e.minU) &&
            (e.maxU == MaxStart || exists i :: 0 <= i < |s| && s[i].x == e.maxU) &&
            (e.minV == MinStart || exists i :: 0 <= i < |s| && s[i].y == e.minV) &&
            (e.maxV == MaxStart || exists i :: 0 <= i < |s| && s[i].y == e.maxV)
    decreases |s|
  {
    if s != [] {
      var init := s[..|s| - 1];
      ExtremesAttained(init);
      assert ExtremesOf(s) == ExtremesOfMore(s) == Accumulate(ExtremesOf(init), s[|s| - 1]);
      assert forall i :: 0 <= i < |s| - 1 ==> init[i] == s[i];
    }
  }

  /** The UVs of the loops of group `g`, in group order. */
  function GroupUVs(uvs: seq<Vec2>, g: seq<nat>): (r: seq<Vec2>)
    requires forall i :: 0 <= i < |g| ==> g[i] < |uvs|
    ensures |r| == |g| && forall i :: 0 <= i < |g| ==> r[i] == uvs[g[i]]
  {
    seq(|g|, i requires 0 <= i < |g| => uvs[g[i]])
  }

  /** The new UV of one loop of the group, for a direction and the group's extremes. */
  function Aligned(p: Vec2, e: Extremes, dir: Direction): Vec2
  {
    match dir
    case Up => Vec2(p.x, e.maxV)
    case Down => Vec2(p.x, e.minV)
    case Left => Vec2(e.minU, p.y)
    case Right => Vec2(e.maxU, p.y)
    case Vertical => Vec2(p.x, (e.minV + e.maxV) * 0.5)
    case Horizontal => Vec2((e.minU + e.maxU) * 0.5, p.y)
    case Unrecognised => p
  }

  /** All UVs after aligning group `g`: extremes come from the UVs before any write. */
  function AlignAll(uvs: seq<Vec2>, g: seq<nat>, dir: Direction): (r: seq<Vec2>)
    requires forall i :: 0 <= i < |g| ==> g[i] < |uvs|
    ensures |r| == |uvs|
  {
    Written(uvs, g, ExtremesOf(GroupUVs(uvs, g)), dir)
  }

  /** The first loop of the operator: the extremes of the group's UVs. Nothing is written. */
  method GroupExtremes(uvs: array<Vec2>, g: seq<nat>) returns (e: Extremes)
    requires forall i :: 0 <= i < |g| ==> g[i] < uvs.Length
    ensures e == ExtremesOf(GroupUVs(uvs[..], g))
    ensures forall i :: 0 <= i < |g| ==>
      e.minU <= uvs[g[i]].x <= e.maxU && e.minV <= uvs[g[i]].y <= e.maxV
  {
    ghost var s := GroupUVs(uvs[..], g);
    var minU, minV, maxU, maxV := MinStart, MinStart, MaxStart, MaxStart;
    var i := 0;
    while i < |g|
      invariant 0 <= i <= |g|
      invariant Extremes(minU, maxU, minV, maxV) == ExtremesOf(s[..i])
    {
      var p := uvs[g[i]];
      if p.x < minU { minU := p.x; }
      if p.x > maxU { maxU := p.x; }
      if p.y < minV { minV := p.y; }
      if p.y > maxV { maxV := p.y; }
      assert ExtremesOf(s[..i + 1]) == Accumulate(ExtremesOf(s[..i]), p) by {
        assert s[..i + 1][..i] == s[..i];
        assert ExtremesOf(s[..i + 1]) == ExtremesOfMore(s[..i + 1]);
      }
      i := i + 1;
    }
    assert s[..|g|] == s;
    e := Extremes(minU, maxU, minV, maxV);
    ExtremesBound(s);
  }

  /** Aligning a point twice against the same extremes changes nothing more. */
  lemma AlignedTwice(p: Vec2, e: Extremes, dir: Direction)
    ensures Aligned(Aligned(p, e, dir), e, dir) == Aligned(p, e, dir)
  {
  }

  /** The UVs once the loops of `done` have been written with extremes `e`. */
  function Written(before: seq<Vec2>, done: seq<nat>, e: Extremes, dir: Direction): (r: seq<Vec2>)
    requires forall i :: 0 <= i < |done| ==> done[i] < |before|
    ensures |r| == |before|
  {
    seq(|before|, l requires 0 <= l < |before| => if l in done then Aligned(before[l], e, dir) else before[l])
  }

  /** Writing one more loop extends the written prefix by that loop. */
  lemma WrittenStep(before: seq<Vec2>, done: seq<nat>, l: nat, e: Extremes, dir: Direction)
    requires forall i :: 0 <= i < |done| ==> done[i] < |before|
    requires l < |before|
    ensures Written(before, done + [l], e, dir) ==
      Written(before, done, e, dir)[l := Aligned(Written(before, done, e, dir)[l], e, dir)]
  {
    AlignedTwice(before[l], e, dir);
  }

  /** The whole operator on one group, writing the UV array in place. */
  method AlignGroup(uvs: array<Vec2>, g: seq<nat>, dir: Direction)
    requires forall i :: 0 <= i < |g| ==> g[i] < uvs.Length
    modifies uvs
    ensures uvs[..] == AlignAll(old(uvs[..]), g, dir)
  {
    var e := GroupExtremes(uvs, g);
    ghost var before := uvs[..];
    var i := 0;
    while i < |g|
      invariant 0 <= i <= |g|
      invariant uvs[..] == Written(before, g[..i], e, dir)
    {
      var l := g[i];
      // the direction test of the source is the case analysis inside Aligned;
      // an unrecognised direction writes back the UV unchanged
      WrittenStep(before, g[..i], l, e, dir);
      uvs[l] := Aligned(uvs[l], e, dir);
      assert g[..i + 1] == g[..i] + [l];
      i := i + 1;
    }
    assert g[..|g|] == g;
  }

  /** 'up' and 'down' set v of every group loop to the group's extreme v and keep u. */
  lemma UpDownSetV(uvs: seq<Vec2>, g: seq<nat>, l: nat)
    requires forall i :: 0 <= i < |g| ==> g[i] < |uvs|
    requires l in g
    ensures var e := ExtremesOf(GroupUVs(uvs, g));
            AlignAll(uvs, g, Up)[l] == Vec2(uvs[l].x, e.maxV) &&
            AlignAll(uvs, g, Down)[l] == Vec2(uvs[l].x, e.minV) &&
            e.minV <= uvs[l].y <= e.maxV
  {
    var i :| 0 <= i < |g| && g[i] == l;
    assert GroupUVs(uvs, g)[i] == uvs[l];
    ExtremesBound(GroupUVs(uvs, g));
  }

  /** 'left' and 'right' set u of every group loop to the group's extreme u and keep v. */
  lemma LeftRightSetU(uvs: seq<Vec2>, g: seq<nat>, l: nat)
    requires forall i :: 0 <= i < |g| ==> g[i] < |uvs|
    requires l in g
    ensures var e := ExtremesOf(GroupUVs(uvs, g));
            AlignAll(uvs, g, Left)[l] == Vec2(e.minU, uvs[l].y) &&
            AlignAll(uvs, g, Right)[l] == Vec2(e.maxU, uvs[l].y) &&
            e.minU <= uvs[l].x <= e.maxU
  {
    var i :| 0 <= i < |g| && g[i] == l;
    assert GroupUVs(uvs, g)[i] == uvs[l];
    ExtremesBound(GroupUVs(uvs, g));
  }

  /** 'vertical' and 'horizontal' move to the midpoint of the extremes along one axis. */
  lemma MidpointDirections(uvs: seq<Vec2>, g: seq<nat>, l: nat)
    requires forall i :: 0 <= i < |g| ==> g[i] < |uvs|
    requires l in g
    ensures var e := ExtremesOf(GroupUVs(uvs, g));
            AlignAll(uvs, g, Vertical)[l] == Vec2(uvs[l].x, (e.minV + e.maxV) * 0.5) &&
            AlignAll(uvs, g, Horizontal)[l] == Vec2((e.minU + e.maxU) * 0.5, uvs[l].y)
  {
  }

  /** Loops outside the group are never written, and an unknown direction writes nothing. */
  lemma OutsideAndUnknownUnchanged(uvs: seq<Vec2>, g: seq<nat>, dir: Direction)
    requires forall i :: 0 <= i < |g| ==> g[i] < |uvs|
    ensures forall l :: 0 <= l < |uvs| && l !in g ==> AlignAll(uvs, g, dir)[l] == uvs[l]
    ensures dir == Unrecognised ==>
      AlignAll(uvs, g, dir) == uvs
  {
  }

  /** Every coordinate of the group lies strictly inside the starting values of the accumulators. */
  ghost predicate InRange(uvs: seq<Vec2>, g: seq<nat>)
    requires forall i :: 0 <= i < |g| ==> g[i] < |uvs|
  {
    forall i :: 0 <= i < |g| ==>
      MaxStart < uvs[g[i]].x < MinStart && MaxStart < uvs[g[i]].y < MinStart
  }

  /** A non-empty group inside the range has its extremes inside the range too. */
  lemma ExtremesInRange(s: seq<Vec2>)
    requires s != []
    requires forall i :: 0 <= i < |s| ==> MaxStart < s[i].x < MinStart && MaxStart < s[i].y < MinStart
    ensures var e := ExtremesOf(s);
            MaxStart < e.minU <= e.maxU < MinStart && MaxStart < e.minV <= e.maxV < MinStart
  {
    var e := ExtremesOf(s);
    ExtremesBound(s);
    ExtremesAttained(s);
    assert e.minU <= s[0].x <= e.maxU && e.minV <= s[0].y <= e.maxV;
  }

  /** When every v of a non-empty sequence is the same in-range value, both v extremes are that value. */
  lemma {:induction false} ConstantV(s: seq<Vec2>, t: real)
    requires s != [] && MaxStart < t < MinStart
    requires forall i :: 0 <= i < |s| ==> s[i].y == t
    ensures ExtremesOf(s).minV == t == ExtremesOf(s).maxV
  {
    assert ExtremesOf(s) == ExtremesOfMore(s);
    if |s| > 1 {
      ConstantV(s[..|s| - 1], t);
    } else {
      assert s[..|s| - 1] == [];
      assert ExtremesOf(s[..|s| - 1]) == Extremes(MinStart, MaxStart, MinStart, MaxStart);
    }
  }

  /** When every u of a non-empty sequence is the same in-range value, both u extremes are that value. */
  lemma {:induction false} ConstantU(s: seq<Vec2>, t: real)
    requires s != [] && MaxStart < t < MinStart
    requires forall i :: 0 <= i < |s| ==> s[i].x == t
    ensures ExtremesOf(s).minU == t == ExtremesOf(s).maxU
  {
    assert ExtremesOf(s) == ExtremesOfMore(s);
    if |s| > 1 {
      ConstantU(s[..|s| - 1], t);
    } else {
      assert s[..|s| - 1] == [];
      assert ExtremesOf(s[..|s| - 1]) == Extremes(MinStart, MaxStart, MinStart, MaxStart);
    }
  }

  /** After an alignment the value written along the aligned axis is unchanged when recomputed. */
  lemma ExtremesAfterAlign(uvs: seq<Vec2>, g: seq<nat>, dir: Direction)
    requires forall i :: 0 <= i < |g| ==> g[i] < |uvs|
    requires InRange(uvs, g)
    requires g != []
    ensures var e := ExtremesOf(GroupUVs(uvs, g));
            var e' := ExtremesOf(GroupUVs(AlignAll(uvs, g, dir), g));
            (dir.Up? || dir.Down? || dir.Vertical? ==> e'.minV == Aligned(Vec2(0.0, 0.0), e, dir).y == e'.maxV) &&
            (dir.Left? || dir.Right? || dir.Horizontal? ==> e'.minU == Aligned(Vec2(0.0, 0.0), e, dir).x == e'.maxU)
  {
    var s := GroupUVs(uvs, g);
    var e := ExtremesOf(s);
    ExtremesInRange(s);
    var s' := GroupUVs(AlignAll(uvs, g, dir), g);
    forall i | 0 <= i < |g| ensures s'[i] == Aligned(uvs[g[i]], e, dir) {
      assert g[i] in g;
    }
    if dir.Up? || dir.Down? || dir.Vertical? {
      ConstantV(s', Aligned(Vec2(0.0, 0.0), e, dir).y);
    }
    if dir.Left? || dir.Right? || dir.Horizontal? {
      ConstantU(s', Aligned(Vec2(0.0, 0.0), e, dir).x);
    }
  }

  /**
   * Applying the same direction twice gives the result of applying it once,
   * provided the coordinates lie inside the accumulators' starting values.
   */
  lemma {:induction false} AlignIdempotent(uvs: seq<Vec2>, g: seq<nat>, dir: Direction)
    requires forall i :: 0 <= i < |g| ==> g[i] < |uvs|
    requires InRange(uvs, g)
    ensures AlignAll(AlignAll(uvs, g, dir), g, dir) == AlignAll(uvs, g, dir)
  {
    var e := ExtremesOf(GroupUVs(uvs, g));
    var a := AlignAll(uvs, g, dir);
    var e' := ExtremesOf(GroupUVs(a, g));
    if g != [] {
      ExtremesAfterAlign(uvs, g, dir);
    }
    var b := AlignAll(a, g, dir);
    forall l | 0 <= l < |uvs| ensures b[l] == a[l] {
      if l in g {
        assert a[l] == Aligned(uvs[l], e, dir);
        assert b[l] == Aligned(a[l], e', dir);
      }
    }
  }

  /**
   * Outside the starting values idempotence fails: a single loop at u = 2e8
   * never lowers minU below its starting value, so 'horizontal' moves it to
   * the midpoint of 99999999.9 and 2e8, and a second pass moves it again.
   */
  lemma AlignTwiceOutOfRange()
    ensures var uvs := [Vec2(200000000.0, 0.0)];
            var once := AlignAll(uvs, [0], Horizontal);
            once == [Vec2(149999999.95, 0.0)] &&
            AlignAll(once, [0], Horizontal) == [Vec2(124999999.925, 0.0)]
  {
    var uvs := [Vec2(200000000.0, 0.0)];
    assert GroupUVs(uvs, [0]) == uvs;
    assert ExtremesOf(uvs) == Accumulate(ExtremesOf([]), uvs[0]) by {
      assert uvs[..0] == [];
    }
    var once := AlignAll(uvs, [0], Horizontal);
    assert once[0] == Vec2(149999999.95, 0.0);
    assert once == [Vec2(149999999.95, 0.0)];
    assert GroupUVs(once, [0]) == once;
    assert ExtremesOf(once) == Accumulate(ExtremesOf([]), once[0]) by {
      assert once[..0] == [];
    }
    var twice := AlignAll(once, [0], Horizontal);
    assert twice[0] == Vec2(124999999.925, 0.0);
  }
}
