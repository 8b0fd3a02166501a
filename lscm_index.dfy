/**
 * The index bookkeeping of the LSCM solve, apart from its numerics: the
 * triangle fan of every relax polygon, the choice of pinned relax vertices,
 * the compaction of the free vertex indices into the columns of the free
 * block matrix, and the scatter of the solved coordinates back to the UVs.
 * Relax vertices are named by their registry position (their `_idx`).
 */
module LscmIndex {
  import opened Wrappers
  import opened Vec
  import opened HalfEdge
  import opened SeqFacts
  import opened Relax

  /**
   * The fan of one relax polygon: triangles (rp[0], rp[t+1], rp[t+2]) for
   * t = 0 .. n-3, flattened three indices per triangle; nothing for fewer
   * than three corners.
   */
  function Fan(rp: seq<nat>): (r: seq<nat>)
    ensures |r| == if |rp| < 3 then 0 else 3 * (|rp| - 2)
  {
    if |rp| < 3 then [] else FanPrefix(rp, |rp| - 2)
  }

  /** Triangle `t` of the fan is (rp[0], rp[t+1], rp[t+2]). */
  lemma FanIndex(rp: seq<nat>)
    ensures forall t :: 0 <= t < |Fan(rp)| / 3 ==>
              Fan(rp)[3 * t] == rp[0] && Fan(rp)[3 * t + 1] == rp[t + 1] && Fan(rp)[3 * t + 2] == rp[t + 2]
  {
    if |rp| >= 3 {
      FanPrefixIndex(rp, |rp| - 2);
    }
  }

  /** The first `n` fan triangles of `rp`. */
  function FanPrefix(rp: seq<nat>, n: nat): (r: seq<nat>)
    requires n + 2 <= |rp|
    ensures |r| == 3 * n
  {
    if n == 0 then [] else FanPrefix(rp, n - 1) + [rp[0], rp[n], rp[n + 1]]
  }

  /** Triangle `t` of the first `n` is (rp[0], rp[t+1], rp[t+2]). */
  lemma {:induction false} FanPrefixIndex(rp: seq<nat>, n: nat)
    requires n + 2 <= |rp|
    ensures forall t :: 0 <= t < n ==>
              FanPrefix(rp, n)[3 * t] == rp[0] && FanPrefix(rp, n)[3 * t + 1] == rp[t + 1] && FanPrefix(rp, n)[3 * t + 2] == rp[t + 2]
  {
    if n > 0 {
      FanPrefixIndex(rp, n - 1);
      var f := FanPrefix(rp, n - 1);
      assert FanPrefix(rp, n) == f + [rp[0], rp[n], rp[n + 1]];
      forall t | 0 <= t < n
        ensures FanPrefix(rp, n)[3 * t] == rp[0] && FanPrefix(rp, n)[3 * t + 1] == rp[t + 1] && FanPrefix(rp, n)[3 * t + 2] == rp[t + 2]
      {
        if t < n - 1 {
          assert FanPrefix(rp, n)[3 * t] == f[3 * t];
          assert FanPrefix(rp, n)[3 * t + 1] == f[3 * t + 1];
          assert FanPrefix(rp, n)[3 * t + 2] == f[3 * t + 2];
        }
      }
    }
  }

  /** The triangle list of a whole patch: the fans of its relax polygons, in order. */
  function Tris(polys: seq<seq<nat>>): seq<nat>
  {
    if polys == [] then [] else Tris(polys[..|polys| - 1]) + Fan(polys[|polys| - 1])
  }

  /** Number of fan triangles a patch yields. */
  function TriCount(polys: seq<seq<nat>>): nat
  {
    if polys == [] then 0
    else TriCount(polys[..|polys| - 1]) + (if |polys[|polys| - 1]| < 3 then 0 else |polys[|polys| - 1]| - 2)
  }

  /**
   * The triangle-list loop of lscm: for every relax polygon with at least
   * three corners, append one triangle per fan step.
   */
  method PatchTriangles(polys: seq<seq<nat>>) returns (tris: seq<nat>)
    ensures tris == Tris(polys)
  {
    tris := [];
    for k := 0 to |polys|
      invariant tris == Tris(polys[..k])
    {
      var rp := polys[k];
      assert Tris(polys[..k + 1]) == Tris(polys[..k]) + Fan(rp) by {
        assert polys[..k + 1][..k] == polys[..k];
      }
      if |rp| < 3 {
        continue;
      }
      tris := AppendFan(tris, rp);
    }
    assert polys[..|polys|] == polys;
  }

  /** The inner loop of the triangle list: one triangle per fan step of `rp`. */
  method AppendFan(tris: seq<nat>, rp: seq<nat>) returns (r: seq<nat>)
    requires |rp| >= 3
    ensures r == tris + Fan(rp)
  {
    r := tris;
    for i := 0 to |rp| - 2
      invariant r == tris + FanPrefix(rp, i)
    {
      r := r + [rp[0], rp[i + 1], rp[i + 2]];
    }
  }

  /** A patch yields three indices per fan triangle: n-2 triangles per polygon of n >= 3 corners. */
  lemma {:induction false} TrisLength(polys: seq<seq<nat>>)
    ensures |Tris(polys)| == 3 * TriCount(polys)
  {
    if polys != [] {
      TrisLength(polys[..|polys| - 1]);
    }
  }

  /** `x` is a corner of one of the relax polygons of `polys`. */
  ghost predicate IsCorner(polys: seq<seq<nat>>, x: nat)
  {
    exists k, j :: 0 <= k < |polys| && 0 <= j < |polys[k]| && polys[k][j] == x
  }

  /** Every index in the triangle list is a corner of one of the patch's relax polygons. */
  lemma {:induction false} TrisCorners(polys: seq<seq<nat>>)
    ensures forall i :: 0 <= i < |Tris(polys)| ==> IsCorner(polys, Tris(polys)[i])
  {
    if polys != [] {
      var init, last := polys[..|polys| - 1], polys[|polys| - 1];
      TrisCorners(init);
      assert Tris(polys) == Tris(init) + Fan(last);
      forall i | 0 <= i < |Tris(polys)| ensures IsCorner(polys, Tris(polys)[i]) {
        if i < |Tris(init)| {
          CornerOfInit(polys, init, Tris(init)[i]);
        } else {
          CornerOfLast(polys, i - |Tris(init)|);
        }
      }
    }
  }

  /** A corner of the polygons before the last is a corner of the whole patch. */
  lemma CornerOfInit(polys: seq<seq<nat>>, init: seq<seq<nat>>, x: nat)
    requires polys != [] && init == polys[..|polys| - 1] && IsCorner(init, x)
    ensures IsCorner(polys, x)
  {
    var k, j :| 0 <= k < |init| && 0 <= j < |init[k]| && init[k][j] == x;
    assert polys[k][j] == x;
  }

  /** Every entry of the last polygon's fan is one of its corners. */
  lemma CornerOfLast(polys: seq<seq<nat>>, i: nat)
    requires polys != [] && i < |Fan(polys[|polys| - 1])|
    ensures IsCorner(polys, Fan(polys[|polys| - 1])[i])
  {
    var k := |polys| - 1;
    var last := polys[k];
    var t := i / 3;
    assert 0 <= t < |Fan(last)| / 3;
    FanIndex(last);
    if i == 3 * t {
      assert polys[k][0] == Fan(last)[i];
    } else if i == 3 * t + 1 {
      assert polys[k][t + 1] == Fan(last)[i];
    } else {
      assert polys[k][t + 2] == Fan(last)[i];
    }
  }

  /** Every relax-polygon corner of a well-formed patch names a registry entry. */
  lemma PatchCornersInRegistry(m: Mesh, vtag: seq<bool>, patch: Patch)
    requires m.Valid() && |vtag| == m.Verts() && PatchOk(m, vtag, patch)
    ensures forall i :: 0 <= i < |Tris(patch.polys)| ==> Tris(patch.polys)[i] < |patch.verts|
  {
    TrisCorners(patch.polys);
    forall i | 0 <= i < |Tris(patch.polys)| ensures Tris(patch.polys)[i] < |patch.verts| {
      var k, j :| 0 <= k < |patch.polys| && 0 <= j < |patch.polys[k]| && patch.polys[k][j] == Tris(patch.polys)[i];
      assert RelaxCorners(m, patch.verts, patch.faces[k], patch.polys[k]);
    }
  }

  /** Relax vertex `rv` owns loop `l`: the loop sits at its vertex, in one of its polygons. */
  predicate Claims(m: Mesh, rv: RelaxVert, l: nat)
    requires m.Valid() && rv.vert < m.Verts() && l < m.Loops()
  {
    l in m.vertLoops[rv.vert] && m.loopFace[l] in rv.polygons
  }

  /** Some loop of `rv`'s vertex that lies in one of `rv`'s polygons carries a pin. */
  predicate HasPin(m: Mesh, pin: seq<bool>, rv: RelaxVert)
    requires m.Valid() && |pin| == m.Loops() && rv.vert < m.Verts()
  {
    exists i :: 0 <= i < |m.vertLoops[rv.vert]| && m.loopFace[m.vertLoops[rv.vert][i]] in rv.polygons
                && pin[m.vertLoops[rv.vert][i]]
  }

  /** The scan of `rv._v.link_loops` for a pinned loop in one of `rv`'s polygons. */
  method FindPin(m: Mesh, pin: seq<bool>, rv: RelaxVert) returns (pinned: bool)
    requires m.Valid() && |pin| == m.Loops() && rv.vert < m.Verts()
    ensures pinned <==> HasPin(m, pin, rv)
  {
    var ls := m.vertLoops[rv.vert];
    for i := 0 to |ls|
      invariant forall j :: 0 <= j < i ==> !(m.loopFace[ls[j]] in rv.polygons && pin[ls[j]])
    {
      var l := ls[i];
      if m.loopFace[l] !in rv.polygons {
        continue;
      }
      if pin[l] {
        return true;
      }
    }
    return false;
  }

  /** The registry positions holding a pinned loop, in registry order. */
  function PinnedOf(m: Mesh, pin: seq<bool>, all: seq<RelaxVert>): (r: seq<nat>)
    requires m.Valid() && |pin| == m.Loops()
    requires forall k :: 0 <= k < |all| ==> all[k].vert < m.Verts()
  {
    if all == [] then []
    else PinnedOf(m, pin, all[..|all| - 1]) + (if HasPin(m, pin, all[|all| - 1]) then [all[|all| - 1].idx] else [])
  }

  /**
   * Over a well-formed registry, the pinned positions are exactly the
   * entries with a pin, strictly increasing, hence with no repetition.
   */
  lemma {:induction false} PinnedOfExact(m: Mesh, pin: seq<bool>, all: seq<RelaxVert>)
    requires m.Valid() && |pin| == m.Loops()
    requires forall k :: 0 <= k < |all| ==> all[k].vert < m.Verts() && all[k].idx == k
    ensures forall k: nat :: k in PinnedOf(m, pin, all) <==> k < |all| && HasPin(m, pin, all[k])
    ensures forall i, j :: 0 <= i < j < |PinnedOf(m, pin, all)| ==> PinnedOf(m, pin, all)[i] < PinnedOf(m, pin, all)[j]
    ensures Distinct(PinnedOf(m, pin, all))
  {
    if all != [] {
      var init := all[..|all| - 1];
      PinnedOfExact(m, pin, init);
      var r := PinnedOf(m, pin, all);
      assert forall k: nat :: k in PinnedOf(m, pin, init) ==> k < |init| && all[k] == init[k];
      forall i, j | 0 <= i < j < |r| ensures r[i] < r[j] {
        if j < |PinnedOf(m, pin, init)| {
          assert r[i] == PinnedOf(m, pin, init)[i] && r[j] == PinnedOf(m, pin, init)[j];
        } else {
          assert r[i] == PinnedOf(m, pin, init)[i] && r[i] in PinnedOf(m, pin, init);
        }
      }
    }
  }

  /**
   * The pins of a patch: the registry positions whose vertex carries a
   * pinned loop in one of its polygons, or, when fewer than two do, the
   * first and the last entry. An empty registry is the IndexError of
   * `all_verts[0]`.
   */
  method ChoosePins(m: Mesh, pin: seq<bool>, all: seq<RelaxVert>) returns (pins: Option<seq<nat>>)
    requires m.Valid() && |pin| == m.Loops()
    requires forall k :: 0 <= k < |all| ==> all[k].vert < m.Verts() && all[k].idx == k
    ensures pins.None? <==> |PinnedOf(m, pin, all)| < 2 && all == []
    ensures pins.Some? && |PinnedOf(m, pin, all)| >= 2 ==> pins.value == PinnedOf(m, pin, all)
    ensures pins.Some? && |PinnedOf(m, pin, all)| < 2 ==> pins.value == [0, |all| - 1]
  {
    var found: seq<nat> := [];
    for i := 0 to |all|
      invariant found == PinnedOf(m, pin, all[..i])
    {
      assert all[..i + 1][..i] == all[..i];
      var p := FindPin(m, pin, all[i]);
      if p {
        found := found + [all[i].idx];
      }
    }
    assert all[..|all|] == all;
    if |found| < 2 {
      if all == [] {
        return None;
      }
      found := [all[0].idx, all[|all| - 1].idx];
    }
    return Some(found);
  }

  /** The pins of a registry of at least two entries are distinct positions in it. */
  lemma PinsDistinct(m: Mesh, pin: seq<bool>, all: seq<RelaxVert>, pins: seq<nat>)
    requires m.Valid() && |pin| == m.Loops() && |all| >= 2
    requires forall k :: 0 <= k < |all| ==> all[k].vert < m.Verts() && all[k].idx == k
    requires |PinnedOf(m, pin, all)| >= 2 ==> pins == PinnedOf(m, pin, all)
    requires |PinnedOf(m, pin, all)| < 2 ==> pins == [0, |all| - 1]
    ensures |pins| >= 2 && Distinct(pins) && forall i :: 0 <= i < |pins| ==> pins[i] < |all|
  {
    PinnedOfExact(m, pin, all);
    if |PinnedOf(m, pin, all)| >= 2 {
      assert forall i :: 0 <= i < |pins| ==> pins[i] in PinnedOf(m, pin, all);
    }
  }

  /**
   * A registry of one entry never has two pinned positions, so its pins are
   * that entry twice: the two pins coincide.
   */
  lemma SingleEntryPins(m: Mesh, pin: seq<bool>, all: seq<RelaxVert>, pins: seq<nat>)
    requires m.Valid() && |pin| == m.Loops() && |all| == 1
    requires forall k :: 0 <= k < |all| ==> all[k].vert < m.Verts() && all[k].idx == k
    requires |PinnedOf(m, pin, all)| >= 2 ==> pins == PinnedOf(m, pin, all)
    requires |PinnedOf(m, pin, all)| < 2 ==> pins == [0, |all| - 1]
    ensures pins == [0, 0] && !Distinct(pins)
  {
    assert all[..0] == [];
    assert pins[0] == pins[1];
  }

  /** #{p in pins : p < v}, counted along the list. */
  function Below(pins: seq<nat>, v: nat): nat
  {
    if pins == [] then 0
    else Below(pins[..|pins| - 1], v) + (if pins[|pins| - 1] < v then 1 else 0)
  }

  /** The pin count of the compaction loop: how many pins lie below `v`. */
  method CountPinsBelow(pins: seq<nat>, v: nat) returns (count: nat)
    ensures count == Below(pins, v)
    ensures count <= |pins|
  {
    count := 0;
    for i := 0 to |pins|
      invariant count == Below(pins[..i], v) && count <= i
    {
      assert pins[..i + 1][..i] == pins[..i];
      if v > pins[i] {
        count := count + 1;
      }
    }
    assert pins[..|pins|] == pins;
  }

  /** The free-matrix column of free vertex `v`. */
  function Column(pins: seq<nat>, v: nat): int
  {
    v - Below(pins, v)
  }

  /** The unpinned positions below `n`, in increasing order. */
  function Free(pins: seq<nat>, n: nat): (r: seq<nat>)
    ensures forall v: nat :: v in r <==> v < n && v !in pins
  {
    if n == 0 then []
    else Free(pins, n - 1) + (if n - 1 in pins then [] else [n - 1])
  }

  /** `Free` lists the unpinned positions in increasing order. */
  lemma {:induction false} FreeIncreasing(pins: seq<nat>, n: nat)
    ensures forall i, j :: 0 <= i < j < |Free(pins, n)| ==> Free(pins, n)[i] < Free(pins, n)[j]
  {
    if n > 0 {
      var f := Free(pins, n - 1);
      FreeIncreasing(pins, n - 1);
      assert forall i :: 0 <= i < |f| ==> f[i] in f;
    }
  }

  /** With distinct pins, raising the bound by one counts `n` once if it is a pin. */
  lemma {:induction false} BelowStep(pins: seq<nat>, n: nat)
    requires Distinct(pins)
    ensures Below(pins, n + 1) == Below(pins, n) + (if n in pins then 1 else 0)
  {
    if pins != [] {
      var init := pins[..|pins| - 1];
      assert Distinct(init) by {
        forall i, j | 0 <= i < j < |init| ensures init[i] != init[j] {
          assert init[i] == pins[i] && init[j] == pins[j];
        }
      }
      BelowStep(init, n);
      assert pins == init + [pins[|pins| - 1]];
      if pins[|pins| - 1] == n {
        assert n !in init by {
          forall i | 0 <= i < |init| ensures init[i] != n {
            assert init[i] == pins[i];
          }
        }
      }
    }
  }

  /** Nothing is below zero. */
  lemma {:induction false} BelowZero(pins: seq<nat>)
    ensures Below(pins, 0) == 0
  {
    if pins != [] {
      BelowZero(pins[..|pins| - 1]);
    }
  }

  /** Every pin is below `n`: all of them count. */
  lemma {:induction false} BelowAll(pins: seq<nat>, n: nat)
    requires forall i :: 0 <= i < |pins| ==> pins[i] < n
    ensures Below(pins, n) == |pins|
  {
    if pins != [] {
      BelowAll(pins[..|pins| - 1], n);
    }
  }

  /** The column of the k-th free position is k, and there are n - Below(pins, n) of them. */
  lemma {:induction false} FreeColumns(pins: seq<nat>, n: nat)
    requires Distinct(pins)
    ensures |Free(pins, n)| == n - Below(pins, n)
    ensures forall k :: 0 <= k < |Free(pins, n)| ==> Column(pins, Free(pins, n)[k]) == k
  {
    if n == 0 {
      BelowZero(pins);
    } else {
      FreeColumns(pins, n - 1);
      BelowStep(pins, n - 1);
      var f := Free(pins, n - 1);
      assert |f| == n - 1 - Below(pins, n - 1);
      if n - 1 in pins {
        assert Free(pins, n) == f;
        assert Below(pins, n) == Below(pins, n - 1) + 1;
      } else {
        assert Below(pins, n) == Below(pins, n - 1);
        assert Free(pins, n) == f + [n - 1];
        forall k | 0 <= k < |Free(pins, n)| ensures Column(pins, Free(pins, n)[k]) == k {
          if k < |f| {
            assert Free(pins, n)[k] == f[k];
          }
        }
      }
    }
  }

  /**
   * The compaction `vidx - #{pins < vidx}` is a bijection from the unpinned
   * positions below n onto the columns 0 .. n - |pins| - 1, when the pins are
   * distinct positions below n: `Free` enumerates the unpinned positions
   * and is its inverse.
   */
  lemma ColumnBijection(pins: seq<nat>, n: nat)
    requires Distinct(pins) && forall i :: 0 <= i < |pins| ==> pins[i] < n
    ensures forall v: nat :: v < n && v !in pins ==> 0 <= Column(pins, v) < n - |pins|
    ensures forall v: nat, w: nat :: v < n && v !in pins && w < n && w !in pins && Column(pins, v) == Column(pins, w) ==> v == w
    ensures |Free(pins, n)| == n - |pins|
    ensures forall k :: 0 <= k < n - |pins| ==> Free(pins, n)[k] < n && Free(pins, n)[k] !in pins && Column(pins, Free(pins, n)[k]) == k
  {
    FreeColumns(pins, n);
    BelowAll(pins, n);
    var f := Free(pins, n);
    forall v: nat | v < n && v !in pins ensures 0 <= Column(pins, v) < n - |pins| {
      var i :| 0 <= i < |f| && f[i] == v;
    }
    forall v: nat, w: nat | v < n && v !in pins && w < n && w !in pins && Column(pins, v) == Column(pins, w)
      ensures v == w
    {
      var i :| 0 <= i < |f| && f[i] == v;
      var j :| 0 <= j < |f| && f[j] == w;
    }
    forall k | 0 <= k < n - |pins| ensures f[k] < n && f[k] !in pins {
      assert f[k] in f;
    }
  }

  /** An unpinned position's column is one of the columns of the solve. */
  lemma ColumnInRange(pins: seq<nat>, n: nat, v: nat)
    requires Distinct(pins) && (forall i :: 0 <= i < |pins| ==> pins[i] < n)
    requires v < n && v !in pins
    ensures 0 <= Column(pins, v) < n - |pins|
  {
    ColumnBijection(pins, n);
  }

  /**
   * The last unpinned registry position below `hi` that claims loop `l`:
   * the one whose write the loop keeps.
   */
  ghost predicate LastClaimant(m: Mesh, all: seq<RelaxVert>, pins: seq<nat>, l: nat, j: nat, hi: nat)
    requires m.Valid() && l < m.Loops() && hi <= |all|
    requires forall k :: 0 <= k < |all| ==> all[k].vert < m.Verts()
  {
    j < hi && j !in pins && Claims(m, all[j], l)
    && forall j' :: j < j' < hi ==> !(j' !in pins && Claims(m, all[j'], l))
  }

  /** No unpinned registry position below `hi` claims loop `l`. */
  ghost predicate Unclaimed(m: Mesh, all: seq<RelaxVert>, pins: seq<nat>, l: nat, hi: nat)
    requires m.Valid() && l < m.Loops() && hi <= |all|
    requires forall k :: 0 <= k < |all| ==> all[k].vert < m.Verts()
  {
    forall j :: 0 <= j < hi ==> !(j !in pins && Claims(m, all[j], l))
  }

  /**
   * `now` is `orig` after the write-back of the registry positions below
   * `hi`: v coordinates unchanged, loops nobody unpinned claims untouched,
   * and every claimed loop holding the column of its last claimant.
   */
  ghost predicate Scattered(m: Mesh, all: seq<RelaxVert>, pins: seq<nat>, x: seq<real>,
                            orig: seq<Vec2>, now: seq<Vec2>, hi: nat)
    requires m.Valid() && |orig| == m.Loops() && |now| == m.Loops() && hi <= |all|
    requires forall k :: 0 <= k < |all| ==> all[k].vert < m.Verts()
  {
    && (forall l :: 0 <= l < |now| ==> now[l].y == orig[l].y)
    && (forall l :: 0 <= l < |now| && Unclaimed(m, all, pins, l, hi) ==> now[l] == orig[l])
    && (forall l, j :: 0 <= l < |now| && 0 <= j < |all| && LastClaimant(m, all, pins, l, j, hi) ==>
          0 <= Column(pins, j) < |x| && now[l].x == x[Column(pins, j)])
  }

  /** A pinned position writes nothing. */
  lemma ScatterSkip(m: Mesh, all: seq<RelaxVert>, pins: seq<nat>, x: seq<real>,
                    orig: seq<Vec2>, now: seq<Vec2>, hi: nat)
    requires m.Valid() && |orig| == m.Loops() && |now| == m.Loops() && hi < |all|
    requires forall k :: 0 <= k < |all| ==> all[k].vert < m.Verts()
    requires hi in pins && Scattered(m, all, pins, x, orig, now, hi)
    ensures Scattered(m, all, pins, x, orig, now, hi + 1)
  {
    var hi' := hi + 1;
    forall l | 0 <= l < |now| && Unclaimed(m, all, pins, l, hi') ensures now[l] == orig[l] {
      assert Unclaimed(m, all, pins, l, hi);
    }
    forall l, j | 0 <= l < |now| && 0 <= j < |all| && LastClaimant(m, all, pins, l, j, hi')
      ensures 0 <= Column(pins, j) < |x| && now[l].x == x[Column(pins, j)]
    {
      StillLastClaimant(m, all, pins, l, j, hi);
    }
  }

  /** Below a pinned position `hi`, the last claimant of a loop is the same with or without `hi`. */
  lemma StillLastClaimant(m: Mesh, all: seq<RelaxVert>, pins: seq<nat>, l: nat, j: nat, hi: nat)
    requires m.Valid() && l < m.Loops() && hi < |all|
    requires forall k :: 0 <= k < |all| ==> all[k].vert < m.Verts()
    requires hi in pins && LastClaimant(m, all, pins, l, j, hi + 1)
    ensures LastClaimant(m, all, pins, l, j, hi)
  {
  }


  /** An unpinned position writes its column into the u of every loop it claims. */
  lemma ScatterWrite(m: Mesh, all: seq<RelaxVert>, pins: seq<nat>, x: seq<real>,
                     orig: seq<Vec2>, now: seq<Vec2>, now': seq<Vec2>, hi: nat)
    requires m.Valid() && |orig| == m.Loops() && |now| == m.Loops() && |now'| == m.Loops() && hi < |all|
    requires forall k :: 0 <= k < |all| ==> all[k].vert < m.Verts()
    requires hi !in pins && 0 <= Column(pins, hi) < |x| && Scattered(m, all, pins, x, orig, now, hi)
    requires forall l :: 0 <= l < |now| ==>
               now'[l] == if Claims(m, all[hi], l) then Vec2(x[Column(pins, hi)], now[l].y) else now[l]
    ensures Scattered(m, all, pins, x, orig, now', hi + 1)
  {
    forall l | 0 <= l < |now| && Unclaimed(m, all, pins, l, hi + 1) ensures Unclaimed(m, all, pins, l, hi) {
    }
    forall l, j | 0 <= l < |now'| && 0 <= j < |all| && LastClaimant(m, all, pins, l, j, hi + 1)
      ensures 0 <= Column(pins, j) < |x| && now'[l].x == x[Column(pins, j)]
    {
      if !Claims(m, all[hi], l) {
        assert LastClaimant(m, all, pins, l, j, hi);
      }
    }
  }

  /**
   * The write-back of the solve with the v axis constrained: every loop
   * claimed by an unpinned relax vertex gets its u coordinate from that
   * vertex's column of `x`; v coordinates never change, and loops nobody
   * unpinned claims are untouched.
   */
  method ScatterU(m: Mesh, all: seq<RelaxVert>, pins: seq<nat>, x: seq<real>, uv: array<Vec2>)
    requires m.Valid() && uv.Length == m.Loops()
    requires forall k :: 0 <= k < |all| ==> all[k].vert < m.Verts()
    requires Distinct(pins) && (forall i :: 0 <= i < |pins| ==> pins[i] < |all|)
    requires |x| == |all| - |pins|
    modifies uv
    ensures Scattered(m, all, pins, x, old(uv[..]), uv[..], |all|)
  {
    for vidx := 0 to |all|
      invariant Scattered(m, all, pins, x, old(uv[..]), uv[..], vidx)
    {
      var count := CountPinsBelow(pins, vidx);
      if vidx in pins {
        ScatterSkip(m, all, pins, x, old(uv[..]), uv[..], vidx);
        continue;
      }
      var col := vidx - count;
      ColumnInRange(pins, |all|, vidx);
      ghost var before := uv[..];
      WriteClaimed(m, all[vidx], x[col], uv);
      assert forall l :: 0 <= l < |before| ==>
        uv[..][l] == if Claims(m, all[vidx], l) then Vec2(x[Column(pins, vidx)], before[l].y) else before[l];
      ScatterWrite(m, all, pins, x, old(uv[..]), before, uv[..], vidx);
    }
  }

  /** The inner loop of the write-back: set u on every loop `rv` claims. */
  method WriteClaimed(m: Mesh, rv: RelaxVert, u: real, uv: array<Vec2>)
    requires m.Valid() && uv.Length == m.Loops() && rv.vert < m.Verts()
    modifies uv
    ensures forall l :: 0 <= l < uv.Length ==>
              uv[l] == if Claims(m, rv, l) then Vec2(u, old(uv[l].y)) else old(uv[l])
  {
    var ls := m.vertLoops[rv.vert];
    for i := 0 to |ls|
      invariant forall l :: 0 <= l < uv.Length ==>
                  uv[l] == if l in ls[..i] && m.loopFace[l] in rv.polygons then Vec2(u, old(uv[l].y)) else old(uv[l])
    {
      var l := ls[i];
      if m.loopFace[l] in rv.polygons {
        uv[l] := Vec2(u, uv[l].y);
      }
      assert forall l' :: l' in ls[..i + 1] <==> l' in ls[..i] || l' == ls[i];
    }
    assert ls[..|ls|] == ls;
  }
}
