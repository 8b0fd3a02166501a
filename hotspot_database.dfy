/*
 * The hotspot database edits of the save-hotspot and reference-hotspot
 * operators. The database is two parallel lists read from the .hot file:
 * material groups (lists of material names) and hotspots; group i names
 * the materials that use hotspot i. Saving moves a material into a new
 * group of its own with a new hotspot; referencing moves a material into
 * an existing group chosen by index.
 */
module HotspotDatabase {
  import opened Wrappers
  import opened Hotspots

  datatype Db = Db(materials: seq<seq<string>>, hotspots: seq<Hotspot>)

  /**
   * The guarded removal `if mat_name in matgrp: matgrp.remove(mat_name)`: drops
   * the first occurrence of `x`. The guard skips a list without `x`, so the
   * ValueError of an unguarded `list.remove` cannot occur.
   */
  function RemoveFirst(s: seq<string>, x: string): (r: seq<string>)
    ensures x !in s ==> r == s
  {
    if s == [] then []
    else if s[0] == x then s[1..]
    else
      assert s == [s[0]] + s[1..];
      [s[0]] + RemoveFirst(s[1..], x)
  }

  /** One occurrence of `x` is gone, and only that. */
  lemma {:induction false} RemoveFirstCount(s: seq<string>, x: string)
    requires x in s
    ensures |RemoveFirst(s, x)| == |s| - 1 && multiset(RemoveFirst(s, x)) == multiset(s) - multiset{x}
  {
    assert s == [s[0]] + s[1..];
    if s[0] != x {
      RemoveFirstCount(s[1..], x);
    }
  }

  /** What is removed is the first occurrence, and nothing else moves. */
  lemma {:induction false} RemoveFirstDeletes(s: seq<string>, x: string, k: nat)
    requires k < |s| && s[k] == x && x !in s[..k]
    ensures RemoveFirst(s, x) == s[..k] + s[k + 1..]
  {
    var t := s[1..];
    if k > 0 {
      assert s[..k] == [s[0]] + t[..k - 1];
      assert s[k + 1..] == t[k..];
      RemoveFirstDeletes(t, x, k - 1);
    }
  }

  /** The sequence without its element at `i` (list.pop(i)). */
  function Without<T>(s: seq<T>, i: nat): (r: seq<T>)
    requires i < |s|
    ensures |r| == |s| - 1
    ensures forall j :: 0 <= j < |r| ==> r[j] == if j < i then s[j] else s[j + 1]
  {
    s[..i] + s[i + 1..]
  }

  /** The first group naming `mat`, as the loop with `break` finds it. */
  function FirstGroupWith(gs: seq<seq<string>>, mat: string): (r: Option<nat>)
    ensures r.Some? ==> r.value < |gs| && mat in gs[r.value] && forall j :: 0 <= j < r.value ==> mat !in gs[j]
    ensures r.None? ==> forall j :: 0 <= j < |gs| ==> mat !in gs[j]
  {
    if gs == [] then None
    else if mat in gs[0] then Some(0)
    else match FirstGroupWith(gs[1..], mat)
      case None => None
      case Some(i) => Some(i + 1)
  }

  /**
   * The database after saving `mat` with hotspot `h`: `mat` leaves the first
   * group naming it; a group left empty is removed together with its
   * hotspot (None: there is no such hotspot, the IndexError of pop); then
   * [mat] and `h` are appended.
   */
  function SaveSpec(d: Db, mat: string, h: Hotspot): (r: Option<Db>)
    ensures |d.materials| == |d.hotspots| ==> r.Some? && |r.value.materials| == |r.value.hotspots|
    ensures r.Some? ==> && r.value.materials != [] && r.value.materials[|r.value.materials| - 1] == [mat]
                        && r.value.hotspots != [] && r.value.hotspots[|r.value.hotspots| - 1] == h
  {
    match FirstGroupWith(d.materials, mat)
    case None => Some(Db(d.materials + [[mat]], d.hotspots + [h]))
    case Some(i) =>
      var g := RemoveFirst(d.materials[i], mat);
      if g != [] then Some(Db(d.materials[i := g] + [[mat]], d.hotspots + [h]))
      else if i < |d.hotspots| then Some(Db(Without(d.materials, i) + [[mat]], Without(d.hotspots, i) + [h]))
      else None
  }

  /** Saving fails exactly when the emptied group has no hotspot at its index. */
  lemma SaveFails(d: Db, mat: string, h: Hotspot)
    ensures SaveSpec(d, mat, h).None? <==>
              exists i :: 0 <= i < |d.materials| && FirstGroupWith(d.materials, mat) == Some(i)
                          && RemoveFirst(d.materials[i], mat) == [] && i >= |d.hotspots|
  {
  }

  /** How many times `mat` is named, over all groups. */
  function Occurrences(gs: seq<seq<string>>, mat: string): nat
  {
    if gs == [] then 0 else multiset(gs[0])[mat] + Occurrences(gs[1..], mat)
  }

  lemma {:induction false} OccurrencesAppend(a: seq<seq<string>>, b: seq<seq<string>>, mat: string)
    ensures Occurrences(a + b, mat) == Occurrences(a, mat) + Occurrences(b, mat)
  {
    if a == [] {
      assert a + b == b;
    } else {
      assert (a + b)[1..] == a[1..] + b;
      OccurrencesAppend(a[1..], b, mat);
    }
  }

  /** Replacing group `i` changes the count by that group's difference. */
  lemma OccurrencesUpdate(gs: seq<seq<string>>, i: nat, g: seq<string>, mat: string)
    requires i < |gs|
    ensures Occurrences(gs[i := g], mat) == Occurrences(gs, mat) - multiset(gs[i])[mat] + multiset(g)[mat]
  {
    assert gs == gs[..i] + [gs[i]] + gs[i + 1..];
    assert gs[i := g] == gs[..i] + [g] + gs[i + 1..];
    OccurrencesAppend(gs[..i] + [gs[i]], gs[i + 1..], mat);
    OccurrencesAppend(gs[..i], [gs[i]], mat);
    OccurrencesAppend(gs[..i] + [g], gs[i + 1..], mat);
    OccurrencesAppend(gs[..i], [g], mat);
  }

  /** Dropping group `i` takes away its names. */
  lemma OccurrencesWithout(gs: seq<seq<string>>, i: nat, mat: string)
    requires i < |gs|
    ensures Occurrences(Without(gs, i), mat) == Occurrences(gs, mat) - multiset(gs[i])[mat]
  {
    assert gs == gs[..i] + [gs[i]] + gs[i + 1..];
    OccurrencesAppend(gs[..i] + [gs[i]], gs[i + 1..], mat);
    OccurrencesAppend(gs[..i], [gs[i]], mat);
    OccurrencesAppend(gs[..i], gs[i + 1..], mat);
  }

  /** A group with a name counts it; the count is zero exactly when no group names it. */
  lemma {:induction false} OccurrencesZero(gs: seq<seq<string>>, mat: string)
    ensures Occurrences(gs, mat) == 0 <==> forall j :: 0 <= j < |gs| ==> mat !in gs[j]
  {
    if gs != [] {
      OccurrencesZero(gs[1..], mat);
      assert forall j :: 1 <= j < |gs| ==> gs[j] == gs[1..][j - 1];
    }
  }

  /**
   * A save moves one occurrence of `mat`: one is removed if any group
   * named it, and one is added; so a material named at most once before
   * is named exactly once after, in the new last group.
   */
  lemma SaveMovesName(d: Db, mat: string, h: Hotspot)
    requires SaveSpec(d, mat, h).Some?
    ensures var d' := SaveSpec(d, mat, h).value;
            Occurrences(d'.materials, mat)
              == Occurrences(d.materials, mat) - (if FirstGroupWith(d.materials, mat).Some? then 1 else 0) + 1
    ensures Occurrences(d.materials, mat) <= 1 ==> Occurrences(SaveSpec(d, mat, h).value.materials, mat) == 1
  {
    var d' := SaveSpec(d, mat, h).value;
    match FirstGroupWith(d.materials, mat)
    case None =>
      OccurrencesAppend(d.materials, [[mat]], mat);
      OccurrencesZero(d.materials, mat);
    case Some(i) =>
      var g := RemoveFirst(d.materials[i], mat);
      RemoveFirstCount(d.materials[i], mat);
      if g != [] {
        OccurrencesAppend(d.materials[i := g], [[mat]], mat);
        OccurrencesUpdate(d.materials, i, g, mat);
      } else {
        OccurrencesAppend(Without(d.materials, i), [[mat]], mat);
        OccurrencesWithout(d.materials, i, mat);
      }
      assert multiset(d.materials[i])[mat] >= 1;
      assert Occurrences(d.materials, mat) >= 1 by {
        OccurrencesZero(d.materials, mat);
      }
  }

  /** Every group with its first `mat` removed. */
  function Strip(gs: seq<seq<string>>, mat: string): (r: seq<seq<string>>)
    ensures |r| == |gs| && forall j :: 0 <= j < |gs| ==> r[j] == RemoveFirst(gs[j], mat)
  {
    seq(|gs|, j requires 0 <= j < |gs| => RemoveFirst(gs[j], mat))
  }

  /**
   * The groups after referencing `mat` to hotspot `idx`: `mat` leaves every
   * group naming it, then joins group `idx` when idx < len, counted from
   * the end when it is negative (None: idx < -len, the IndexError);
   * idx >= len adds it nowhere.
   */
  function RefSpec(gs: seq<seq<string>>, mat: string, idx: int): (r: Option<seq<seq<string>>>)
    ensures r.None? <==> idx < -|gs|
    ensures r.Some? ==> |r.value| == |gs|
  {
    var s := Strip(gs, mat);
    if idx >= |gs| then Some(s)
    else if idx >= 0 then Some(s[idx := s[idx] + [mat]])
    else if idx >= -|gs| then Some(s[|gs| + idx := s[|gs| + idx] + [mat]])
    else None
  }

  /**
   * With each group naming `mat` at most once, a reference leaves it named
   * once, in the chosen group, or nowhere when the index is past the end.
   */
  lemma RefMovesName(gs: seq<seq<string>>, mat: string, idx: int)
    requires forall j :: 0 <= j < |gs| ==> multiset(gs[j])[mat] <= 1
    requires RefSpec(gs, mat, idx).Some?
    ensures var r := RefSpec(gs, mat, idx).value;
            && (idx >= |gs| ==> Occurrences(r, mat) == 0)
            && (idx < |gs| ==> Occurrences(r, mat) == 1 && mat in r[if idx >= 0 then idx else |gs| + idx])
  {
    var s := Strip(gs, mat);
    forall j | 0 <= j < |s| ensures mat !in s[j] {
      if mat in gs[j] {
        RemoveFirstCount(gs[j], mat);
        assert multiset(s[j])[mat] == multiset(gs[j])[mat] - 1;
      }
    }
    OccurrencesZero(s, mat);
    if idx < |gs| {
      var t := if idx >= 0 then idx else |gs| + idx;
      OccurrencesUpdate(s, t, s[t] + [mat], mat);
      assert multiset(s[t] + [mat]) == multiset(s[t]) + multiset{mat};
    }
  }

  /** The database as the operators edit it, in place, before it is written back. */
  class Database {
    var materials: seq<seq<string>>
    var hotspots: seq<Hotspot>

    function State(): Db
      reads this
    {
      Db(materials, hotspots)
    }

    constructor(materials: seq<seq<string>>, hotspots: seq<Hotspot>)
      ensures this.materials == materials && this.hotspots == hotspots
    {
      this.materials := materials;
      this.hotspots := hotspots;
    }

    /**
     * OBJECT_OT_savehotspot's database edit. `ok` is false where the
     * operator raises IndexError; the file is then not written, so the
     * database is unchanged.
     */
    method Save(mat: string, h: Hotspot) returns (ok: bool)
      modifies this
      ensures ok == SaveSpec(old(State()), mat, h).Some?
      ensures ok ==> State() == SaveSpec(old(State()), mat, h).value
      ensures !ok ==> State() == old(State())
      ensures old(|materials| == |hotspots|) ==> ok && |materials| == |hotspots|
    {
      ok := true;
      var i := 0;
      while i < |materials|
        invariant i <= |materials| && materials == old(materials) && hotspots == old(hotspots)
        invariant forall j :: 0 <= j < i ==> mat !in materials[j]
      {
        if mat in materials[i] {
          assert FirstGroupWith(materials, mat) == Some(i);
          var g := RemoveFirst(materials[i], mat);
          if g == [] {
            if i >= |hotspots| {
              return false;
            }
            materials := Without(materials, i);
            hotspots := Without(hotspots, i);
          } else {
            materials := materials[i := g];
          }
          break;
        }
        i := i + 1;
      }
      materials := materials + [[mat]];
      hotspots := hotspots + [h];
    }

    /**
     * MESH_OT_refhostpot's database edit, `idx` being the hotspot index
     * parsed from the image name. `ok` is false where the operator raises
     * IndexError; the database is then unchanged. Hotspots never change.
     */
    method Reference(mat: string, idx: int) returns (ok: bool)
      modifies this
      ensures ok == RefSpec(old(materials), mat, idx).Some?
      ensures ok ==> materials == RefSpec(old(materials), mat, idx).value
      ensures !ok ==> materials == old(materials)
      ensures hotspots == old(hotspots)
    {
      if idx < -|materials| {
        return false;
      }
      ok := true;
      for i := 0 to |materials|
        invariant |materials| == |old(materials)| && hotspots == old(hotspots)
        invariant forall j :: 0 <= j < i ==> materials[j] == RemoveFirst(old(materials)[j], mat)
        invariant forall j :: i <= j < |materials| ==> materials[j] == old(materials)[j]
      {
        materials := materials[i := RemoveFirst(materials[i], mat)];
      }
      assert materials == Strip(old(materials), mat);
      if idx < |materials| {
        var t := if idx >= 0 then idx else |materials| + idx;
        materials := materials[t := materials[t] + [mat]];
      }
    }
  }
}
