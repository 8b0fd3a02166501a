/**
 * The corner-segment accumulation of the rectangularize operator: walking
 * the sorted boundary loops once around, starting at the first corner, it
 * records each loop's edge length and sums the lengths between consecutive
 * corners. Edge lengths (a square root of 3D coordinates) are given per loop.
 */
module CornerSegments {
  import opened Wrappers

  /** The sum of a sequence of reals, added from the front. */
  function Sum(s: seq<real>): real
  {
    if s == [] then 0.0 else Sum(s[..|s| - 1]) + s[|s| - 1]
  }

  /** Sum distributes over concatenation. */
  lemma {:induction false} SumAppend(a: seq<real>, b: seq<real>)
    ensures Sum(a + b) == Sum(a) + Sum(b)
  {
    if b == [] {
      assert a + b == a;
    } else {
      assert (a + b)[..|a + b| - 1] == a + b[..|b| - 1];
      assert (a + b)[|a + b| - 1] == b[|b| - 1];
      SumAppend(a, b[..|b| - 1]);
    }
  }

  /**
   * The running segment sums: a corner opens a new segment; any other
   * distance extends the last one (or opens the first one, when there is
   * none yet).
   */
  function Split(ds: seq<real>, cs: seq<bool>): seq<real>
    requires |ds| == |cs|
  {
    if ds == [] then []
    else
      var p := Split(ds[..|ds| - 1], cs[..|cs| - 1]);
      var d := ds[|ds| - 1];
      if cs[|cs| - 1] || p == [] then p + [d] else p[..|p| - 1] + [p[|p| - 1] + d]
  }

  /**
   * One step of the accumulation: a corner appends a fresh 0.0, then the
   * distance is added to the last entry.
   */
  lemma SplitStep(ds: seq<real>, cs: seq<bool>, i: nat, between: seq<real>)
    requires |ds| == |cs| && i < |ds| && (i == 0 ==> cs[0])
    requires between == Split(ds[..i], cs[..i])
    ensures cs[i] || between != []
    ensures AddToLast(if cs[i] then between + [0.0] else between, ds[i]) == Split(ds[..i + 1], cs[..i + 1])
  {
    assert ds[..i + 1][..i] == ds[..i] && cs[..i + 1][..i] == cs[..i];
    if i > 0 {
      assert ds[..i] != [];
      assert Split(ds[..i], cs[..i]) != [];
    }
  }

  /** `distance_between_corners[-1] += d`. */
  function AddToLast(b: seq<real>, d: real): (r: seq<real>)
    requires b != []
    ensures |r| == |b| && r[..|b| - 1] == b[..|b| - 1] && r[|b| - 1] == b[|b| - 1] + d
  {
    b[..|b| - 1] + [b[|b| - 1] + d]
  }

  /** Number of corners among the flags. */
  function Count(cs: seq<bool>): nat
  {
    if cs == [] then 0 else Count(cs[..|cs| - 1]) + (if cs[|cs| - 1] then 1 else 0)
  }

  /** The segments add up to the whole perimeter. */
  lemma {:induction false} SplitSum(ds: seq<real>, cs: seq<bool>)
    requires |ds| == |cs|
    ensures Sum(Split(ds, cs)) == Sum(ds)
  {
    if ds != [] {
      var p := Split(ds[..|ds| - 1], cs[..|cs| - 1]);
      var d := ds[|ds| - 1];
      SplitSum(ds[..|ds| - 1], cs[..|cs| - 1]);
      if !(cs[|cs| - 1] || p == []) {
        var init := p[..|p| - 1];
        assert p == init + [p[|p| - 1]];
        SumAppend(init, [p[|p| - 1]]);
        SumAppend(init, [p[|p| - 1] + d]);
      } else {
        SumAppend(p, [d]);
      }
    }
  }

  /** When the walk starts on a corner, there is one segment per corner. */
  lemma {:induction false} SplitCount(ds: seq<real>, cs: seq<bool>)
    requires |ds| == |cs| && |cs| > 0 && cs[0]
    ensures |Split(ds, cs)| == Count(cs)
    ensures |Split(ds, cs)| >= 1
  {
    if |ds| > 1 {
      SplitCount(ds[..|ds| - 1], cs[..|cs| - 1]);
    }
  }

  /** The position of the first occurrence of `x` in `s`, if any (list.index). */
  function IndexOf(s: seq<nat>, x: nat): (r: Option<nat>)
    ensures r.None? <==> x !in s
    ensures r.Some? ==> r.value < |s| && s[r.value] == x && forall j :: 0 <= j < r.value ==> s[j] != x
  {
    if s == [] then None
    else if s[0] == x then Some(0)
    else
      var r := IndexOf(s[1..], x);
      assert forall j :: 1 <= j < |s| ==> s[j] == s[1..][j - 1];
      if r.None? then None else Some(r.value + 1)
  }

  /** Reducing a number below twice the modulus takes at most one subtraction. */
  lemma ModWrap(k: nat, n: nat)
    requires 0 < n && k < 2 * n
    ensures k % n == if k < n then k else k - n
  {
    if k < n {
      assert k == 0 * n + k;
    } else {
      assert k == 1 * n + (k - n);
    }
  }

  /** Position of step `i` of the walk that starts at `start`. */
  function Step(start: nat, i: nat, n: nat): (idx: nat)
    requires start < n && i < n
    ensures idx < n
    ensures idx == if start + i < n then start + i else start + i - n
  {
    ModWrap(start + i, n);
    (start + i) % n
  }

  /** Position `j` is among the first `i` steps of the walk from `start`. */
  predicate Walked(start: nat, i: nat, n: nat, j: nat)
  {
    (start <= j < start + i) || j + n < start + i
  }

  /** Step `i` of the walk is the one position it adds to the walked ones. */
  lemma WalkedStep(start: nat, i: nat, n: nat, j: nat)
    requires start < n && i < n && j < n
    ensures Walked(start, i + 1, n, j) <==> Walked(start, i, n, j) || j == Step(start, i, n)
  {
  }

  /** The edge lengths in walk order, starting at `start`. */
  function Rotated(sorted: seq<nat>, len: seq<real>, start: nat): (r: seq<real>)
    requires start < |sorted| && forall i :: 0 <= i < |sorted| ==> sorted[i] < |len|
    ensures |r| == |sorted|
  {
    seq(|sorted|, i requires 0 <= i < |sorted| => len[sorted[Step(start, i, |sorted|)]])
  }

  /** Whether each step of the walk lands on a corner loop. */
  function CornerFlags(sorted: seq<nat>, corners: seq<nat>, start: nat): (r: seq<bool>)
    requires start < |sorted|
    ensures |r| == |sorted|
  {
    seq(|sorted|, i requires 0 <= i < |sorted| => sorted[Step(start, i, |sorted|)] in corners)
  }

  /** The edge length of every sorted loop, in list order. */
  function Lengths(sorted: seq<nat>, len: seq<real>): (r: seq<real>)
    requires forall i :: 0 <= i < |sorted| ==> sorted[i] < |len|
    ensures |r| == |sorted|
  {
    seq(|sorted|, i requires 0 <= i < |sorted| => len[sorted[i]])
  }

  /** Walking once around from any start visits every length once: the total is the same. */
  lemma RotatedSum(sorted: seq<nat>, len: seq<real>, start: nat)
    requires start < |sorted| && forall i :: 0 <= i < |sorted| ==> sorted[i] < |len|
    ensures Sum(Rotated(sorted, len, start)) == Sum(Lengths(sorted, len))
  {
    var all := Lengths(sorted, len);
    var n := |sorted|;
    assert Rotated(sorted, len, start) == all[start..] + all[..start];
    assert all == all[..start] + all[start..];
    SumAppend(all[start..], all[..start]);
    SumAppend(all[..start], all[start..]);
  }

  /** The two lists the corner walk produces. */
  datatype Segments = Segments(between: seq<real>, edges: seq<real>)

  /**
   * The corner walk: `corners[0]` must be one of the sorted loops (an empty
   * corner list is an IndexError, a missing one a ValueError of list.index).
   * `edges` ends up holding each sorted loop's edge length at its own
   * position, and `between` the sums of the lengths from one corner to the
   * next, in walk order.
   */
  method CornerDistances(sorted: seq<nat>, corners: seq<nat>, len: seq<real>) returns (r: Option<Segments>)
    requires forall i :: 0 <= i < |sorted| ==> sorted[i] < |len|
    ensures r.None? <==> corners == [] || corners[0] !in sorted
    ensures r.Some? ==>
              corners != [] && IndexOf(sorted, corners[0]).Some? &&
              var start := IndexOf(sorted, corners[0]).value;
              && r.value.edges == Lengths(sorted, len)
              && r.value.between == Split(Rotated(sorted, len, start), CornerFlags(sorted, corners, start))
  {
    if corners == [] {
      return None;
    }
    var found := IndexOf(sorted, corners[0]);
    if found.None? {
      return None;
    }
    var start := found.value;
    assert sorted[start] == corners[0];
    var between, edges := Walk(sorted, corners, len, start);
    return Some(Segments(between, edges));
  }

  /** The loop of the corner walk, from the position of the first corner. */
  method Walk(sorted: seq<nat>, corners: seq<nat>, len: seq<real>, start: nat)
    returns (between: seq<real>, edges: seq<real>)
    requires forall i :: 0 <= i < |sorted| ==> sorted[i] < |len|
    requires start < |sorted| && sorted[start] in corners
    ensures edges == Lengths(sorted, len)
    ensures between == Split(Rotated(sorted, len, start), CornerFlags(sorted, corners, start))
  {
    var n := |sorted|;
    between := [];
    var lengths := new real[n](_ => 0.0);
    ghost var ds := Rotated(sorted, len, start);
    ghost var cs := CornerFlags(sorted, corners, start);
    assert cs[0] by {
      assert Step(start, 0, n) == start;
    }
    for i := 0 to n
      invariant between == Split(ds[..i], cs[..i])
      invariant forall j :: 0 <= j < n ==> lengths[j] == if Walked(start, i, n, j) then len[sorted[j]] else 0.0
    {
      var idx := Step(start, i, n);
      var l := sorted[idx];
      SplitStep(ds, cs, i, between);
      if l in corners {
        between := between + [0.0];
      }
      var d := len[l];
      lengths[idx] := d;
      forall j | 0 <= j < n
        ensures lengths[j] == if Walked(start, i + 1, n, j) then len[sorted[j]] else 0.0
      {
        WalkedStep(start, i, n, j);
      }
      between := AddToLast(between, d);
    }
    assert ds[..n] == ds && cs[..n] == cs;
    edges := lengths[..];
  }

  /**
   * The segment lengths between corners add up to the perimeter of the
   * boundary, and there is one segment per corner loop met on the walk.
   */
  lemma CornerDistancesSum(sorted: seq<nat>, corners: seq<nat>, len: seq<real>, segs: Segments)
    requires forall i :: 0 <= i < |sorted| ==> sorted[i] < |len|
    requires corners != [] && IndexOf(sorted, corners[0]).Some?
    requires
      var start := IndexOf(sorted, corners[0]).value;
      && segs.edges == Lengths(sorted, len)
      && segs.between == Split(Rotated(sorted, len, start), CornerFlags(sorted, corners, start))
    ensures Sum(segs.between) == Sum(segs.edges)
    ensures |segs.between| == Count(CornerFlags(sorted, corners, IndexOf(sorted, corners[0]).value)) >= 1
  {
    var start := IndexOf(sorted, corners[0]).value;
    SplitSum(Rotated(sorted, len, start), CornerFlags(sorted, corners, start));
    RotatedSum(sorted, len, start);
    assert Step(start, 0, |sorted|) == start;
    SplitCount(Rotated(sorted, len, start), CornerFlags(sorted, corners, start));
  }
}
