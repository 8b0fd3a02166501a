/**
 * "Set Seam by Angle": every selected edge that has exactly two faces gets its
 * seam flag recomputed from its signed dihedral angle, a threshold and the
 * concave/convex switches. The angle itself (normals, cross products) is an
 * input: `None` stands for an edge without exactly two faces.
 */
module SeamByAngle {
  import opened Wrappers
  import opened Vec

  /**
   * The seam flag decided for one processed edge. The body follows the three
   * successive assignments of the operator: first the concave test, then the
   * convex override, then the "both switches" override.
   */
  function SeamFor(angle: real, threshold: real, useConcave: bool, useConvex: bool): (seam: bool)
    ensures seam ==> threshold <= Abs(angle) && angle != 0.0
    ensures seam ==> useConcave || useConvex
  {
    var concave := threshold <= Abs(angle) && angle < 0.0;
    var afterConcave := useConcave && concave;
    var convex := threshold <= Abs(angle) && angle > 0.0;
    var afterConvex := if useConvex && convex then true else afterConcave;
    if useConcave && useConvex then concave || convex else afterConvex
  }

  /** The flag an edge carries after the pass, given the flag it had before. */
  function SeamAfter(before: bool, selected: bool, angle: Option<real>, threshold: real,
                     useConcave: bool, useConvex: bool): bool
  {
    if !selected || angle.None? then before
    else SeamFor(angle.value, threshold, useConcave, useConvex)
  }

  /** The pass over all edges, rewriting `seam` in place. */
  method SetSeamsByAngle(seam: array<bool>, selected: seq<bool>, angle: seq<Option<real>>,
                         threshold: real, useConcave: bool, useConvex: bool)
    requires |selected| == seam.Length && |angle| == seam.Length
    modifies seam
    ensures forall e :: 0 <= e < seam.Length ==>
      seam[e] == SeamAfter(old(seam[e]), selected[e], angle[e], threshold, useConcave, useConvex)
  {
    var e := 0;
    while e < seam.Length
      invariant 0 <= e <= seam.Length
      invariant forall k :: 0 <= k < e ==>
        seam[k] == SeamAfter(old(seam[k]), selected[k], angle[k], threshold, useConcave, useConvex)
      invariant forall k :: e <= k < seam.Length ==> seam[k] == old(seam[k])
    {
      if selected[e] && angle[e].Some? {
        var a := angle[e].value;
        var concave := threshold <= Abs(a) && a < 0.0;
        if useConcave && concave {
          seam[e] := true;
        } else {
          seam[e] := false;
        }
        var convex := threshold <= Abs(a) && a > 0.0;
        if useConvex && convex {
          seam[e] := true;
        }
        if useConcave && useConvex {
          seam[e] := concave || convex;
        }
      }
      e := e + 1;
    }
  }

  /** Unselected edges and edges without exactly two faces keep their flag. */
  lemma UntouchedEdgesKeepSeam(before: bool, selected: bool, angle: Option<real>, threshold: real,
                               useConcave: bool, useConvex: bool)
    requires !selected || angle.None?
    ensures SeamAfter(before, selected, angle, threshold, useConcave, useConvex) == before
  {
  }

  /** With both switches on, a processed edge is a seam iff its angle is steep and non-zero. */
  lemma BothSwitches(angle: real, threshold: real)
    ensures SeamFor(angle, threshold, true, true) <==> threshold <= Abs(angle) && angle != 0.0
  {
  }

  /** With only the concave switch, a seam iff the angle is negative and steep. */
  lemma ConcaveOnly(angle: real, threshold: real)
    ensures SeamFor(angle, threshold, true, false) <==> angle < 0.0 && threshold <= Abs(angle)
  {
  }

  /** With only the convex switch, a seam iff the angle is positive and steep. */
  lemma ConvexOnly(angle: real, threshold: real)
    ensures SeamFor(angle, threshold, false, true) <==> angle > 0.0 && threshold <= Abs(angle)
  {
  }

  /** With neither switch, every processed edge loses its seam. */
  lemma NeitherSwitch(angle: real, threshold: real)
    ensures !SeamFor(angle, threshold, false, false)
  {
  }

  /** The pass is idempotent: the decision does not read the previous flag of a processed edge. */
  lemma SeamAfterIdempotent(before: bool, selected: bool, angle: Option<real>, threshold: real,
                            useConcave: bool, useConvex: bool)
    ensures var once := SeamAfter(before, selected, angle, threshold, useConcave, useConvex);
            SeamAfter(once, selected, angle, threshold, useConcave, useConvex) == once
  {
  }
}
