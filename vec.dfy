/** Two-component vectors over exact reals (mathutils.Vector in two dimensions). */
module Vec {

  datatype Vec2 = Vec2(x: real, y: real)

  function Min(a: real, b: real): real { if a <= b then a else b }

  function Max(a: real, b: real): real { if a >= b then a else b }

  function Abs(a: real): real { if a < 0.0 then -a else a }

  /** math.floor on a real, as a real. */
  function FloorR(a: real): (r: real)
    ensures r <= a < r + 1.0
  {
    a.Floor as real
  }
}
