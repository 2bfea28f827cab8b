/** The smaller and the larger of two numbers, clamping between bounds, and absolute values. */
module Bounds {

  function MinNat(a: nat, b: nat): nat { if a < b then a else b }

  function MaxNat(a: nat, b: nat): nat { if a < b then b else a }

  function ClampNat(x: nat, low: nat, high: nat): nat
    requires low <= high
  {
    if x < low then low else if x > high then high else x
  }

  function MinReal(x: real, y: real): real { if x < y then x else y }

  function MaxReal(x: real, y: real): real { if x < y then y else x }

  function ClampReal(x: real, low: real, high: real): real {
    if x < low then low else if x > high then high else x
  }

  function AbsReal(x: real): real { if x < 0.0 then -x else x }

  lemma ProductNonNegative(x: real, y: real)
    requires x >= 0.0 && y >= 0.0
    ensures x * y >= 0.0
  {
  }

  lemma ProductGrows(x: real, y: real, z: real)
    requires x >= 0.0 && y <= z
    ensures x * y <= x * z
  {
    ProductNonNegative(x, z - y);
    assert x * z - x * y == x * (z - y);
  }
}
