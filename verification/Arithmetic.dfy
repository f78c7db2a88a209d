/** Powers of two and minima. */
module Arithmetic {
  function Power2(n: nat): (r: nat)
    ensures r >= 1
  {
    if n == 0 then 1 else 2 * Power2(n - 1)
  }

  function Min(a: nat, b: nat): nat {
    if a <= b then a else b
  }
}
