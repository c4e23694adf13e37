// Three-valued logic of the configuration language: n < m < y.
module Tristate {
  // The integer codes of the source's enumeration.
  type Tri = t: int | 0 <= t <= 2

  const NO: Tri := 0
  const MOD: Tri := 1
  const YES: Tri := 2

  function Min(a: Tri, b: Tri): Tri {
    if a < b then a else b
  }

  function Max(a: Tri, b: Tri): Tri {
    if a > b then a else b
  }

  function Complement(a: Tri): Tri {
    2 - a
  }

  function FromBool(b: bool): Tri {
    if b then YES else NO
  }
}
