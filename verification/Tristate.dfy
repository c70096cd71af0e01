/** The three-valued logic of Kconfig: n < m < y, conjunction is minimum,
    disjunction is maximum, negation mirrors the scale. */
module Tristates {
  type Tri = x: int | 0 <= x <= 2

  const NO: Tri := 0
  const MOD: Tri := 1
  const YES: Tri := 2

  function TriAnd(a: Tri, b: Tri): Tri {
    if a < b then a else b
  }

  function TriOr(a: Tri, b: Tri): Tri {
    if a > b then a else b
  }

  function TriNot(a: Tri): Tri {
    2 - a
  }

  function OfBool(b: bool): Tri {
    if b then YES else NO
  }

  function Spell(a: Tri): string {
    if a == NO then "n" else if a == MOD then "m" else "y"
  }

  datatype Option<+T> = None | Some(value: T)
}
