/** The integer minimum and maximum shared by the other modules. */
module MinMax {

  function Min(a: int, b: int): int { if a <= b then a else b }

  function Max(a: int, b: int): int { if a >= b then a else b }
}
