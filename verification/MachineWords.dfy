// Machine words: their ranges, and division as C and C++ do it.
module MachineWords {
  const TWO31: int := 0x8000_0000
  const TWO32: int := 0x1_0000_0000
  const TWO64: int := 0x1_0000_0000_0000_0000

  function Pow2(e: nat): (p: nat)
    ensures p > 0
  {
    if e == 0 then 1 else 2 * Pow2(e - 1)
  }

  // The remainder has the sign of the left operand.
  function Rem(x: int, n: int): int
    requires n != 0
  {
    if x >= 0 then x % n else -((-x) % n)
  }
}
