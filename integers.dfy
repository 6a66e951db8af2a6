/** Integer helpers shared by the peak finding and the pairing. */
module Integers {

  function Min(a: int, b: int): int { if a <= b then a else b }

  function Max(a: int, b: int): int { if a >= b then a else b }
}
