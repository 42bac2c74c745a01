/**
 * Java's 32-bit `int`: its range, its largest value (used as a "not found"
 * sentinel) and two's-complement wrap-around.
 */
module JavaInt {

  const MinInt: int := -0x8000_0000
  const MaxInt: int := 0x7fff_ffff

  type int32 = x: int | MinInt <= x <= MaxInt

  /** The value a Java `int` holds after an arithmetic result `x` wraps around. */
  function Wrap(x: int): (r: int32)
    ensures (x - r) % 0x1_0000_0000 == 0
    ensures MinInt <= x <= MaxInt ==> r == x
  {
    var m := x % 0x1_0000_0000;
    if m <= MaxInt then m else m - 0x1_0000_0000
  }
}
