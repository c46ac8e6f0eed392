/** Small integer helpers shared by the list and listing modules. */
module Numbers {
  /** `Math.min` */
  function Min(a: int, b: int): int {
    if a <= b then a else b
  }
}
