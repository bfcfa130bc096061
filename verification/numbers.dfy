/** Integer helpers shared by the pages' bounds (the ticket menu, the id prefix). */
module Numbers {

  /** The smaller of two integers (`Math.min`). */
  function Min(a: int, b: int): (m: int)
    ensures m <= a && m <= b
    ensures m == a || m == b
  {
    if a <= b then a else b
  }
}
