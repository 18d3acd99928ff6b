/** Machine-level helpers shared by the model: `std::size_t` arithmetic with
    its wrap-around, and an optional value for "pointer or null" results. */
module Native {

  /** The largest `std::size_t` on a 64-bit target. */
  const SizeMax: int := 0xFFFF_FFFF_FFFF_FFFF

  type SizeT = x: int | 0 <= x <= SizeMax

  /** `x += 1` on a `std::size_t`. */
  function Inc(x: SizeT): (r: SizeT)
    ensures x < SizeMax ==> r == x + 1
    ensures x == SizeMax ==> r == 0
  {
    (x + 1) % (SizeMax + 1)
  }

  /** `x -= 1` on a `std::size_t`. */
  function Dec(x: SizeT): (r: SizeT)
    ensures x > 0 ==> r == x - 1
    ensures x == 0 ==> r == SizeMax
  {
    (x - 1) % (SizeMax + 1)
  }

  /** `a + b` on two `std::size_t` values. */
  function Add(a: SizeT, b: SizeT): (r: SizeT)
    ensures a + b <= SizeMax ==> r == a + b
    ensures a + b > SizeMax ==> r == a + b - SizeMax - 1
  {
    (a + b) % (SizeMax + 1)
  }

  /** A decrement undoes an increment, across the wrap as well. */
  lemma DecInc(x: SizeT)
    ensures Dec(Inc(x)) == x
  {
  }

  datatype Option<T> = None | Some(value: T)
}
