/** C++ integer division by two, which truncates toward zero (Dafny's `/` rounds toward negative infinity). */
module CArith {

  /** `a / 2` as C++ computes it on `int`. */
  function Half(a: int): (q: int)
    ensures 0 <= a ==> 0 <= q && 2 * q <= a <= 2 * q + 1
    ensures a < 0 ==> q <= 0 && 2 * q - 1 <= a <= 2 * q
  {
    if 0 <= a then a / 2 else -((-a) / 2)
  }
}
