/** JavaScript's 32-bit integer operators (`| 0`, `<<`) on unbounded integers. */
module Int32 {

  const Two32: int := 0x1_0000_0000
  const Two31: int := 0x8000_0000

  predicate IsInt32(x: int) { -Two31 <= x < Two31 }

  /** ToInt32 (section 7.1.6 of ECMA-262): the signed 32-bit value congruent
      to `x` modulo 2^32, which is what `x | 0` yields for an integral `x`. */
  function ToInt32(x: int): (r: int)
    ensures IsInt32(r)
    ensures (r - x) % Two32 == 0
  {
    var m := x % Two32;
    if m >= Two31 then m - Two32 else m
  }

  /** ToInt32 is the identity on values already in range. */
  lemma ToInt32Identity(x: int)
    requires IsInt32(x)
    ensures ToInt32(x) == x
  {
  }

  /** Congruent arguments give the same ToInt32. */
  lemma ToInt32Congruent(x: int, y: int)
    requires (x - y) % Two32 == 0
    ensures ToInt32(x) == ToInt32(y)
  {
    var q := (x - y) / Two32;
    assert x == y + Two32 * q;
    ModShift(y, q);
  }

  lemma ModShift(y: int, q: int)
    ensures (y + Two32 * q) % Two32 == y % Two32
  {
  }

  /** Replacing a factor by a value congruent to it does not change the
      ToInt32 of a product-plus-remainder. */
  lemma ToInt32MulAdd(x: int, y: int, k: int, rest: int)
    requires (x - y) % Two32 == 0
    ensures ToInt32(x * k + rest) == ToInt32(y * k + rest)
  {
    var q := (x - y) / Two32;
    assert x == y + Two32 * q;
    assert x * k + rest == (y * k + rest) + Two32 * (q * k) by {
      assert x * k == y * k + (Two32 * q) * k;
    }
    ModShift(y * k + rest, q * k);
    ToInt32Congruent(x * k + rest, y * k + rest);
  }

  /** `x << 5` for an int32 `x`: the low 32 bits of x * 32, read as signed. */
  function ShiftLeft5(x: int): (r: int)
    ensures IsInt32(r)
    ensures (r - 32 * x) % Two32 == 0
  {
    ToInt32(x * 32)
  }
}
