/** Two's-complement conversions between the fixed-width integers of the source and unbounded ones. */
module MachineIntegers {

  const TWO_31: int := 0x8000_0000
  const TWO_32: int := 0x1_0000_0000
  const TWO_63: int := 0x8000_0000_0000_0000
  const TWO_64: int := 0x1_0000_0000_0000_0000

  predicate IsInt64(x: int) {
    -TWO_63 <= x < TWO_63
  }

  /** The value of `x` reinterpreted as `int32_t`. */
  function ToInt32(x: int): (r: int)
    ensures -TWO_31 <= r < TWO_31
    ensures -TWO_31 <= x < TWO_31 ==> r == x
    ensures (x - r) % TWO_32 == 0
  {
    var u := x % TWO_32;
    if u < TWO_31 then u else u - TWO_32
  }

  /** The value of `x` reinterpreted as `int64_t`. */
  function ToInt64(x: int): (r: int)
    ensures IsInt64(r)
    ensures IsInt64(x) ==> r == x
    ensures (x - r) % TWO_64 == 0
  {
    var u := x % TWO_64;
    if u < TWO_63 then u else u - TWO_64
  }

  /** `int64_t` addition, as two's-complement hardware performs it. */
  function Add64(a: int, b: int): (r: int)
    ensures IsInt64(a + b) ==> r == a + b
  {
    ToInt64(a + b)
  }

  /** The value of `x` reinterpreted as `uint64_t`. */
  function ToUint64(x: int): (r: int)
    ensures 0 <= r < TWO_64
    ensures 0 <= x < TWO_64 ==> r == x
  {
    x % TWO_64
  }

  /** A `uint64_t` survives being stored in an `int64_t` field. */
  lemma Int64RoundTrip(u: int)
    requires 0 <= u < TWO_64
    ensures ToUint64(ToInt64(u)) == u
  {
  }

  /** Wrapping early does not change where a sum ends up. */
  lemma WrapSum(a: int, b: int)
    ensures ToInt64(ToInt64(a) + b) == ToInt64(a + b)
  {
    var q := a / TWO_64;
    assert a == q * TWO_64 + a % TWO_64;
  }

  lemma WrapBoth(a: int, b: int)
    ensures ToInt64(ToInt64(a) + ToInt64(b)) == ToInt64(a + b)
  {
    WrapSum(a, ToInt64(b));
    WrapSum(b, a);
  }

  lemma WrapInt32Step(a: int)
    ensures ToInt32(ToInt32(a) + 1) == ToInt32(a + 1)
  {
  }
}
