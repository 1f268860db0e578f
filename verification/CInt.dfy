/** The fixed-width integer conversions of the C sources.
    Every assignment to a narrow variable goes through one of these, so that a
    value the C compiler would truncate is truncated in the model as well. */
module CInt {

  /** Conversion to int16_t. */
  function ToInt16(v: int): (r: int)
    ensures -0x8000 <= r < 0x8000
    ensures -0x8000 <= v < 0x8000 ==> r == v
  {
    (v + 0x8000) % 0x1_0000 - 0x8000
  }

  /** Conversion to uint8_t. */
  function ToUint8(v: int): (r: int)
    ensures 0 <= r < 0x100
    ensures 0 <= v < 0x100 ==> r == v
  {
    v % 0x100
  }

  /** Conversion to uint16_t. */
  function ToUint16(v: int): (r: int)
    ensures 0 <= r < 0x1_0000
    ensures 0 <= v < 0x1_0000 ==> r == v
  {
    v % 0x1_0000
  }

  /** Conversion to uint32_t. */
  function ToUint32(v: int): (r: int)
    ensures 0 <= r < 0x1_0000_0000
    ensures 0 <= v < 0x1_0000_0000 ==> r == v
  {
    v % 0x1_0000_0000
  }

  /** Conversion to int32_t. */
  function ToInt32(v: int): (r: int)
    ensures -0x8000_0000 <= r < 0x8000_0000
    ensures -0x8000_0000 <= v < 0x8000_0000 ==> r == v
  {
    (v + 0x8000_0000) % 0x1_0000_0000 - 0x8000_0000
  }

  /** d += u for an int32_t d and a uint32_t u: the sum is taken modulo 2^32. */
  function AddUnsigned(d: int, u: int): int {
    ToInt32(ToUint32(ToUint32(d) + u))
  }

  /** Reducing the operands of an unsigned sum first makes no difference to the result. */
  lemma AddUnsignedWraps(d: int, v: int, u: int)
    requires u == ToUint32(v)
    requires -0x8000_0000 <= d + v < 0x8000_0000
    ensures AddUnsigned(d, u) == d + v
  {
    var p := Reduced(d);
    var q := Reduced(v);
    var r := Reduced(ToUint32(d) + u);
    var sum := ToUint32(ToUint32(d) + u);
    hide ToUint32, ToInt32;
    Centred(sum, d + v, p + q + r);
  }

  lemma Reduced(v: int) returns (q: int)
    ensures ToUint32(v) == v - 0x1_0000_0000 * q
  {
    q := v / 0x1_0000_0000;
  }

  lemma Centred(u: int, v: int, q: int)
    requires 0 <= u < 0x1_0000_0000 && u == v - 0x1_0000_0000 * q && -0x8000_0000 <= v < 0x8000_0000
    ensures ToInt32(u) == v
  {
  }
}
