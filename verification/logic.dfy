/**
 Single-bit logic gates. Every gate works on the `Bit` subset type, so the
 values 0 and 1 are the only inputs; exclusive-or is derived from the three
 primitive gates rather than taken as a primitive.
 */
module Logic {

  /** A binary digit, 0 or 1. */
  type Bit = b: nat | b <= 1

  /** Bitwise AND of two bits. */
  function And(a: Bit, b: Bit): (r: Bit)
    ensures r == 1 <==> a == 1 && b == 1
  {
    if a == 0 then 0 else b
  }

  /** Bitwise OR of two bits. */
  function Or(a: Bit, b: Bit): (r: Bit)
    ensures r == 0 <==> a == 0 && b == 0
  {
    if a == 1 then 1 else b
  }

  /** Bitwise NOT of a bit: on 0 and 1 the complement is `1 - a`. */
  function Not(a: Bit): (r: Bit)
    ensures r != a
  {
    1 - a
  }

  /** Exclusive-or built as (a AND NOT b) OR (NOT a AND b): it is 1 exactly
      when the two bits differ. */
  function Xor(a: Bit, b: Bit): (r: Bit)
    ensures r == 1 <==> a != b
    ensures r == (a + b) % 2
  {
    Or(And(a, Not(b)), And(Not(a), b))
  }
}
