/**
 The one-bit full adder: two operand bits and a carry-in produce a sum bit
 and a carry-out, using two exclusive-ors, two ANDs and one OR.
 */
module FullAdder {
  import opened Logic

  /** The pair (sum bit, carry-out bit) a full adder returns. */
  datatype BitSum = BitSum(sum: Bit, carry: Bit)

  /** Full adder: the partial sum is a XOR b, the sum bit is that XOR cin, and
      the carry is (a AND b) OR (partial AND cin). */
  function FullAdd(a: Bit, b: Bit, cin: Bit): (r: BitSum)
    ensures r.sum + 2 * r.carry == a + b + cin
    ensures r.sum == 1 <==> (a + b + cin) % 2 == 1
    ensures r.carry == 1 <==> (a == 1 && b == 1) || (a == 1 && cin == 1) || (b == 1 && cin == 1)
  {
    var s1 := Xor(a, b);
    var suma := Xor(s1, cin);
    var c1 := And(a, b);
    var c2 := And(s1, cin);
    BitSum(suma, Or(c1, c2))
  }

  /** The rows of the full-adder truth table, all eight of them. */
  lemma FullAddTruthTable()
    ensures FullAdd(0, 0, 0) == BitSum(0, 0)
    ensures FullAdd(0, 0, 1) == BitSum(1, 0)
    ensures FullAdd(0, 1, 0) == BitSum(1, 0)
    ensures FullAdd(0, 1, 1) == BitSum(0, 1)
    ensures FullAdd(1, 0, 0) == BitSum(1, 0)
    ensures FullAdd(1, 0, 1) == BitSum(0, 1)
    ensures FullAdd(1, 1, 0) == BitSum(0, 1)
    ensures FullAdd(1, 1, 1) == BitSum(1, 1)
  {
  }
}
