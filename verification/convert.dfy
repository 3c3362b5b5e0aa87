/**
 Conversion of a decimal number in 0..15 to the least-significant-bit-first
 4-bit list the adder takes, and the round trips it completes.
 */
module Convert {
  import opened Logic
  import opened Binary
  import opened AddSub

  datatype Option<+T> = None | Some(value: T)

  /** The four bits of n, least significant first, or None when n lies
      outside 0..15. */
  function DecimalTo4BitList(n: int): (r: Option<Nibble>)
    ensures r.Some? <==> 0 <= n <= 15
    ensures r.Some? ==> Value(r.value) == n
    ensures r.Some? ==> forall i :: 0 <= i < 4 ==> r.value[i] == (n / Pow2(i)) % 2
  {
    if n < 0 || n > 15 then None
    else
      ValueOfToBits(n, 4);
      ToBitsDigits(n, 4);
      Some(ToBits(n, 4))
  }

  /** Every 4-bit list is the conversion of its own value. */
  lemma NibbleRoundTrip(s: Nibble)
    ensures DecimalTo4BitList(Value(s)) == Some(s)
  {
    NibbleValueBound(s);
    ValueInjective(DecimalTo4BitList(Value(s)).value, s);
  }

  /** Adding zero to a converted number gives back the same list, no
      carry, and so the original number. */
  lemma AddZeroRoundTrip(n: int)
    requires 0 <= n <= 15
    ensures DecimalTo4BitList(n).Some?
    ensures AddSub4(DecimalTo4BitList(n).value, [0, 0, 0, 0], 0)
            == AddSubResult(DecimalTo4BitList(n).value, 0)
    ensures Value(AddSub4(DecimalTo4BitList(n).value, [0, 0, 0, 0], 0).result) == n
  {
    var A := DecimalTo4BitList(n).value;
    var zero: Nibble := [0, 0, 0, 0];
    assert Value(zero) == 0;
    assert ModifiedOperand(zero, 0) == zero;
    SameSumSameResult(A, zero, 0, A, 0);
  }

  /** 5 converts to [1,0,1,0]; 16 and -1 are rejected. */
  lemma ConversionExamples()
    ensures DecimalTo4BitList(5) == Some([1, 0, 1, 0])
    ensures DecimalTo4BitList(16).None? && DecimalTo4BitList(-1).None?
  {
    NibbleRoundTrip([1, 0, 1, 0]);
  }
}
