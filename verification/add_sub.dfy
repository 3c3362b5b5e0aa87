/**
 The 4-bit ripple-carry adder/subtractor. The mode bit (0 = add, 1 =
 subtract) is XOR-ed into every bit of the second operand and also seeds the
 carry, so subtraction computes A + NOT B + 1 in two's complement.
 */
module AddSub {
  import opened Logic
  import opened FullAdder
  import opened Binary

  /** The 4-bit result list together with the final carry bit. */
  datatype AddSubResult = AddSubResult(result: seq<Bit>, carry: Bit)

  /** The operand the adder actually sees: B unchanged in add mode, every bit
      of B inverted in subtract mode. */
  function ModifiedOperand(B: seq<Bit>, mode: Bit): (r: seq<Bit>)
    ensures |r| == |B|
    ensures forall i :: 0 <= i < |B| ==> r[i] == (if mode == 0 then B[i] else 1 - B[i])
  {
    seq(|B|, i requires 0 <= i < |B| => Xor(B[i], mode))
  }

  /** Inverting every bit of an n-bit list turns its value v into 2^n - 1 - v. */
  lemma {:induction false} InvertedValue(B: seq<Bit>)
    ensures Value(ModifiedOperand(B, 1)) == Pow2(|B|) - 1 - Value(B)
    decreases |B|
  {
    if |B| > 0 {
      assert ModifiedOperand(B, 1)[1..] == ModifiedOperand(B[1..], 1);
      InvertedValue(B[1..]);
    }
  }

  /** One full-adder stage at weight w: scaling its identity by w. */
  lemma StageWeight(w: nat, s: Bit, c: Bit, x: Bit, y: Bit, cin: Bit)
    requires s + 2 * c == x + y + cin
    ensures w * s + (2 * w) * c == w * x + w * y + w * cin
  {
    calc {
      w * s + (2 * w) * c;
      w * (s + 2 * c);
      w * (x + y + cin);
      w * x + w * y + w * cin;
    }
  }

  /** The first n stages of the ripple chain, fed with carry-in cin. The n
      sum bits with the last carry appended as bit n read as the sum of the
      two n-bit operand prefixes and cin. */
  function RippleCarry(A: seq<Bit>, Bm: seq<Bit>, cin: Bit, n: nat): (r: AddSubResult)
    requires n <= |A| && n <= |Bm|
    ensures |r.result| == n
    ensures Value(r.result + [r.carry]) == Value(A[..n]) + Value(Bm[..n]) + cin
    decreases n
  {
    if n == 0 then AddSubResult([], cin)
    else
      var prev := RippleCarry(A, Bm, cin, n - 1);
      var stage := FullAdd(A[n - 1], Bm[n - 1], prev.carry);
      RippleStep(A, Bm, cin, n, prev, stage);
      AddSubResult(prev.result + [stage.sum], stage.carry)
  }

  /** Extending the ripple identity of the first n-1 stages by stage n. */
  lemma RippleStep(A: seq<Bit>, Bm: seq<Bit>, cin: Bit, n: nat, prev: AddSubResult, stage: BitSum)
    requires 0 < n <= |A| && n <= |Bm| && |prev.result| == n - 1
    requires Value(prev.result + [prev.carry]) == Value(A[..n - 1]) + Value(Bm[..n - 1]) + cin
    requires stage.sum + 2 * stage.carry == A[n - 1] + Bm[n - 1] + prev.carry
    ensures Value(prev.result + [stage.sum] + [stage.carry]) == Value(A[..n]) + Value(Bm[..n]) + cin
  {
    var w := Pow2(n - 1);
    ValueSnoc(prev.result, prev.carry);
    ValueSnoc(prev.result, stage.sum);
    ValueSnoc(prev.result + [stage.sum], stage.carry);
    assert A[..n] == A[..n - 1] + [A[n - 1]];
    assert Bm[..n] == Bm[..n - 1] + [Bm[n - 1]];
    ValueSnoc(A[..n - 1], A[n - 1]);
    ValueSnoc(Bm[..n - 1], Bm[n - 1]);
    StageWeight(w, stage.sum, stage.carry, A[n - 1], Bm[n - 1], prev.carry);
  }

  /** The adder/subtractor as a function: four ripple stages over A and the
      mode-modified B, the carry seeded with the mode. Addition (mode 0)
      gives (A + B) mod 16 with a carry exactly on overflow beyond four bits;
      subtraction (mode 1) gives (A - B) mod 16 in two's complement with a
      carry exactly when no borrow occurs, i.e. A >= B. */
  function AddSub4(A: Nibble, B: Nibble, mode: Bit): (r: AddSubResult)
    ensures |r.result| == 4
    ensures Value(r.result) + 16 * r.carry == Value(A) + Value(ModifiedOperand(B, mode)) + mode
    ensures mode == 0 ==> Value(r.result) == (Value(A) + Value(B)) % 16
    ensures mode == 0 ==> (r.carry == 1 <==> Value(A) + Value(B) >= 16)
    ensures mode == 1 ==> Value(r.result) == (Value(A) - Value(B)) % 16
    ensures mode == 1 ==> (r.carry == 1 <==> Value(A) >= Value(B))
  {
    var Bm := ModifiedOperand(B, mode);
    var r := RippleCarry(A, Bm, mode, 4);
    assert A[..4] == A && Bm[..4] == Bm;
    ValueSnoc(r.result, r.carry);
    assert Pow2(4) == 16;
    NibbleValueBound(r.result);
    RippleMeaning(A, B, mode, Value(r.result), r.carry);
    r
  }

  /** What the ripple identity v + 16 c = A + (B modified by mode) + mode
      means for a 4-bit result v and a carry c: in add mode v is (A + B) mod 16
      and c reports overflow; in subtract mode v is (A - B) mod 16 and c is 1
      exactly when no borrow occurs, i.e. A >= B. */
  lemma {:induction false} RippleMeaning(A: Nibble, B: Nibble, mode: Bit, v: int, c: Bit)
    requires 0 <= v <= 15
    requires v + 16 * c == Value(A) + Value(ModifiedOperand(B, mode)) + mode
    ensures mode == 0 ==> v == (Value(A) + Value(B)) % 16 && (c == 1 <==> Value(A) + Value(B) >= 16)
    ensures mode == 1 ==> v == (Value(A) - Value(B)) % 16 && (c == 1 <==> Value(A) >= Value(B))
  {
    var a: int, b: int := Value(A), Value(B);
    NibbleValueBound(A);
    NibbleValueBound(B);
    if mode == 0 {
      assert ModifiedOperand(B, 0) == B;
      if a + b >= 16 {
        assert c == 1 && v == a + b - 16;
      } else {
        assert c == 0 && v == a + b;
      }
    } else {
      InvertedValue(B);
      assert Pow2(|B|) == 16;
      if a >= b {
        assert c == 1 && v == a - b;
      } else {
        assert c == 0 && v == a - b + 16;
      }
    }
  }

  /** The adder/subtractor as the source writes it: a result list that
      starts as four zeros, a carry seeded with the mode, and one full adder
      per bit from the least significant bit up. After bit i the low i result
      bits with the carry as bit i read as the sum of the low i bits of A and
      of the modified B plus the mode, and the bits above i are still zero. */
  method AddSub4Bit(A: Nibble, B: Nibble, mode: Bit) returns (result: seq<Bit>, carry: Bit)
    ensures |result| == 4
    ensures AddSubResult(result, carry) == AddSub4(A, B, mode)
  {
    ghost var Bm := ModifiedOperand(B, mode);
    result := [0, 0, 0, 0];
    carry := mode;
    for i := 0 to 4
      invariant |result| == 4
      invariant forall j :: i <= j < 4 ==> result[j] == 0
      invariant Value(result[..i] + [carry]) == Value(A[..i]) + Value(Bm[..i]) + mode
    {
      var bMod := Xor(B[i], mode);
      assert bMod == Bm[i];
      var stage := FullAdd(A[i], bMod, carry);
      RippleStep(A, Bm, mode, i + 1, AddSubResult(result[..i], carry), stage);
      assert result[i := stage.sum][..i + 1] == result[..i] + [stage.sum];
      result := result[i := stage.sum];
      carry := stage.carry;
    }
    assert result[..4] == result;
    assert A[..4] == A && Bm[..4] == Bm;
    ValueSnoc(result, carry);
    assert Pow2(4) == 16;
    SameSumSameResult(A, B, mode, result, carry);
  }

  /** A 4-bit result and carry satisfying the ripple identity are the ones
      AddSub4 computes: the identity fixes both. */
  lemma SameSumSameResult(A: Nibble, B: Nibble, mode: Bit, result: seq<Bit>, carry: Bit)
    requires |result| == 4
    requires Value(result) + 16 * carry == Value(A) + Value(ModifiedOperand(B, mode)) + mode
    ensures AddSubResult(result, carry) == AddSub4(A, B, mode)
  {
    var r := AddSub4(A, B, mode);
    NibbleValueBound(result);
    NibbleValueBound(r.result);
    assert carry == r.carry;
    ValueInjective(result, r.result);
  }

  /** 9 + 7 = 16 wraps to 0 with a carry. */
  lemma AddOverflowExample(A: Nibble, B: Nibble)
    requires Value(A) == 9 && Value(B) == 7
    ensures A == [1, 0, 0, 1] && B == [1, 1, 1, 0]
    ensures AddSub4(A, B, 0) == AddSubResult([0, 0, 0, 0], 1)
  {
    ExampleOutcome(A, B, 0, [1, 0, 0, 1], [1, 1, 1, 0], [0, 0, 0, 0], 1);
  }

  /** 5 - 3 = 2 with no borrow. */
  lemma SubtractExample(A: Nibble, B: Nibble)
    requires Value(A) == 5 && Value(B) == 3
    ensures A == [1, 0, 1, 0] && B == [1, 1, 0, 0]
    ensures AddSub4(A, B, 1) == AddSubResult([0, 1, 0, 0], 1)
  {
    ExampleOutcome(A, B, 1, [1, 0, 1, 0], [1, 1, 0, 0], [0, 1, 0, 0], 1);
  }

  /** 3 - 5 = -2 wraps to 14 with a borrow (carry 0). */
  lemma SubtractBorrowExample(A: Nibble, B: Nibble)
    requires Value(A) == 3 && Value(B) == 5
    ensures A == [1, 1, 0, 0] && B == [1, 0, 1, 0]
    ensures AddSub4(A, B, 1) == AddSubResult([0, 1, 1, 1], 0)
  {
    ExampleOutcome(A, B, 1, [1, 1, 0, 0], [1, 0, 1, 0], [0, 1, 1, 1], 0);
  }

  /** 15 + 15 = 30 wraps to 14 with a carry. */
  lemma AddBoundaryExample(A: Nibble, B: Nibble)
    requires Value(A) == 15 && Value(B) == 15
    ensures A == [1, 1, 1, 1] && B == [1, 1, 1, 1]
    ensures AddSub4(A, B, 0) == AddSubResult([0, 1, 1, 1], 1)
  {
    ExampleOutcome(A, B, 0, [1, 1, 1, 1], [1, 1, 1, 1], [0, 1, 1, 1], 1);
  }

  /** The shared step of the worked cases: operands and an expected outcome
      whose values satisfy the ripple identity are the ones computed. */
  lemma ExampleOutcome(A: Nibble, B: Nibble, mode: Bit, a: Nibble, b: Nibble, sum: Nibble, carry: Bit)
    requires Value(A) == Value(a) && Value(B) == Value(b)
    requires Value(sum) + 16 * carry == Value(a) + (if mode == 0 then Value(b) else 16 - Value(b))
    ensures A == a && B == b
    ensures AddSub4(A, B, mode) == AddSubResult(sum, carry)
  {
    ValueInjective(A, a);
    ValueInjective(B, b);
    if mode == 0 {
      assert ModifiedOperand(B, 0) == B;
    } else {
      InvertedValue(B);
      assert Pow2(|B|) == 16;
    }
    SameSumSameResult(A, B, mode, sum, carry);
  }
}
