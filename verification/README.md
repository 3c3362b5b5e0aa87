# 4-bit adder/subtractor built from logic gates

This project models the arithmetic engine of `Sumador_restador.py`, a 4-bit
binary adder/subtractor written only with AND, OR and NOT on single bits:

- `XOR` is derived as (a AND NOT b) OR (NOT a AND b);
- `full_adder` adds two bits and a carry-in, giving a sum bit and a carry-out;
- `add_sub_4bit` chains four full adders over least-significant-bit-first
  lists. The mode bit (0 = add, 1 = subtract) is XOR-ed into every bit of B
  and seeds the first carry, so subtraction is A + NOT B + 1 (two's
  complement);
- `decimal_to_4bit_list` turns 0..15 into such a list and rejects anything
  else with `None`.

The Dafny modules follow those layers:

- `Logic` (`logic.dfy`) has the `Bit` type and the gates.
- `FullAdder` (`full_adder.dfy`) has the one-bit adder.
- `Binary` (`binary.dfy`) reads a bit list as a number (`Value`, bit i
  weighing 2^i) and converts back (`ToBits`).
- `AddSub` (`add_sub.dfy`) has the ripple-carry adder/subtractor. It comes in
  two forms: a functional reference (`RippleCarry`, `AddSub4`) and a method
  `AddSub4Bit` that follows the source loop, with the prefix-sum loop
  invariant.
- `Convert` (`convert.dfy`) has the decimal conversion, with `None` modelled
  as an `Option`.

Every property is stated against integer arithmetic:

- the full adder satisfies sum + 2·carry = a + b + cin;
- addition gives (A + B) mod 16, and the carry reports a sum of 16 or more;
- subtraction gives (A − B) mod 16, and the carry is 1 exactly when A ≥ B
  (no borrow);
- the conversion and `Value` are inverse to each other on 4-bit lists.

Python's `~` on a bit b gives −b−1. So `a & ~b` equals AND(a, NOT b) whenever
a and b are 0 or 1. NOT is therefore modelled as `1 - a` on the `Bit` type.

## Model

| member | source | states |
|---|---|---|
| Logic.And | Sumador_restador.py:26 | the AND of two bits is 1 exactly when both bits are 1 |
| Logic.Or | Sumador_restador.py:32 | the OR of two bits is 0 exactly when both bits are 0 |
| Logic.Not | Sumador_restador.py:5-6 | NOT of a bit is the other bit |
| Logic.Xor | Sumador_restador.py:2-6 | XOR built from AND/OR/NOT is a bit, 1 exactly when the two bits differ, i.e. (a + b) mod 2 |
| FullAdder.FullAdd | Sumador_restador.py:14-35 | sum + 2·carry = a + b + cin; the sum bit is the parity of a + b + cin; the carry is 1 exactly when at least two of a, b, cin are 1 |
| FullAdder.FullAddTruthTable | Sumador_restador.py:9-35 | all eight rows of the full-adder truth table |
| Binary.Value | Sumador_restador.py:38-39 | an LSB-first list of n bits reads as a number below 2^n |
| AddSub.ModifiedOperand | Sumador_restador.py:55-58 | the operand bit fed to the adder is B[i] in add mode and 1 − B[i] in subtract mode, at every position |
| AddSub.InvertedValue | Sumador_restador.py:55-58 | inverting every bit of an n-bit list turns its value v into 2^n − 1 − v (one's complement) |
| AddSub.RippleCarry | Sumador_restador.py:48-63 | after the first n stages, the n sum bits with the carry as bit n read as the sum of the n-bit prefixes of A and the modified B plus the seed carry |
| AddSub.RippleStep | Sumador_restador.py:60-63 | one more full-adder stage extends the ripple identity from n − 1 bits to n bits |
| AddSub.AddSub4 | Sumador_restador.py:40-66 | the result has four bits and result + 16·carry = A + (modified B) + mode; mode 0 gives (A + B) mod 16 with carry exactly when A + B ≥ 16; mode 1 gives (A − B) mod 16 (two's-complement wrap) with carry exactly when A ≥ B, i.e. no borrow |
| AddSub.RippleMeaning | Sumador_restador.py:41-66 | any 4-bit value v and carry c satisfying the ripple identity mean (A + B) mod 16 with carry iff A + B ≥ 16 in add mode, and (A − B) mod 16 with carry iff A ≥ B in subtract mode |
| AddSub.AddSub4Bit | Sumador_restador.py:43-66 | the loop (result initialised to four zeros, carry seeded with mode, one full adder per bit, LSB first) returns four bits, the same result and carry as AddSub4, so it adds and subtracts modulo 16 as AddSub4 states |
| AddSub.SameSumSameResult | Sumador_restador.py:45-66 | a 4-bit result and carry satisfying the ripple identity are exactly the ones computed, so the outcome is determined by the arithmetic |
| AddSub.AddOverflowExample | Sumador_restador.py:46-63 | 9 + 7: result 0000 with carry 1 |
| AddSub.SubtractExample | Sumador_restador.py:47-63 | 5 − 3: result 2 (0010) with carry 1 |
| AddSub.SubtractBorrowExample | Sumador_restador.py:49-63 | 3 − 5: result 14 (1110) with carry 0 |
| AddSub.AddBoundaryExample | Sumador_restador.py:50-63 | 15 + 15: result 14 (1110) with carry 1 |
| Binary.ToBits | Sumador_restador.py:81-85 | the conversion to w bits yields exactly w bits |
| Binary.ToBitsDigit | Sumador_restador.py:80-85 | bit i of the conversion of n is (n / 2^i) mod 2 |
| Binary.ValueOfToBits | Sumador_restador.py:83-85 | a number below 2^w read back from its w-bit conversion is the number |
| Binary.ToBitsOfValue | Sumador_restador.py:84-85 | converting the value of a bit list back to as many bits gives the list |
| Binary.ValueInjective | Sumador_restador.py:39 | two LSB-first lists of one length with one value are equal |
| Convert.DecimalTo4BitList | Sumador_restador.py:69-85 | returns a list exactly when 0 ≤ n ≤ 15, otherwise None; the list is four bits LSB-first, reads as n, and bit i is (n / 2^i) mod 2 |
| Convert.NibbleRoundTrip | Sumador_restador.py:73-85 | every 4-bit list is the conversion of its own value |
| Convert.AddZeroRoundTrip | Sumador_restador.py:43-85 | adding [0,0,0,0] in mode 0 to the conversion of n returns the same list with carry 0, which reads back as n |
| Convert.ConversionExamples | Sumador_restador.py:69-78 | 5 converts to [1,0,1,0]; 16 and −1 give None |

## Left out

- `menu` and the top-level `menu()` call (Sumador_restador.py:88-144): interactive console I/O (`input`, `print`, `int()` parsing, an endless loop) with no arithmetic content.
- The error message `decimal_to_4bit_list` prints before returning `None` (line 77). This is console output; only the `None` result is modelled.
- The `format(n, '04b')` string and the `reversed` in `decimal_to_4bit_list`: the conversion is modelled arithmetically, with bit i being (n / 2^i) mod 2. The result is the same.
- The MSB-first display reversal (lines 136-138) is presentation only.
- Inputs that are not bits: the source never checks that list entries and `mode` are 0 or 1, and Python's `~`, `&` and `|` would give other integers for them. Every operation here takes the `Bit` type (0 or 1), so garbage inputs are outside the model.
- Operand lists of other lengths: the source documents A and B as 4-bit lists. Here they are the `Nibble` type (length 4). A shorter Python list raises `IndexError`, and a longer one has its extra entries ignored; neither case is modelled.
- Mode is kept as the bit the source uses (0 add, 1 subtract), not an enumeration.
- Purity (equal inputs give equal outputs) holds for every Dafny function by construction and is not stated separately.
- That `add_sub_4bit` never alters A is not stated separately: Dafny sequences are values, and A is only read.
