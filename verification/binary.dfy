/**
 Unsigned reading of a least-significant-bit-first bit list, and the 4-bit
 vectors the adder works on.
 */
module Binary {
  import opened Logic

  /** A 4-bit operand, index 0 the least significant bit. */
  type Nibble = s: seq<Bit> | |s| == 4 witness [0, 0, 0, 0]

  function Pow2(n: nat): (r: nat)
    ensures r >= 1
  {
    if n == 0 then 1 else 2 * Pow2(n - 1)
  }

  /** The weighted sum of the bits, bit i weighing 2^i. */
  function Value(s: seq<Bit>): (r: nat)
    ensures r < Pow2(|s|)
  {
    if |s| == 0 then 0 else s[0] + 2 * Value(s[1..])
  }

  /** Appending a bit at the most significant end adds its weight. */
  lemma {:induction false} ValueSnoc(s: seq<Bit>, b: Bit)
    ensures Value(s + [b]) == Value(s) + Pow2(|s|) * b
    decreases |s|
  {
    if |s| == 0 {
      assert (s + [b])[1..] == [];
    } else {
      assert (s + [b])[1..] == s[1..] + [b];
      ValueSnoc(s[1..], b);
    }
  }

  /** Every nibble reads as a number in 0..15. */
  lemma NibbleValueBound(s: Nibble)
    ensures Value(s) <= 15
  {
    assert Pow2(4) == 16;
  }

  /** The w-bit, least-significant-bit-first binary digits of n; bit i is
      (n / 2^i) % 2, and bits above w are dropped. */
  function ToBits(n: nat, w: nat): (r: seq<Bit>)
    ensures |r| == w
  {
    if w == 0 then [] else [n % 2] + ToBits(n / 2, w - 1)
  }

  /** Bit i of the w-bit conversion of n is (n / 2^i) % 2. */
  lemma {:induction false} ToBitsDigit(n: nat, w: nat, i: nat)
    requires i < w
    ensures ToBits(n, w)[i] == (n / Pow2(i)) % 2
    decreases i
  {
    if i > 0 {
      ToBitsDigit(n / 2, w - 1, i - 1);
      DivDiv(n, Pow2(i - 1));
    }
  }

  /** Every bit of the w-bit conversion of n, by its position. */
  lemma ToBitsDigits(n: nat, w: nat)
    ensures forall i :: 0 <= i < w ==> ToBits(n, w)[i] == (n / Pow2(i)) % 2
  {
    forall i | 0 <= i < w
      ensures ToBits(n, w)[i] == (n / Pow2(i)) % 2
    {
      ToBitsDigit(n, w, i);
    }
  }

  /** Halving and then dividing by d is dividing by 2 * d. */
  lemma DivDiv(n: nat, d: nat)
    requires d >= 1
    ensures (n / 2) / d == n / (2 * d)
  {
    var q, r := (n / 2) / d, (n / 2) % d;
    assert n / 2 == d * q + r;
    assert n == (2 * d) * q + (2 * r + n % 2);
    DivUnique(n, 2 * d, q, 2 * r + n % 2);
  }

  /** The quotient is the q of any decomposition n = d * q + r with 0 <= r < d. */
  lemma DivUnique(n: nat, d: nat, q: nat, r: nat)
    requires d >= 1 && r < d && n == d * q + r
    ensures n / d == q
  {
    var q', r' := n / d, n % d;
    assert d * q' + r' == d * q + r;
    if q' < q {
      MulSplit(d, q', q - q');
    } else if q' > q {
      MulSplit(d, q, q' - q);
    }
  }

  /** d * (x + k) is at least d * x + d when k is positive. */
  lemma MulSplit(d: nat, x: nat, k: nat)
    requires k >= 1
    ensures d * (x + k) >= d * x + d
  {
    assert d * (x + k) == d * x + d * k;
    assert d * k == d + d * (k - 1);
  }

  /** A number below 2^w survives conversion to w bits. */
  lemma {:induction false} ValueOfToBits(n: nat, w: nat)
    requires n < Pow2(w)
    ensures Value(ToBits(n, w)) == n
    decreases w
  {
    if w > 0 {
      ValueOfToBits(n / 2, w - 1);
      assert ToBits(n, w)[1..] == ToBits(n / 2, w - 1);
    }
  }

  /** Converting the value of a bit list back to as many bits gives the list. */
  lemma {:induction false} ToBitsOfValue(s: seq<Bit>)
    ensures ToBits(Value(s), |s|) == s
    decreases |s|
  {
    if |s| > 0 {
      ToBitsOfValue(s[1..]);
      assert Value(s) % 2 == s[0] && Value(s) / 2 == Value(s[1..]);
      assert s == [s[0]] + s[1..];
    }
  }

  /** Two bit lists of one length with one value are the same list. */
  lemma {:induction false} ValueInjective(s: seq<Bit>, t: seq<Bit>)
    requires |s| == |t| && Value(s) == Value(t)
    ensures s == t
  {
    ToBitsOfValue(s);
    ToBitsOfValue(t);
  }
}
