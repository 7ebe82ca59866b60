/** Arithmetic in GF(2^8) with the polynomial x^8 + x^4 + x^3 + x^2 + 1 (0x11d). */
module Gf256 {

  /** A u8, bit by bit: b0 is the least significant bit. */
  datatype Byte = Byte(b0: bool, b1: bool, b2: bool, b3: bool, b4: bool, b5: bool, b6: bool, b7: bool)

  const ZERO := Byte(false, false, false, false, false, false, false, false)
  const ONE := Byte(true, false, false, false, false, false, false, false)
  const POLY := Byte(true, false, true, true, true, false, false, false)

  function Xor(a: Byte, b: Byte): Byte {
    Byte(a.b0 != b.b0, a.b1 != b.b1, a.b2 != b.b2, a.b3 != b.b3,
         a.b4 != b.b4, a.b5 != b.b5, a.b6 != b.b6, a.b7 != b.b7)
  }

  function Shl(a: Byte): Byte {
    Byte(false, a.b0, a.b1, a.b2, a.b3, a.b4, a.b5, a.b6)
  }

  function Shr(a: Byte): Byte {
    Byte(a.b1, a.b2, a.b3, a.b4, a.b5, a.b6, a.b7, false)
  }

  /** Number of significant bits. */
  function Bits(a: Byte): nat {
    if a.b7 then 8 else if a.b6 then 7 else if a.b5 then 6 else if a.b4 then 5
    else if a.b3 then 4 else if a.b2 then 3 else if a.b1 then 2 else if a.b0 then 1 else 0
  }

  /** Multiplication by x: shift left and fold the carry back in. */
  function Double(a: Byte): Byte {
    if a.b7 then Xor(Shl(a), POLY) else Shl(a)
  }

  function Low(a: Byte, b: Byte): Byte {
    if b.b0 then a else ZERO
  }

  /** The product: the XOR of a * x^i over the bits i of b. */
  function Mul(a: Byte, b: Byte): Byte
    decreases Bits(b)
  {
    if b == ZERO then ZERO else Xor(Low(a, b), Mul(Double(a), Shr(b)))
  }

  lemma XorAssoc(p: Byte, q: Byte, r: Byte)
    ensures Xor(p, Xor(q, r)) == Xor(Xor(p, q), r)
  {}

  lemma XorLaws(p: Byte, q: Byte)
    ensures Xor(p, q) == Xor(q, p)
    ensures Xor(p, p) == ZERO
    ensures Xor(p, ZERO) == p == Xor(ZERO, p)
  {}

  /** Equal sums: the last law of a group of exponent two. */
  lemma XorZero(p: Byte, q: Byte)
    ensures Xor(p, q) == ZERO <==> p == q
  {}

  lemma Xor4(p: Byte, q: Byte, r: Byte, s: Byte)
    ensures Xor(Xor(p, q), Xor(r, s)) == Xor(Xor(p, r), Xor(q, s))
  {}

  method GfMul(a0: Byte, b0: Byte) returns (p: Byte)
    ensures p == Mul(a0, b0)
  {
    hide Xor, Mul, Double, Low;
    var a, b := a0, b0;
    p := ZERO;
    XorLaws(p, Mul(a, b));
    XorLaws(Mul(a, b), ZERO);
    while b != ZERO
      invariant Xor(p, Mul(a, b)) == Mul(a0, b0)
      decreases Bits(b)
    {
      MulStep(a, b);
      XorAssoc(p, Low(a, b), Mul(Double(a), Shr(b)));
      XorLaws(p, ZERO);
      LoopStep(a, b);
      if b.b0 {
        p := Xor(p, a);
      }
      var carry := a.b7;
      a := Shl(a);
      if carry {
        a := Xor(a, POLY);
      }
      b := Shr(b);
    }
    MulStop(a);
    XorLaws(p, ZERO);
  }

  lemma MulStop(a: Byte)
    ensures Mul(a, ZERO) == ZERO
  {}

  lemma LoopStep(a: Byte, b: Byte)
    ensures Low(a, b) == if b.b0 then a else ZERO
    ensures Double(a) == if a.b7 then Xor(Shl(a), POLY) else Shl(a)
    ensures b != ZERO ==> Bits(Shr(b)) < Bits(b)
  {}

  // ----- Bilinearity

  lemma DoubleBits(a: Byte)
    ensures Double(a) == Byte(a.b7, a.b0, a.b1 != a.b7, a.b2 != a.b7, a.b3 != a.b7, a.b4, a.b5, a.b6)
  {}

  lemma DoubleXor(a: Byte, c: Byte)
    ensures Double(Xor(a, c)) == Xor(Double(a), Double(c))
  {
    hide Double;
    DoubleBits(a);
    DoubleBits(c);
    DoubleBits(Xor(a, c));
  }

  lemma LowXorLeft(a: Byte, c: Byte, b: Byte)
    ensures Low(Xor(a, c), b) == Xor(Low(a, b), Low(c, b))
  {}

  lemma LowXorRight(a: Byte, b: Byte, d: Byte)
    ensures Low(a, Xor(b, d)) == Xor(Low(a, b), Low(a, d))
  {}

  lemma ShrXor(b: Byte, c: Byte)
    ensures Shr(Xor(b, c)) == Xor(Shr(b), Shr(c))
  {}

  lemma MulStep(a: Byte, b: Byte)
    ensures Mul(a, b) == Xor(Low(a, b), Mul(Double(a), Shr(b)))
  {}

  lemma {:induction false} MulXorLeft(a: Byte, c: Byte, b: Byte)
    ensures Mul(Xor(a, c), b) == Xor(Mul(a, b), Mul(c, b))
    decreases Bits(b)
  {
    if b == ZERO {
      hide Double, Low;
    } else {
      hide Xor, Mul, Double, Low;
      LoopStep(a, b);
      DoubleXor(a, c);
      LowXorLeft(a, c, b);
      MulXorLeft(Double(a), Double(c), Shr(b));
      MulStep(a, b);
      MulStep(c, b);
      MulStep(Xor(a, c), b);
      Xor4(Low(a, b), Low(c, b), Mul(Double(a), Shr(b)), Mul(Double(c), Shr(b)));
    }
  }

  lemma {:induction false} MulXorRight(a: Byte, b: Byte, c: Byte)
    ensures Mul(a, Xor(b, c)) == Xor(Mul(a, b), Mul(a, c))
    decreases Bits(b) + Bits(c)
  {
    if b == ZERO && c == ZERO {
      hide Double, Low;
    } else {
      hide Xor, Mul, Double, Low;
      LoopStep(a, b);
      LoopStep(a, c);
      MulXorRight(Double(a), Shr(b), Shr(c));
      ShrXor(b, c);
      LowXorRight(a, b, c);
      MulStep(a, b);
      MulStep(a, c);
      MulStep(a, Xor(b, c));
      Xor4(Low(a, b), Low(a, c), Mul(Double(a), Shr(b)), Mul(Double(a), Shr(c)));
    }
  }

  lemma {:induction false} MulDoubleLeft(a: Byte, b: Byte)
    ensures Mul(Double(a), b) == Double(Mul(a, b))
    decreases Bits(b)
  {
    if b != ZERO {
      hide Xor, Mul, Double, Low;
      LoopStep(a, b);
      MulDoubleLeft(Double(a), Shr(b));
      DoubleXor(Low(a, b), Mul(Double(a), Shr(b)));
      MulStep(a, b);
      MulStep(Double(a), b);
      DoubleLow(a, b);
    }
  }

  lemma DoubleLow(a: Byte, b: Byte)
    ensures Low(Double(a), b) == Double(Low(a, b))
  {}

  // ----- Ring laws

  lemma MulZero(a: Byte)
    ensures Mul(a, ZERO) == ZERO == Mul(ZERO, a)
  {
    hide Mul, Xor;
    MulStop(a);
    MulXorLeft(ZERO, ZERO, a);
    XorLaws(ZERO, ZERO);
    XorLaws(Mul(ZERO, a), ZERO);
  }

  lemma MulOneRight(a: Byte)
    ensures Mul(a, ONE) == a
  {
    hide Mul, Xor;
    MulStep(a, ONE);
    MulStop(Double(a));
    XorLaws(a, ZERO);
  }

  /** Moving one factor x from the right operand to the left. */
  lemma MulShl(a: Byte, b: Byte)
    requires !b.b7
    ensures Mul(a, Shl(b)) == Mul(Double(a), b)
  {
    hide Mul, Xor, Double;
    MulStep(a, Shl(b));
    assert Shr(Shl(b)) == b;
    XorLaws(Mul(Double(a), b), ZERO);
  }

  /** x^n, for n below 8. */
  function Monomial(n: nat): Byte {
    Byte(n == 0, n == 1, n == 2, n == 3, n == 4, n == 5, n == 6, n == 7)
  }

  function Doubled(a: Byte, n: nat): Byte {
    if n == 0 then a else Double(Doubled(a, n - 1))
  }

  lemma DoubledIn(a: Byte, n: nat)
    ensures Doubled(a, n + 1) == Doubled(Double(a), n)
  {
  }

  lemma MulMonomial(a: Byte, n: nat)
    requires n < 8
    decreases n
    ensures Mul(a, Monomial(n)) == Doubled(a, n)
  {
    hide Mul, Double;
    if n == 0 {
      MulOneRight(a);
    } else {
      assert Monomial(n) == Shl(Monomial(n - 1));
      MulShl(a, Monomial(n - 1));
      MulMonomial(Double(a), n - 1);
      DoubledIn(a, n - 1);
    }
  }

  /** x^8 = x^4 + x^3 + x^2 + 1: a carry out of the top bit is worth POLY. */
  lemma Reduction(a: Byte)
    ensures Mul(Double(a), Monomial(7)) == Mul(a, POLY)
  {
    hide Mul, Xor, Double;
    MulMonomial(Double(a), 7);
    DoubledIn(a, 7);
    MulByPoly(a);
    EightDoubles(a);
    DoubledOut(a, 7);
  }

  lemma MulByPoly(a: Byte)
    ensures Mul(a, POLY) == Xor(Xor(a, Doubled(a, 2)), Xor(Doubled(a, 3), Doubled(a, 4)))
  {
    var x2, x3, x4 := Monomial(2), Monomial(3), Monomial(4);
    assert POLY == Xor(Xor(ONE, x2), Xor(x3, x4));
    hide Mul, Xor, Double;
    MulXorRight(a, Xor(ONE, x2), Xor(x3, x4));
    MulXorRight(a, ONE, x2);
    MulXorRight(a, x3, x4);
    MulOneRight(a);
    MulMonomial(a, 2);
    MulMonomial(a, 3);
    MulMonomial(a, 4);
  }

  // Both sides of x^8 = 1 + x^2 + x^3 + x^4 are linear and commute with doubling, so the case a = 1 decides.

  lemma {:induction false} DoubledXor(a: Byte, c: Byte, n: nat)
    ensures Doubled(Xor(a, c), n) == Xor(Doubled(a, n), Doubled(c, n))
  {
    hide Double, Xor;
    if n > 0 {
      DoubledXor(a, c, n - 1);
      DoubleXor(Doubled(a, n - 1), Doubled(c, n - 1));
    }
  }

  function Reduced8(a: Byte): Byte {
    Xor(Xor(a, Doubled(a, 2)), Xor(Doubled(a, 3), Doubled(a, 4)))
  }

  lemma Reduced8Xor(a: Byte, c: Byte)
    ensures Reduced8(Xor(a, c)) == Xor(Reduced8(a), Reduced8(c))
  {
    hide Double, Doubled, Xor;
    DoubledXor(a, c, 2);
    DoubledXor(a, c, 3);
    DoubledXor(a, c, 4);
    Xor4(a, c, Doubled(a, 2), Doubled(c, 2));
    Xor4(Doubled(a, 3), Doubled(c, 3), Doubled(a, 4), Doubled(c, 4));
    Xor4(Xor(a, Doubled(a, 2)), Xor(c, Doubled(c, 2)), Xor(Doubled(a, 3), Doubled(a, 4)), Xor(Doubled(c, 3), Doubled(c, 4)));
  }

  lemma Reduced8Double(a: Byte)
    ensures Reduced8(Double(a)) == Double(Reduced8(a))
  {
    hide Double, Xor;
    DoubledIn(a, 2);
    DoubledIn(a, 3);
    DoubledIn(a, 4);
    assert Doubled(a, 3) == Double(Doubled(a, 2)) && Doubled(a, 4) == Double(Doubled(a, 3)) && Doubled(a, 5) == Double(Doubled(a, 4));
    hide Doubled;
    DoubleXor(a, Doubled(a, 2));
    DoubleXor(Doubled(a, 3), Doubled(a, 4));
    DoubleXor(Xor(a, Doubled(a, 2)), Xor(Doubled(a, 3), Doubled(a, 4)));
  }

  lemma EightOfOne()
    ensures Doubled(ONE, 8) == Reduced8(ONE) && Doubled(ZERO, 8) == ZERO == Reduced8(ZERO)
  {}

  lemma {:induction false} EightDoubles(a: Byte)
    ensures Doubled(a, 8) == Reduced8(a)
    decreases Bits(a)
  {
    if a == ZERO {
      EightOfOne();
    } else {
      hide Double, Doubled, Xor, Reduced8, Low;
      LoopStep(ONE, a);
      SplitLow(a);
      EightOfOne();
      var low, rest := Low(ONE, a), Shr(a);
      EightDoubles(rest);
      DoubledXor(low, Double(rest), 8);
      Reduced8Xor(low, Double(rest));
      Reduced8Double(rest);
      DoubledIn(rest, 8);
      DoubledOut(rest, 8);
    }
  }

  lemma DoubledOut(a: Byte, n: nat)
    ensures Doubled(a, n + 1) == Double(Doubled(a, n))
  {}

  lemma ClearTop(b: Byte)
    requires b.b7
    ensures Shl(b) == Shl(Xor(b, Monomial(7))) && !Xor(b, Monomial(7)).b7
    ensures Xor(Xor(b, Monomial(7)), Monomial(7)) == b
  {}

  lemma MulDoubleRight(a: Byte, b: Byte)
    ensures Mul(a, Double(b)) == Double(Mul(a, b))
  {
    hide Mul, Xor, Double, Monomial, Shl;
    LoopStep(b, b);
    MulDoubleLeft(a, b);
    if b.b7 {
      ClearTop(b);
      var low := Xor(b, Monomial(7));
      MulXorRight(a, Shl(b), POLY);
      MulShl(a, low);
      MulXorRight(Double(a), low, Monomial(7));
      Reduction(a);
    } else {
      MulShl(a, b);
    }
  }

  /** The bits of b, low bit first: b = b0 + x * (b >> 1). */
  lemma SplitLow(b: Byte)
    ensures b == Xor(Low(ONE, b), Double(Shr(b)))
  {}

  lemma {:induction false} MulOneLeft(b: Byte)
    ensures Mul(ONE, b) == b
    decreases Bits(b)
  {
    if b == ZERO {
      MulStop(ONE);
    } else {
      hide Mul, Xor, Double, Low;
      LoopStep(ONE, b);
      MulStep(ONE, b);
      MulDoubleLeft(ONE, Shr(b));
      MulOneLeft(Shr(b));
      SplitLow(b);
    }
  }

  lemma MulLow(a: Byte, b: Byte)
    ensures Mul(Low(ONE, b), a) == Low(a, b)
  {
    MulOneLeft(a);
    MulZero(a);
    hide Mul;
  }

  lemma {:induction false} MulComm(a: Byte, b: Byte)
    ensures Mul(a, b) == Mul(b, a)
    decreases Bits(b)
  {
    if b == ZERO {
      MulZero(a);
    } else {
      hide Mul, Xor, Double, Low;
      LoopStep(a, b);
      MulStep(a, b);
      SplitLow(b);
      MulXorLeft(Low(ONE, b), Double(Shr(b)), a);
      MulLow(a, b);
      MulDoubleLeft(Shr(b), a);
      MulDoubleLeft(a, Shr(b));
      MulComm(a, Shr(b));
    }
  }

  lemma LowMul(a: Byte, b: Byte, c: Byte)
    ensures Low(Mul(a, b), c) == Mul(a, Low(b, c))
  {
    MulZero(a);
    hide Mul;
  }

  lemma {:induction false} MulAssoc(a: Byte, b: Byte, c: Byte)
    ensures Mul(a, Mul(b, c)) == Mul(Mul(a, b), c)
    decreases Bits(c)
  {
    if c == ZERO {
      MulZero(a);
      MulZero(b);
      MulZero(Mul(a, b));
    } else {
      hide Mul, Xor, Double, Low;
      LoopStep(b, c);
      MulStep(b, c);
      MulXorRight(a, Low(b, c), Mul(Double(b), Shr(c)));
      MulAssoc(a, Double(b), Shr(c));
      MulStep(Mul(a, b), c);
      LowMul(a, b, c);
      MulDoubleRight(a, b);
    }
  }
}
