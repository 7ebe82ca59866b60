/** Powers in GF(2^8): 2 generates the 255 nonzero elements, so a^254 is the inverse of a. */
module GfPowers {
  import opened Cardinals
  import opened Gf256

  const TWO := Byte(false, true, false, false, false, false, false, false)
  const FOUR := Byte(false, false, true, false, false, false, false, false)

  function Pow(a: Byte, e: nat): Byte {
    if e == 0 then ONE else Mul(Pow(a, e - 1), a)
  }

  lemma {:induction false} PowAdd(a: Byte, m: nat, n: nat)
    ensures Pow(a, m + n) == Mul(Pow(a, m), Pow(a, n))
  {
    hide Mul;
    if n == 0 {
      MulOneRight(Pow(a, m));
    } else {
      PowAdd(a, m, n - 1);
      MulAssoc(Pow(a, m), Pow(a, n - 1), a);
    }
  }

  lemma {:induction false} PowMul(a: Byte, m: nat, n: nat)
    ensures Pow(a, m * n) == Pow(Pow(a, m), n)
  {
    hide Mul;
    if n > 0 {
      PowMul(a, m, n - 1);
      assert m * n == m * (n - 1) + m;
      PowAdd(a, m * (n - 1), m);
    }
  }

  lemma {:induction false} PowOne(n: nat)
    ensures Pow(ONE, n) == ONE
  {
    hide Mul;
    if n > 0 {
      PowOne(n - 1);
      MulOneRight(ONE);
    }
  }

  method GfPow(base: Byte, exp: nat) returns (result: Byte)
    ensures result == Pow(base, exp)
  {
    hide Mul;
    result := ONE;
    var b, e := base, exp;
    MulOneLeft(Pow(b, e));
    while e > 0
      invariant Mul(result, Pow(b, e)) == Pow(base, exp)
    {
      assert e == 2 * (e / 2) + e % 2;
      Halve(b, e);
      MulAssoc(result, b, Pow(Mul(b, b), e / 2));
      if e % 2 != 0 {
        result := GfMul(result, b);
      }
      b := GfMul(b, b);
      e := e / 2;
    }
    MulOneRight(result);
  }

  /** One step of square-and-multiply. */
  lemma Halve(b: Byte, e: nat)
    ensures Pow(b, e) == if e % 2 == 0 then Pow(Mul(b, b), e / 2) else Mul(b, Pow(Mul(b, b), e / 2))
  {
    hide Mul;
    PowTwo(b);
    PowMul(b, 2, e / 2);
    if e % 2 != 0 {
      PowAdd(b, 1, 2 * (e / 2));
      PowFirst(b);
    }
  }

  lemma PowFirst(b: Byte)
    ensures Pow(b, 1) == b
  {
    hide Mul;
    MulOneLeft(b);
    assert Pow(b, 0) == ONE;
  }

  lemma PowTwo(b: Byte)
    ensures Pow(b, 2) == Mul(b, b)
  {
    hide Mul;
    PowFirst(b);
  }

  // ----- The order of 2

  /** Number of nonzero elements, which is the order of 2. */
  const ORDER: nat := 255

  lemma ChainTo5()
    // 2^1 * 2^1 == 2^2
    ensures Mul(Byte(false, true, false, false, false, false, false, false),
                Byte(false, true, false, false, false, false, false, false))
         == Byte(false, false, true, false, false, false, false, false)
    // 2^2 * 2^2 == 2^4
    ensures Mul(Byte(false, false, true, false, false, false, false, false),
                Byte(false, false, true, false, false, false, false, false))
         == Byte(false, false, false, false, true, false, false, false)
    // 2^4 * 2^1 == 2^5
    ensures Mul(Byte(false, false, false, false, true, false, false, false),
                Byte(false, true, false, false, false, false, false, false))
         == Byte(false, false, false, false, false, true, false, false)
  {}

  lemma ChainTo15()
    // 2^5 * 2^5 == 2^10
    ensures Mul(Byte(false, false, false, false, false, true, false, false),
                Byte(false, false, false, false, false, true, false, false))
         == Byte(false, false, true, false, true, true, true, false)
    // 2^10 * 2^5 == 2^15
    ensures Mul(Byte(false, false, true, false, true, true, true, false),
                Byte(false, false, false, false, false, true, false, false))
         == Byte(false, true, true, false, false, true, false, false)
  {}

  lemma ChainTo34()
    // 2^15 * 2^2 == 2^17
    ensures Mul(Byte(false, true, true, false, false, true, false, false),
                Byte(false, false, true, false, false, false, false, false))
         == Byte(false, false, false, true, true, false, false, true)
    // 2^17 * 2^17 == 2^34
    ensures Mul(Byte(false, false, false, true, true, false, false, true),
                Byte(false, false, false, true, true, false, false, true))
         == Byte(false, true, true, true, false, false, true, false)
  {}

  lemma ChainTo85()
    // 2^34 * 2^17 == 2^51
    ensures Mul(Byte(false, true, true, true, false, false, true, false),
                Byte(false, false, false, true, true, false, false, true))
         == Byte(false, true, false, true, false, false, false, false)
    // 2^51 * 2^34 == 2^85
    ensures Mul(Byte(false, true, false, true, false, false, false, false),
                Byte(false, true, true, true, false, false, true, false))
         == Byte(false, true, true, false, true, false, true, true)
  {}

  lemma ChainTo255()
    // 2^85 * 2^85 == 2^170
    ensures Mul(Byte(false, true, true, false, true, false, true, true),
                Byte(false, true, true, false, true, false, true, true))
         == Byte(true, true, true, false, true, false, true, true)
    // 2^170 * 2^85 == 1
    ensures Mul(Byte(true, true, true, false, true, false, true, true),
                Byte(false, true, true, false, true, false, true, true))
         == ONE
  {}

  /** Of these exponents, one of which every proper divisor of 255 divides, only 255 gives 1. */
  lemma PowersOfTwo(n: nat)
    requires n == 15 || n == 51 || n == 85 || n == ORDER
    ensures (Pow(TWO, n) == ONE) == (n == ORDER)
  {
    hide Mul, Pow;
    ChainTo5();
    ChainTo15();
    ChainTo34();
    ChainTo85();
    ChainTo255();
    PowFirst(TWO);
    PowAdd(TWO, 1, 1);
    PowAdd(TWO, 2, 2);
    PowAdd(TWO, 4, 1);
    PowAdd(TWO, 5, 5);
    PowAdd(TWO, 10, 5);
    PowAdd(TWO, 15, 2);
    PowAdd(TWO, 17, 17);
    PowAdd(TWO, 34, 17);
    PowAdd(TWO, 51, 34);
    PowAdd(TWO, 85, 85);
    PowAdd(TWO, 170, 85);
  }

  /** The exponent can be reduced modulo any period. */
  lemma PowMod(a: Byte, m: nat, p: nat)
    requires p > 0 && Pow(a, p) == ONE
    ensures Pow(a, m) == Pow(a, m % p)
  {
    hide Mul;
    assert m == p * (m / p) + m % p;
    PowAdd(a, p * (m / p), m % p);
    PowMul(a, p, m / p);
    PowOne(m / p);
    MulOneLeft(Pow(a, m % p));
  }

  /** If 2^d = 1 then 2^g = 1 for a divisor g of 255 no larger than d. */
  lemma Period(d: nat) returns (g: nat)
    requires 0 < d && Pow(TWO, d) == ONE
    ensures 0 < g <= d && 255 % g == 0 && Pow(TWO, g) == ONE
  {
    hide Pow;
    if 255 % d == 0 {
      g := d;
    } else {
      PowersOfTwo(255);
      PowMod(TWO, 255, d);
      g := Period(255 % d);
    }
  }

  lemma ProperDivisors(g: nat)
    requires 0 < g < 255 && 255 % g == 0
    ensures 85 % g == 0 || 51 % g == 0 || 15 % g == 0
  {
    var q := 255 / g;
    assert g * q == 255;
    if g <= 15 {
      assert g in {1, 2, 3, 4, 5, 6, 7, 8, 9, 10, 11, 12, 13, 14, 15};
    } else {
      assert q <= 15 by {
        assert 16 * q <= g * q;
      }
      assert q in {2, 3, 4, 5, 6, 7, 8, 9, 10, 11, 12, 13, 14, 15};
    }
  }

  lemma OrderOfTwo(d: nat)
    requires 0 < d < 255
    ensures Pow(TWO, d) != ONE
  {
    hide Pow;
    if Pow(TWO, d) == ONE {
      var g := Period(d);
      ProperDivisors(g);
      var m := if 85 % g == 0 then 85 else if 51 % g == 0 then 51 else 15;
      PowersOfTwo(m);
      PowMod(TWO, m, g);
      PowZero(TWO);
      assert false;
    }
  }

  lemma PowZero(a: Byte)
    ensures Pow(a, 0) == ONE
  {}

  lemma PowersBelow(m: nat, n: nat)
    requires m < n < 255
    ensures Pow(TWO, m) != Pow(TWO, n)
  {
    hide Pow, Mul;
    if Pow(TWO, m) == Pow(TWO, n) {
      // 2^(n-m) = 2^n * 2^(255-m) = 2^m * 2^(255-m) = 1
      PowersOfTwo(255);
      PowAdd(TWO, n, 255 - m);
      PowAdd(TWO, m, 255 - m);
      PowMod(TWO, n + (255 - m), 255);
      OrderOfTwo(n - m);
      assert false;
    }
  }

  /** 2^i = 2^j exactly when i and j agree modulo 255. */
  lemma PowTwoInjective(i: nat, j: nat)
    ensures Pow(TWO, i) == Pow(TWO, j) <==> i % 255 == j % 255
  {
    hide Pow, Mul;
    PowersOfTwo(255);
    PowMod(TWO, i, 255);
    PowMod(TWO, j, 255);
    if i % 255 < j % 255 {
      PowersBelow(i % 255, j % 255);
    } else if j % 255 < i % 255 {
      PowersBelow(j % 255, i % 255);
    }
  }

  lemma PowTwoNonzero(i: nat)
    ensures Pow(TWO, i) != ZERO
  {
    hide Pow, Mul;
    PowersOfTwo(255);
    PowMod(TWO, i, 255);
    PowAdd(TWO, i % 255, 255 - i % 255);
    MulZero(Pow(TWO, 255 - i % 255));
  }

  // ----- Every nonzero element is a power of 2: there are 255 of each

  function Val(a: Byte): nat {
    (if a.b0 then 1 else 0) + (if a.b1 then 2 else 0) + (if a.b2 then 4 else 0) + (if a.b3 then 8 else 0)
    + (if a.b4 then 16 else 0) + (if a.b5 then 32 else 0) + (if a.b6 then 64 else 0) + (if a.b7 then 128 else 0)
  }

  lemma ValInjective(a: Byte, b: Byte)
    requires Val(a) == Val(b)
    ensures a == b
  {}

  ghost function PowerValues(n: nat): set<nat> {
    if n == 0 then {} else PowerValues(n - 1) + {Val(Pow(TWO, n - 1))}
  }

  ghost function UpTo(n: nat): set<nat> {
    if n == 0 then {} else UpTo(n - 1) + {n}
  }

  lemma {:induction false} UpToSize(n: nat)
    ensures |UpTo(n)| == n && forall x :: x in UpTo(n) <==> 1 <= x <= n
  {
    if n > 0 { UpToSize(n - 1); }
  }

  ghost predicate IsPowerValue(v: nat, n: nat) {
    exists k: nat :: k < n && Val(Pow(TWO, k)) == v
  }

  lemma {:induction false} PowerValuesAre(n: nat, v: nat)
    requires v in PowerValues(n)
    ensures IsPowerValue(v, n)
  {
    hide Pow, Val;
    if v != Val(Pow(TWO, n - 1)) {
      PowerValuesAre(n - 1, v);
    }
  }

  lemma {:induction false} PowerValuesSize(n: nat)
    requires n <= 255
    ensures |PowerValues(n)| == n && PowerValues(n) <= UpTo(255)
  {
    hide Pow, Val, UpTo;
    if n > 0 {
      PowerValuesSize(n - 1);
      NewPowerValue(n - 1);
    }
  }

  /** The next power is a nonzero byte not seen before. */
  lemma NewPowerValue(n: nat)
    requires n < 255
    ensures Val(Pow(TWO, n)) !in PowerValues(n) && Val(Pow(TWO, n)) in UpTo(255)
  {
    hide Pow, Val, UpTo, PowerValues, IsPowerValue;
    UpToSize(255);
    var v := Val(Pow(TWO, n));
    PowTwoNonzero(n);
    ValRange(Pow(TWO, n));
    if v in PowerValues(n) {
      PowerValuesAre(n, v);
      var k := EarlierPower(v, n);
      ValInjective(Pow(TWO, k), Pow(TWO, n));
      PowTwoInjective(k, n);
    }
  }

  lemma EarlierPower(v: nat, n: nat) returns (k: nat)
    requires IsPowerValue(v, n)
    ensures k < n && Val(Pow(TWO, k)) == v
  {
    hide Pow, Val;
    k :| k < n && Val(Pow(TWO, k)) == v;
  }

  lemma ValRange(a: Byte)
    requires a != ZERO
    ensures 1 <= Val(a) <= 255
  {}

  lemma Logarithm(a: Byte) returns (k: nat)
    requires a != ZERO
    ensures k < 255 && Pow(TWO, k) == a
  {
    hide Pow, Val, PowerValues, UpTo;
    PowerValuesSize(255);
    UpToSize(255);
    ValRange(a);
    SubsetOfEqualSize(PowerValues(255), UpTo(255));
    PowerValuesAre(255, Val(a));
    k := EarlierPower(Val(a), 255);
    ValInjective(Pow(TWO, k), a);
  }

  // ----- Inverses

  function Inv(a: Byte): Byte {
    Pow(a, ORDER - 1)
  }

  lemma MulInv(a: Byte)
    requires a != ZERO
    ensures Mul(a, Inv(a)) == ONE == Mul(Inv(a), a)
    ensures Inv(a) != ZERO
  {
    hide Mul;
    var k := Logarithm(a);
    PowMul(TWO, k, ORDER);
    PowMul(TWO, ORDER, k);
    PowersOfTwo(ORDER);
    PowOne(k);
    assert k * ORDER == ORDER * k;
    assert Pow(a, ORDER) == Mul(Pow(a, ORDER - 1), a);
    MulComm(a, Inv(a));
    MulZero(a);
  }

  method GfInv(a: Byte) returns (r: Byte)
    ensures a != ZERO ==> Mul(a, r) == ONE
    ensures r == Inv(a)
  {
    r := GfPow(a, ORDER - 1);
    if a != ZERO {
      MulInv(a);
    }
  }

  lemma NoZeroDivisors(a: Byte, b: Byte)
    requires Mul(a, b) == ZERO
    ensures a == ZERO || b == ZERO
  {
    hide Mul, Inv;
    if a != ZERO {
      MulInv(a);
      MulAssoc(Inv(a), a, b);
      MulOneLeft(b);
      MulZero(Inv(a));
    }
  }

  // ----- The three parity rows as powers of the column's 2-power

  lemma PowFour(e: nat)
    ensures Pow(FOUR, e) == Mul(Pow(TWO, e), Pow(TWO, e))
  {
    hide Mul, Pow;
    ChainTo5();
    PowFirst(TWO);
    PowAdd(TWO, 1, 1);
    PowMul(TWO, 2, e);
    PowAdd(TWO, e, e);
  }
}
