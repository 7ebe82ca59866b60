/** Division facts the layouts share. */
module Arith {

  function Pow2(n: nat): (p: nat)
    ensures p > 0
  {
    if n == 0 then 1 else 2 * Pow2(n - 1)
  }

  lemma DoubleProduct(a: nat, b: nat)
    ensures (2 * a) * b == 2 * (a * b)
  {}

  lemma Pow2Next(n: nat)
    requires n > 0
    ensures Pow2(n) == 2 * Pow2(n - 1)
  {}

  lemma {:induction false} Pow2Add(m: nat, n: nat)
    ensures Pow2(m + n) == Pow2(m) * Pow2(n)
  {
    if m > 0 {
      Pow2Add(m - 1, n);
      hide Pow2;
      Pow2Next(m);
      Pow2Next(m + n);
      DoubleProduct(Pow2(m - 1), Pow2(n));
    }
  }

  function Min(a: nat, b: nat): nat { if a < b then a else b }

  function Max(a: nat, b: nat): nat { if a > b then a else b }

  // The operations by name: layouts are stated with them, so that proofs can keep products and
  // quotients of variables folded and unfold them one lemma at a time.

  function Times(a: nat, b: nat): nat { a * b }

  function Quot(a: nat, d: nat): nat
    requires d > 0
  { a / d }

  function Rem(a: nat, d: nat): (r: nat)
    requires d > 0
    ensures r < d
  { a % d }

  /** Quotient rounded up. */
  function CeilDiv(a: nat, d: nat): nat
    requires d > 0
  {
    (a + d - 1) / d
  }

  lemma MulMono(a: int, b: int, d: int)
    requires a <= b && d >= 0
    ensures a * d <= b * d
  {}

  /** Quotient and remainder are determined by the product form. */
  lemma DivIs(a: int, d: int, q: int, r: int)
    requires d > 0 && a == q * d + r && 0 <= r < d
    ensures a / d == q && a % d == r
  {
    var q', r' := a / d, a % d;
    assert a == q' * d + r';
    assert (q' + 1) * d == q' * d + d && (q + 1) * d == q * d + d;
    if q' < q {
      MulMono(q' + 1, q, d);
    } else if q < q' {
      MulMono(q + 1, q', d);
    }
  }

  lemma CeilDivIs(a: nat, d: nat, q: nat)
    requires d > 0 && a <= q * d < a + d
    ensures CeilDiv(a, d) == q
  {
    DivIs(a + d - 1, d, q, a + d - 1 - q * d);
  }

  lemma CeilDivBounds(a: nat, d: nat)
    requires d > 0
    ensures a <= CeilDiv(a, d) * d < a + d
  {
    var q := CeilDiv(a, d);
    assert a + d - 1 == q * d + (a + d - 1) % d;
  }

  lemma CeilDivScaled(a: nat, d: nat, u: nat)
    requires d > 0 && u > 0
    ensures d * u > 0 && CeilDiv(a * u, d * u) == CeilDiv(a, d)
  {
    var q := CeilDiv(a, d);
    CeilDivBounds(a, d);
    assert d * u > 0 by { MulMono(1, d, u); }
    assert q * (d * u) == (q * d) * u;
    MulMono(a, q * d, u);
    MulMono(q * d + 1, a + d, u);
    assert (a + d) * u == a * u + d * u && (q * d + 1) * u == (q * d) * u + u;
    CeilDivIs(a * u, d * u, q);
  }

  lemma TimesOrder(a: nat, b: nat, unit: nat)
    requires unit > 0
    ensures Times(a, unit) < Times(b, unit) <==> a < b
    ensures Times(a, unit) == Times(b, unit) <==> a == b
  {
    if a < b { MulMono(a + 1, b, unit); } else { MulMono(b, a, unit); if b < a { MulMono(b + 1, a, unit); } }
  }

  lemma QuotRem(a: nat, d: nat)
    requires d > 0
    ensures a == Times(Quot(a, d), d) + Rem(a, d)
  {}

  lemma QuotRemIs(q: nat, d: nat, r: nat)
    requires r < d
    ensures Quot(Times(q, d) + r, d) == q && Rem(Times(q, d) + r, d) == r
  {
    DivIs(q * d + r, d, q, r);
  }

  lemma QuotRemUnique(q: nat, r: nat, q': nat, r': nat, d: nat)
    requires r < d && r' < d && Times(q, d) + r == Times(q', d) + r'
    ensures q == q' && r == r'
  {
    hide Times, Quot, Rem;
    QuotRemIs(q, d, r);
    QuotRemIs(q', d, r');
  }

  /** A number below rows * d lies in one of the rows. */
  lemma QuotBelow(u: nat, rows: nat, d: nat)
    requires d > 0 && u < Times(rows, d)
    ensures Quot(u, d) < rows
  {
    var v := u / d;
    assert u == v * d + u % d;
    if v >= rows { MulMono(rows, v, d); }
  }

  lemma BelowTimes(g: nat, n: nat, d: nat, r: nat)
    requires g < n && r < d
    ensures Times(g, d) + r < Times(n, d)
  {
    MulMono(g + 1, n, d);
    assert (g + 1) * d == g * d + d;
  }

  lemma QuotAdd(a: nat, u: nat, d: nat)
    requires d > 0
    ensures Quot(Times(a, d) + u, d) == a + Quot(u, d) && Rem(Times(a, d) + u, d) == Rem(u, d)
  {
    QuotRem(u, d);
    TimesAdd(a, Quot(u, d), d);
    hide Times, Quot, Rem;
    QuotRemIs(a + Quot(u, d), d, Rem(u, d));
  }

  lemma TimesAdd(a: nat, b: nat, d: nat)
    ensures Times(a + b, d) == Times(a, d) + Times(b, d)
    ensures Times(0, d) == 0 && Times(1, d) == d
  {}

  lemma TimesAssoc(a: nat, b: nat, c: nat)
    ensures Times(Times(a, b), c) == Times(a, Times(b, c))
  {}

  lemma TimesComm(a: nat, b: nat)
    ensures Times(a, b) == Times(b, a)
  {}

  lemma TimesPositive(a: nat, b: nat)
    requires a > 0 && b > 0
    ensures Times(a, b) > 0
  {}

  /** Dividing in two steps, and the middle digit. */
  lemma QuotQuot(a: nat, b: nat, c: nat)
    requires b > 0 && c > 0
    ensures Times(c, b) > 0
    ensures Quot(a, Times(c, b)) == Quot(Quot(a, b), c)
    ensures Quot(Rem(a, Times(c, b)), b) == Rem(Quot(a, b), c)
  {
    hide Times, Quot, Rem;
    var v, i := Quot(a, b), Rem(a, b);
    var g, w := Quot(v, c), Rem(v, c);
    TimesPositive(c, b);
    QuotRem(a, b);
    QuotRem(v, c);
    TimesAdd(Times(g, c), w, b);
    TimesAssoc(g, c, b);
    BelowTimes(w, c, b, i);
    QuotRemIs(g, Times(c, b), Times(w, b) + i);
    QuotRemIs(w, b, i);
  }

  /** A common factor cancels. */
  lemma QuotCancel(a: nat, d: nat, u: nat)
    requires d > 0 && u > 0
    ensures Times(d, u) > 0 && Quot(Times(a, u), Times(d, u)) == Quot(a, d) && Quot(Times(a, u), u) == a
  {
    hide Times, Quot, Rem;
    TimesPositive(d, u);
    QuotRem(a, d);
    TimesAdd(Times(Quot(a, d), d), Rem(a, d), u);
    TimesAssoc(Quot(a, d), d, u);
    BelowTimes(Rem(a, d), d, u, 0);
    QuotRemIs(Quot(a, d), Times(d, u), Times(Rem(a, d), u));
    QuotRemIs(a, u, 0);
  }

  /** Numbers less than d apart differ modulo d. */
  lemma RemDiffers(s: nat, s': nat, d: nat)
    requires d > 0 && s != s' && s < s' + d && s' < s + d
    ensures Rem(s, d) != Rem(s', d)
  {
    hide Times, Quot, Rem;
    var q, q' := Quot(s, d), Quot(s', d);
    QuotRem(s, d);
    QuotRem(s', d);
    if q < q' {
      TimesAdd(q, 1, d);
      TimesOrder(q', q + 1, d);
    } else if q' < q {
      TimesAdd(q', 1, d);
      TimesOrder(q, q' + 1, d);
    }
  }
}
