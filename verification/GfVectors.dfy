/** Vectors and matrices over GF(2^8). */
module GfVectors {
  import opened Gf256

  type Vec = seq<Byte>

  function Zeros(n: nat): (z: Vec)
    ensures |z| == n && forall i :: 0 <= i < n ==> z[i] == ZERO
  {
    seq(n, i => ZERO)
  }

  function Unit(n: nat, k: nat): (e: Vec)
    ensures |e| == n && forall i :: 0 <= i < n ==> e[i] == if i == k then ONE else ZERO
  {
    seq(n, i => if i == k then ONE else ZERO)
  }

  function Add(u: Vec, v: Vec): (w: Vec)
    requires |u| == |v|
    ensures |w| == |u| && forall i :: 0 <= i < |u| ==> w[i] == Xor(u[i], v[i])
  {
    seq(|u|, i requires 0 <= i < |u| => Xor(u[i], v[i]))
  }

  function Scale(f: Byte, u: Vec): (w: Vec)
    ensures |w| == |u| && forall i :: 0 <= i < |u| ==> w[i] == Mul(f, u[i])
  {
    seq(|u|, i requires 0 <= i < |u| => Mul(f, u[i]))
  }

  function Dot(u: Vec, v: Vec): Byte
    requires |u| == |v|
  {
    if |u| == 0 then ZERO
    else Xor(Dot(u[..|u| - 1], v[..|v| - 1]), Mul(u[|u| - 1], v[|v| - 1]))
  }

  lemma {:induction false} DotAdd(u: Vec, w: Vec, v: Vec)
    requires |u| == |w| == |v|
    ensures Dot(Add(u, w), v) == Xor(Dot(u, v), Dot(w, v))
  {
    hide Mul, Xor;
    var n := |u| - 1;
    if n < 0 {
      XorLaws(ZERO, ZERO);
    } else {
      assert Add(u, w)[..n] == Add(u[..n], w[..n]);
      DotAdd(u[..n], w[..n], v[..n]);
      MulXorLeft(u[n], w[n], v[n]);
      Xor4(Dot(u[..n], v[..n]), Dot(w[..n], v[..n]), Mul(u[n], v[n]), Mul(w[n], v[n]));
    }
  }

  lemma {:induction false} DotScale(f: Byte, u: Vec, v: Vec)
    requires |u| == |v|
    ensures Dot(Scale(f, u), v) == Mul(f, Dot(u, v))
  {
    hide Mul, Xor;
    var n := |u| - 1;
    if n < 0 {
      MulZero(f);
    } else {
      assert Scale(f, u)[..n] == Scale(f, u[..n]);
      DotScale(f, u[..n], v[..n]);
      MulAssoc(f, u[n], v[n]);
      MulXorRight(f, Dot(u[..n], v[..n]), Mul(u[n], v[n]));
    }
  }

  lemma {:induction false} DotZeros(u: Vec, v: Vec)
    requires |u| == |v|
    requires v == Zeros(|v|) || u == Zeros(|u|)
    ensures Dot(u, v) == ZERO
  {
    hide Mul, Xor;
    var n := |u| - 1;
    if n >= 0 {
      assert Zeros(n + 1)[..n] == Zeros(n);
      DotZeros(u[..n], v[..n]);
      MulZero(u[n]);
      MulZero(v[n]);
      XorLaws(ZERO, ZERO);
    }
  }

  lemma DotLast(u: Vec, v: Vec)
    requires |u| == |v| > 0
    ensures Dot(u, v) == Xor(Dot(u[..|u| - 1], v[..|v| - 1]), Mul(u[|u| - 1], v[|v| - 1]))
  {}

  lemma {:induction false} DotUnit(n: nat, k: nat, v: Vec)
    requires k < n == |v|
    ensures Dot(Unit(n, k), v) == v[k] == Dot(v, Unit(n, k))
  {
    hide Mul, Xor;
    var u := Unit(n, k);
    DotLast(u, v);
    DotLast(v, u);
    hide Dot;
    MulOneLeft(v[n - 1]);
    MulOneRight(v[n - 1]);
    MulZero(v[n - 1]);
    XorLaws(v[k], ZERO);
    if k == n - 1 {
      assert u[..n - 1] == Zeros(n - 1);
      DotZeros(u[..n - 1], v[..n - 1]);
      DotZeros(v[..n - 1], u[..n - 1]);
    } else {
      assert u[..n - 1] == Unit(n - 1, k);
      DotUnit(n - 1, k, v[..n - 1]);
    }
  }

  lemma {:induction false} DotUpdate(u: Vec, v: Vec, i: nat, x: Byte)
    requires i < |u| == |v|
    ensures Dot(u, v[i := x]) == Xor(Dot(u, v), Mul(u[i], Xor(v[i], x)))
  {
    hide Mul, Xor;
    var n := |u| - 1;
    if i == n {
      assert v[i := x][..n] == v[..n];
      MulXorRight(u[i], v[i], x);
      XorCancel(Dot(u[..n], v[..n]), Mul(u[i], v[i]), Mul(u[i], x));
    } else {
      assert v[i := x][..n] == v[..n][i := x];
      DotUpdate(u[..n], v[..n], i, x);
      XorSwap(Dot(u[..n], v[..n]), Mul(u[i], Xor(v[i], x)), Mul(u[n], v[n]));
    }
  }

  lemma XorCancel(p: Byte, q: Byte, r: Byte)
    ensures Xor(p, r) == Xor(Xor(p, q), Xor(q, r))
  {}

  lemma XorSwap(p: Byte, q: Byte, r: Byte)
    ensures Xor(Xor(p, q), r) == Xor(Xor(p, r), q)
  {}

  lemma {:induction false} DotSplit(u: Vec, v: Vec, k: nat)
    requires k <= |u| == |v|
    ensures Dot(u, v) == Xor(Dot(u[..k], v[..k]), Dot(u[k..], v[k..]))
  {
    hide Mul, Xor;
    var n := |u| - 1;
    if k == |u| {
      assert u[..k] == u && v[..k] == v;
      XorLaws(Dot(u, v), ZERO);
    } else {
      DotSplit(u[..n], v[..n], k);
      assert u[..n][..k] == u[..k] && v[..n][..k] == v[..k];
      assert u[..n][k..] == u[k..][..n - k] && v[..n][k..] == v[k..][..n - k];
      XorAssoc(Dot(u[..k], v[..k]), Dot(u[..n][k..], v[..n][k..]), Mul(u[n], v[n]));
    }
  }

  // ----- Matrices as sequences of rows

  predicate Rows(m: seq<Vec>, width: nat) {
    forall i :: 0 <= i < |m| ==> |m[i]| == width
  }

  predicate Square(m: seq<Vec>, k: nat) {
    |m| == k && Rows(m, k)
  }

  function Apply(m: seq<Vec>, x: Vec): (y: Vec)
    requires Rows(m, |x|)
    ensures |y| == |m| && forall i :: 0 <= i < |m| ==> y[i] == Dot(m[i], x)
  {
    seq(|m|, i requires 0 <= i < |m| => Dot(m[i], x))
  }

  /** inv undoes m on every vector. */
  ghost predicate LeftInverse(inv: seq<Vec>, m: seq<Vec>, k: nat) {
    Square(inv, k) && Square(m, k) && forall x: Vec :: |x| == k ==> Apply(inv, Apply(m, x)) == x
  }

  /** m sends some nonzero vector to zero. */
  ghost predicate Singular(m: seq<Vec>, k: nat) {
    Rows(m, k) && exists x: Vec :: |x| == k && x != Zeros(k) && Apply(m, x) == Zeros(|m|)
  }

  function Column(m: seq<Vec>, j: nat): Vec
    requires forall i :: 0 <= i < |m| ==> j < |m[i]|
  {
    seq(|m|, i requires 0 <= i < |m| => m[i][j])
  }

  /** Entry (i, j) of the product of inv and m. */
  function Entry(inv: seq<Vec>, m: seq<Vec>, k: nat, i: nat, j: nat): Byte
    requires Square(inv, k) && Square(m, k) && i < k && j < k
  {
    Dot(inv[i], Column(m, j))
  }

  /** In matrix form: the product of inv and m is the identity. */
  lemma InverseProduct(inv: seq<Vec>, m: seq<Vec>, k: nat, i: nat, j: nat)
    requires LeftInverse(inv, m, k)
    requires i < k && j < k
    ensures Entry(inv, m, k, i, j) == if i == j then ONE else ZERO
  {
    hide Dot, Mul, Xor, Apply, Column;
    ApplyUnit(m, k, j);
    EntryIs(inv, m, k, i, j);
    assert Apply(inv, Apply(m, Unit(k, j))) == Unit(k, j);
  }

  lemma EntryIs(inv: seq<Vec>, m: seq<Vec>, k: nat, i: nat, j: nat)
    requires Square(inv, k) && Square(m, k) && i < k && j < k
    ensures |Column(m, j)| == k && Entry(inv, m, k, i, j) == Apply(inv, Column(m, j))[i]
  {
    hide Dot, Mul, Xor;
  }

  lemma ApplyUnit(m: seq<Vec>, k: nat, j: nat)
    requires Square(m, k) && j < k
    ensures Apply(m, Unit(k, j)) == Column(m, j)
  {
    hide Dot, Mul, Xor;
    forall r | 0 <= r < k ensures Apply(m, Unit(k, j))[r] == m[r][j] {
      DotUnit(k, j, m[r]);
    }
  }

  lemma InverseNotSingular(inv: seq<Vec>, m: seq<Vec>, k: nat)
    requires LeftInverse(inv, m, k)
    ensures !Singular(m, k)
  {
    hide Dot, Mul, Xor;
    forall x: Vec | |x| == k && Apply(m, x) == Zeros(k)
      ensures x == Zeros(k)
    {
      forall i | 0 <= i < k ensures Apply(inv, Zeros(k))[i] == ZERO {
        DotZeros(inv[i], Zeros(k));
      }
      assert Apply(inv, Apply(m, x)) == x;
    }
  }
}
