/** Row selection and Gauss-Jordan inversion of the reconstruction matrix. */
module GaussJordan {
  import opened Wrappers
  import opened Gf256
  import opened GfPowers
  import opened GfVectors

  // ----- Row operations act on the product with any vector

  function Swapped<T>(m: seq<T>, c: nat, p: nat): seq<T>
    requires c < |m| && p < |m|
  {
    m[c := m[p]][p := m[c]]
  }

  function Scaled(m: seq<Vec>, c: nat, f: Byte): seq<Vec>
    requires c < |m|
  {
    m[c := Scale(f, m[c])]
  }

  function Combined(m: seq<Vec>, r: nat, c: nat, g: Byte): seq<Vec>
    requires r < |m| && c < |m| && |m[r]| == |m[c]|
  {
    m[r := Add(m[r], Scale(g, m[c]))]
  }

  lemma ApplySwapped(m: seq<Vec>, c: nat, p: nat, x: Vec)
    requires c < |m| && p < |m| && Rows(m, |x|)
    ensures Rows(Swapped(m, c, p), |x|)
    ensures Apply(Swapped(m, c, p), x) == Swapped(Apply(m, x), c, p)
  {
    hide Dot;
  }

  lemma ApplyScaled(m: seq<Vec>, c: nat, f: Byte, x: Vec)
    requires c < |m| && Rows(m, |x|)
    ensures Rows(Scaled(m, c, f), |x|)
    ensures Apply(Scaled(m, c, f), x) == Apply(m, x)[c := Mul(f, Dot(m[c], x))]
  {
    hide Dot, Mul;
    DotScale(f, m[c], x);
  }

  lemma ApplyCombined(m: seq<Vec>, r: nat, c: nat, g: Byte, x: Vec)
    requires r < |m| && c < |m| && Rows(m, |x|)
    ensures Rows(Combined(m, r, c, g), |x|)
    ensures Apply(Combined(m, r, c, g), x) == Apply(m, x)[r := Xor(Dot(m[r], x), Mul(g, Dot(m[c], x)))]
  {
    hide Dot, Mul, Xor;
    DotAdd(m[r], Scale(g, m[c]), x);
    DotScale(g, m[c], x);
  }

  // ----- What elimination keeps

  /** On x, m is inv after m0, and m sends x to zero only if m0 does. */
  predicate AgreeAt(m: seq<Vec>, inv: seq<Vec>, m0: seq<Vec>, k: nat, x: Vec)
    requires Square(m, k) && Square(inv, k) && Square(m0, k) && |x| == k
  {
    Apply(m, x) == Apply(inv, Apply(m0, x)) && (Apply(m, x) == Zeros(k) ==> Apply(m0, x) == Zeros(k))
  }

  /** m = inv * m0, and nothing has entered the kernel of m, said on vectors. */
  ghost predicate Eliminating(m: seq<Vec>, inv: seq<Vec>, m0: seq<Vec>, k: nat) {
    Square(m, k) && Square(inv, k) && Square(m0, k) &&
    forall x: Vec {:trigger AgreeAt(m, inv, m0, k, x)} :: |x| == k ==> AgreeAt(m, inv, m0, k, x)
  }

  /** The first c columns of m are those of the identity. */
  predicate Reduced(m: seq<Vec>, k: nat, c: nat) {
    Square(m, k) && c <= k &&
    forall r, j :: 0 <= r < k && 0 <= j < c ==> m[r][j] == if r == j then ONE else ZERO
  }

  /** One row operation, on one vector: m x = inv y stays true, and nothing new is sent to zero. */
  lemma SwapAt(m: seq<Vec>, inv: seq<Vec>, k: nat, c: nat, p: nat, x: Vec, y: Vec)
    requires Square(m, k) && Square(inv, k) && |x| == |y| == k
    requires c < k && p < k
    requires Apply(m, x) == Apply(inv, y)
    ensures Square(Swapped(m, c, p), k) && Square(Swapped(inv, c, p), k)
    ensures Apply(Swapped(m, c, p), x) == Apply(Swapped(inv, c, p), y)
    ensures Apply(Swapped(m, c, p), x) == Zeros(k) ==> Apply(m, x) == Zeros(k)
  {
    hide Dot, Mul, Apply;
    ApplySwapped(m, c, p, x);
    ApplySwapped(inv, c, p, y);
    var z := Apply(m, x);
    if Swapped(z, c, p) == Zeros(k) {
      assert z[c] == Swapped(z, c, p)[p] && z[p] == Swapped(z, c, p)[c];
      assert forall i :: 0 <= i < k && i != c && i != p ==> z[i] == Swapped(z, c, p)[i];
      assert z == Zeros(k);
    }
  }

  lemma ScaleAt(m: seq<Vec>, inv: seq<Vec>, k: nat, c: nat, f: Byte, x: Vec, y: Vec)
    requires Square(m, k) && Square(inv, k) && |x| == |y| == k
    requires c < k && f != ZERO
    requires Apply(m, x) == Apply(inv, y)
    ensures Square(Scaled(m, c, f), k) && Square(Scaled(inv, c, f), k)
    ensures Apply(Scaled(m, c, f), x) == Apply(Scaled(inv, c, f), y)
    ensures Apply(Scaled(m, c, f), x) == Zeros(k) ==> Apply(m, x) == Zeros(k)
  {
    hide Dot, Mul, Apply;
    ApplyScaled(m, c, f, x);
    ApplyScaled(inv, c, f, y);
    var z := Apply(m, x);
    assert z[c] == Dot(m[c], x) && z[c] == Dot(inv[c], y);
    var z' := z[c := Mul(f, z[c])];
    if z' == Zeros(k) {
      assert Mul(f, z[c]) == z'[c] == ZERO;
      NoZeroDivisors(f, z[c]);
      assert forall i :: 0 <= i < k && i != c ==> z[i] == z'[i];
      assert z == Zeros(k);
    }
  }

  lemma CombineAt(m: seq<Vec>, inv: seq<Vec>, k: nat, r: nat, c: nat, g: Byte, x: Vec, y: Vec)
    requires Square(m, k) && Square(inv, k) && |x| == |y| == k
    requires r < k && c < k && r != c
    requires Apply(m, x) == Apply(inv, y)
    ensures Square(Combined(m, r, c, g), k) && Square(Combined(inv, r, c, g), k)
    ensures Apply(Combined(m, r, c, g), x) == Apply(Combined(inv, r, c, g), y)
    ensures Apply(Combined(m, r, c, g), x) == Zeros(k) ==> Apply(m, x) == Zeros(k)
  {
    hide Dot, Mul, Xor, Apply;
    ApplyCombined(m, r, c, g, x);
    ApplyCombined(inv, r, c, g, y);
    var z := Apply(m, x);
    assert z[c] == Dot(m[c], x) && z[c] == Dot(inv[c], y);
    assert z[r] == Dot(m[r], x) && z[r] == Dot(inv[r], y);
    var z' := z[r := Xor(z[r], Mul(g, z[c]))];
    if z' == Zeros(k) {
      assert z[c] == z'[c] == ZERO;
      MulZero(g);
      assert Xor(z[r], ZERO) == z'[r] == ZERO;
      XorLaws(z[r], ZERO);
      assert forall i :: 0 <= i < k && i != r ==> z[i] == z'[i];
      assert z == Zeros(k);
    }
  }

  lemma SwapAgrees(m: seq<Vec>, inv: seq<Vec>, m0: seq<Vec>, k: nat, c: nat, p: nat, x: Vec)
    requires Square(m, k) && Square(inv, k) && Square(m0, k) && |x| == k
    requires c < k && p < k
    requires AgreeAt(m, inv, m0, k, x)
    ensures Square(Swapped(m, c, p), k) && Square(Swapped(inv, c, p), k)
    ensures AgreeAt(Swapped(m, c, p), Swapped(inv, c, p), m0, k, x)
  {
    hide Dot, Mul, Xor, Apply, Zeros, Scale, Add, Scaled, Swapped, Combined;
    SwapAt(m, inv, k, c, p, x, Apply(m0, x));
  }

  lemma SwapKeeps(m: seq<Vec>, inv: seq<Vec>, m0: seq<Vec>, k: nat, c: nat, p: nat)
    requires Eliminating(m, inv, m0, k)
    requires c < k && p < k
    ensures Eliminating(Swapped(m, c, p), Swapped(inv, c, p), m0, k)
  {
    hide AgreeAt, Scale, Add;
    var m', inv' := Swapped(m, c, p), Swapped(inv, c, p);
    forall x: Vec | |x| == k
      ensures AgreeAt(m', inv', m0, k, x)
    {
      assert AgreeAt(m, inv, m0, k, x);
      SwapAgrees(m, inv, m0, k, c, p, x);
    }
  }

  lemma ScaleAgrees(m: seq<Vec>, inv: seq<Vec>, m0: seq<Vec>, k: nat, c: nat, f: Byte, x: Vec)
    requires Square(m, k) && Square(inv, k) && Square(m0, k) && |x| == k
    requires c < k && f != ZERO
    requires AgreeAt(m, inv, m0, k, x)
    ensures Square(Scaled(m, c, f), k) && Square(Scaled(inv, c, f), k)
    ensures AgreeAt(Scaled(m, c, f), Scaled(inv, c, f), m0, k, x)
  {
    hide Dot, Mul, Xor, Apply, Zeros, Scale, Add, Scaled, Swapped, Combined;
    ScaleAt(m, inv, k, c, f, x, Apply(m0, x));
  }

  lemma ScaleKeeps(m: seq<Vec>, inv: seq<Vec>, m0: seq<Vec>, k: nat, c: nat, f: Byte)
    requires Eliminating(m, inv, m0, k)
    requires c < k && f != ZERO
    ensures Eliminating(Scaled(m, c, f), Scaled(inv, c, f), m0, k)
  {
    hide AgreeAt, Scale, Add;
    var m', inv' := Scaled(m, c, f), Scaled(inv, c, f);
    forall x: Vec | |x| == k
      ensures AgreeAt(m', inv', m0, k, x)
    {
      assert AgreeAt(m, inv, m0, k, x);
      ScaleAgrees(m, inv, m0, k, c, f, x);
    }
  }

  lemma CombineAgrees(m: seq<Vec>, inv: seq<Vec>, m0: seq<Vec>, k: nat, r: nat, c: nat, g: Byte, x: Vec)
    requires Square(m, k) && Square(inv, k) && Square(m0, k) && |x| == k
    requires r < k && c < k && r != c
    requires AgreeAt(m, inv, m0, k, x)
    ensures Square(Combined(m, r, c, g), k) && Square(Combined(inv, r, c, g), k)
    ensures AgreeAt(Combined(m, r, c, g), Combined(inv, r, c, g), m0, k, x)
  {
    hide Dot, Mul, Xor, Apply, Zeros, Scale, Add, Scaled, Swapped, Combined;
    CombineAt(m, inv, k, r, c, g, x, Apply(m0, x));
  }

  lemma CombineKeeps(m: seq<Vec>, inv: seq<Vec>, m0: seq<Vec>, k: nat, r: nat, c: nat, g: Byte)
    requires Eliminating(m, inv, m0, k)
    requires r < k && c < k && r != c
    ensures Eliminating(Combined(m, r, c, g), Combined(inv, r, c, g), m0, k)
  {
    hide AgreeAt, Scale, Add;
    var m', inv' := Combined(m, r, c, g), Combined(inv, r, c, g);
    forall x: Vec | |x| == k
      ensures AgreeAt(m', inv', m0, k, x)
    {
      assert AgreeAt(m, inv, m0, k, x);
      CombineAgrees(m, inv, m0, k, r, c, g, x);
    }
  }

  // ----- How elimination ends

  /** No pivot in column c: the column, completed by a one, is a kernel vector. */
  lemma NoPivot(m: seq<Vec>, inv: seq<Vec>, m0: seq<Vec>, k: nat, c: nat)
    requires Eliminating(m, inv, m0, k) && Reduced(m, k, c)
    requires c < k && forall r :: c <= r < k ==> m[r][c] == ZERO
    ensures Singular(m0, k)
  {
    hide Dot, Mul, Xor, Apply;
    var x := seq(c, j requires 0 <= j < c => m[j][c]) + [ONE] + Zeros(k - c - 1);
    assert x[c] != Zeros(k)[c];
    NoPivotKernel(m, k, c, x);
    assert AgreeAt(m, inv, m0, k, x);
  }

  lemma NoPivotKernel(m: seq<Vec>, k: nat, c: nat, x: Vec)
    requires Reduced(m, k, c) && c < k && forall r :: c <= r < k ==> m[r][c] == ZERO
    requires |x| == k && x[c] == ONE && x[c + 1..] == Zeros(k - c - 1) && forall j :: 0 <= j < c ==> x[j] == m[j][c]
    ensures Apply(m, x) == Zeros(k)
  {
    hide Dot, Mul, Xor;
    forall r | 0 <= r < k ensures Apply(m, x)[r] == ZERO {
      PivotlessRow(m[r], x, r, c);
    }
  }

  lemma PivotlessRow(u: Vec, x: Vec, r: nat, c: nat)
    requires |u| == |x| > c && x[c] == ONE && x[c + 1..] == Zeros(|x| - c - 1)
    requires forall j :: 0 <= j < c ==> u[j] == if j == r then ONE else ZERO
    requires u[c] == if r < c then x[r] else ZERO
    ensures Dot(u, x) == ZERO
  {
    hide Dot, Mul, Xor;
    DotSplit(u, x, c + 1);
    DotZeros(u[c + 1..], x[c + 1..]);
    DotLast(u[..c + 1], x[..c + 1]);
    assert u[..c + 1][..c] == u[..c] && x[..c + 1][..c] == x[..c];
    MulOneRight(u[c]);
    if r < c {
      assert u[..c] == Unit(c, r);
      DotUnit(c, r, x[..c]);
    } else {
      assert u[..c] == Zeros(c);
      DotZeros(u[..c], x[..c]);
    }
    XorLaws(u[c], u[c]);
    XorLaws(ZERO, ZERO);
  }

  lemma FullyReduced(m: seq<Vec>, inv: seq<Vec>, m0: seq<Vec>, k: nat)
    requires Reduced(m, k, k) && Eliminating(m, inv, m0, k)
    ensures LeftInverse(inv, m0, k)
  {
    hide Dot, Mul, Xor, Apply, Reduced;
    forall x: Vec | |x| == k
      ensures Apply(inv, Apply(m0, x)) == x
    {
      ReducedApply(m, k, x);
      assert AgreeAt(m, inv, m0, k, x);
    }
  }

  lemma ReducedApply(m: seq<Vec>, k: nat, x: Vec)
    requires Reduced(m, k, k) && |x| == k
    ensures Apply(m, x) == x
  {
    hide Dot, Mul, Xor;
    forall r | 0 <= r < k ensures Apply(m, x)[r] == x[r] {
      ReducedRow(m, k, r);
      DotUnit(k, r, x);
    }
  }

  lemma ReducedRow(m: seq<Vec>, k: nat, r: nat)
    requires Reduced(m, k, k) && r < k
    ensures m[r] == Unit(k, r)
  {
  }

  // ----- The loops

  /** Scale row c of both matrices by f. */
  method ScaleRow(m: array<Vec>, inv: array<Vec>, k: nat, c: nat, f: Byte)
    requires m != inv && Square(m[..], k) && Square(inv[..], k) && c < k
    modifies m, inv
    ensures m[..] == Scaled(old(m[..]), c, f) && inv[..] == Scaled(old(inv[..]), c, f)
  {
    hide Mul;
    ghost var u, v := m[c], inv[c];
    for j := 0 to k
      invariant |m[c]| == |inv[c]| == k
      invariant forall i :: 0 <= i < k && i != c ==> m[i] == old(m[i]) && inv[i] == old(inv[i])
      invariant forall i :: 0 <= i < k ==> m[c][i] == if i < j then Mul(f, u[i]) else u[i]
      invariant forall i :: 0 <= i < k ==> inv[c][i] == if i < j then Mul(f, v[i]) else v[i]
    {
      MulComm(m[c][j], f);
      MulComm(inv[c][j], f);
      var p := GfMul(m[c][j], f);
      var q := GfMul(inv[c][j], f);
      m[c] := m[c][j := p];
      inv[c] := inv[c][j := q];
    }
    assert m[c] == Scale(f, u) && inv[c] == Scale(f, v);
    assert m[..] == Scaled(old(m[..]), c, f);
    assert inv[..] == Scaled(old(inv[..]), c, f);
  }

  /** Add g times row c to row r, in both matrices. */
  method CombineRows(m: array<Vec>, inv: array<Vec>, k: nat, r: nat, c: nat, g: Byte)
    requires m != inv && Square(m[..], k) && Square(inv[..], k) && r < k && c < k && r != c
    modifies m, inv
    ensures m[..] == Combined(old(m[..]), r, c, g) && inv[..] == Combined(old(inv[..]), r, c, g)
  {
    hide Mul, Xor;
    ghost var u, v := m[r], inv[r];
    for j := 0 to k
      invariant |m[r]| == |inv[r]| == k
      invariant forall i :: 0 <= i < k && i != r ==> m[i] == old(m[i]) && inv[i] == old(inv[i])
      invariant forall i :: 0 <= i < k ==> m[r][i] == if i < j then Xor(u[i], Mul(g, m[c][i])) else u[i]
      invariant forall i :: 0 <= i < k ==> inv[r][i] == if i < j then Xor(v[i], Mul(g, inv[c][i])) else v[i]
    {
      var p := GfMul(g, m[c][j]);
      var q := GfMul(g, inv[c][j]);
      m[r] := m[r][j := Xor(m[r][j], p)];
      inv[r] := inv[r][j := Xor(inv[r][j], q)];
    }
    assert m[r] == Add(u, Scale(g, m[c])) && inv[r] == Add(v, Scale(g, inv[c]));
    assert m[..] == Combined(old(m[..]), r, c, g);
    assert inv[..] == Combined(old(inv[..]), r, c, g);
  }

  lemma CombineReduces(m: seq<Vec>, k: nat, r: nat, c: nat)
    requires Reduced(m, k, c) && c < k && r < k && r != c && m[c][c] == ONE
    ensures Reduced(Combined(m, r, c, m[r][c]), k, c) && Combined(m, r, c, m[r][c])[r][c] == ZERO
  {
    hide Mul, Xor;
    var g := m[r][c];
    MulOneRight(g);
    MulZero(g);
    XorLaws(g, g);
    forall j | 0 <= j < c ensures Combined(m, r, c, g)[r][j] == m[r][j] {
      XorLaws(m[r][j], ZERO);
    }
  }

  lemma CombinedOthers(m: seq<Vec>, r: nat, c: nat, g: Byte)
    requires r < |m| && c < |m| && |m[r]| == |m[c]|
    ensures |Combined(m, r, c, g)| == |m|
    ensures forall i :: 0 <= i < |m| && i != r ==> Combined(m, r, c, g)[i] == m[i]
  {}

  lemma SwapReduces(m: seq<Vec>, k: nat, c: nat, p: nat)
    requires Reduced(m, k, c) && c <= p < k
    ensures Reduced(Swapped(m, c, p), k, c) && Swapped(m, c, p)[c] == m[p]
  {}

  lemma ScaleReduces(m: seq<Vec>, k: nat, c: nat, f: Byte)
    requires Reduced(m, k, c) && c < k && Mul(f, m[c][c]) == ONE
    ensures Reduced(Scaled(m, c, f), k, c) && Scaled(m, c, f)[c][c] == ONE
  {
    hide Mul;
    MulZero(f);
  }

  lemma StartEliminating(m0: seq<Vec>, k: nat, id: seq<Vec>)
    requires Square(m0, k) && |id| == k && forall i :: 0 <= i < k ==> id[i] == Unit(k, i)
    ensures Eliminating(m0, id, m0, k)
  {
    hide Dot, Mul, Xor;
    forall x: Vec | |x| == k ensures AgreeAt(m0, id, m0, k, x) {
      ReducedApply(id, k, Apply(m0, x));
    }
  }

  /** Clear column c in every row but its own. */
  method ClearColumn(m: array<Vec>, inv: array<Vec>, k: nat, c: nat, ghost m0: seq<Vec>)
    requires m != inv && Eliminating(m[..], inv[..], m0, k)
    requires Reduced(m[..], k, c) && c < k && m[c][c] == ONE
    modifies m, inv
    ensures Eliminating(m[..], inv[..], m0, k)
    ensures Reduced(m[..], k, c + 1)
  {
    hide Mul, Xor, AgreeAt, Combined;
    for r := 0 to k
      invariant Eliminating(m[..], inv[..], m0, k)
      invariant Reduced(m[..], k, c) && m[c] == old(m[c])
      invariant forall i :: 0 <= i < r && i != c ==> m[i][c] == ZERO
    {
      if r != c && m[r][c] != ZERO {
        var g := m[r][c];
        ghost var before := m[..];
        CombineReduces(before, k, r, c);
        CombineKeeps(m[..], inv[..], m0, k, r, c, g);
        CombineRows(m, inv, k, r, c, g);
        CombinedOthers(before, r, c, g);
      }
    }
  }

  /** First row from c on with a nonzero entry in column c, or k. */
  method FindPivot(m: array<Vec>, k: nat, c: nat) returns (pivot: nat)
    requires Square(m[..], k) && c < k
    ensures c <= pivot <= k && (pivot < k ==> m[pivot][c] != ZERO)
    ensures forall i :: c <= i < pivot ==> m[i][c] == ZERO
  {
    pivot := c;
    while pivot < k && m[pivot][c] == ZERO
      invariant c <= pivot <= k
      invariant forall i :: c <= i < pivot ==> m[i][c] == ZERO
    {
      pivot := pivot + 1;
    }
  }

  /** Scale row c to make its pivot one. */
  method ScalePivot(m: array<Vec>, inv: array<Vec>, k: nat, c: nat, ghost m0: seq<Vec>)
    requires m != inv && Eliminating(m[..], inv[..], m0, k)
    requires Reduced(m[..], k, c) && c < k && m[c][c] != ZERO
    modifies m, inv
    ensures Eliminating(m[..], inv[..], m0, k)
    ensures Reduced(m[..], k, c) && m[c][c] == ONE
  {
    hide Mul, AgreeAt, Scaled;
    var f := GfInv(m[c][c]);
    MulInv(m[c][c]);
    ScaleReduces(m[..], k, c, f);
    ScaleKeeps(m[..], inv[..], m0, k, c, f);
    ScaleRow(m, inv, k, c, f);
  }

  /** Gauss-Jordan on [m0 | I]: the body of the loop over row selections. */
  method Invert(m0: seq<Vec>, k: nat) returns (r: Option<seq<Vec>>)
    requires Square(m0, k)
    ensures r.Some? ==> LeftInverse(r.value, m0, k)
    ensures r.None? ==> Singular(m0, k)
  {
    hide Mul, AgreeAt, Apply, Dot;
    var m := new Vec[k](i requires 0 <= i < |m0| => m0[i]);
    var inv := new Vec[k](i requires 0 <= i => Unit(k, i));
    assert m[..] == m0;
    StartEliminating(m0, k, inv[..]);
    for c := 0 to k
      invariant Eliminating(m[..], inv[..], m0, k)
      invariant Reduced(m[..], k, c)
    {
      var pivot := FindPivot(m, k, c);
      if pivot == k {
        NoPivot(m[..], inv[..], m0, k, c);
        return None;
      }
      SwapKeeps(m[..], inv[..], m0, k, c, pivot);
      SwapReduces(m[..], k, c, pivot);
      ghost var m1, inv1 := Swapped(m[..], c, pivot), Swapped(inv[..], c, pivot);
      m[c], m[pivot] := m[pivot], m[c];
      inv[c], inv[pivot] := inv[pivot], inv[c];
      assert m[..] == m1 && inv[..] == inv1;
      ScalePivot(m, inv, k, c, m0);
      ClearColumn(m, inv, k, c, m0);
    }
    FullyReduced(m[..], inv[..], m0, k);
    return Some(inv[..]);
  }

  // ----- Row selections

  /** k row indices below n, strictly increasing. */
  predicate IsSelection(s: seq<nat>, n: nat, k: nat) {
    |s| == k && (forall i :: 0 <= i < k ==> s[i] < n) && forall i, j :: 0 <= i < j < k ==> s[i] < s[j]
  }

  predicate Extends(s: seq<nat>, n: nat, k: nat, cur: seq<nat>, start: nat) {
    IsSelection(s, n, k) && cur <= s && forall i :: |cur| <= i < k ==> start <= s[i]
  }

  lemma ExtendByOne(s: seq<nat>, n: nat, k: nat, cur: seq<nat>, start: nat, i: nat)
    requires start <= i && |cur| < k
    ensures Extends(s, n, k, cur + [i], i + 1) <==> Extends(s, n, k, cur, start) && s[|cur|] == i
  {
    if Extends(s, n, k, cur + [i], i + 1) {
      assert s[..|cur| + 1] == cur + [i];
      assert cur == s[..|cur|];
    }
    if Extends(s, n, k, cur, start) && s[|cur|] == i {
      assert s[..|cur| + 1] == cur + [i];
    }
  }

  /** All selections of k of n rows that extend cur with rows from start on. */
  method Choose(start: nat, n: nat, k: nat, cur: seq<nat>, out: seq<seq<nat>>) returns (r: seq<seq<nat>>)
    requires start <= n && |cur| <= k && IsSelection(cur, start, |cur|)
    ensures forall s :: s in r <==> s in out || Extends(s, n, k, cur, start)
    decreases k - |cur|
  {
    if |cur| == k {
      assert forall s :: Extends(s, n, k, cur, start) <==> s == cur;
      return out + [cur];
    }
    r := out;
    for i := start to n
      invariant forall s :: s in r <==> s in out || (Extends(s, n, k, cur, start) && s[|cur|] < i)
    {
      forall s ensures Extends(s, n, k, cur + [i], i + 1) <==> Extends(s, n, k, cur, start) && s[|cur|] == i {
        ExtendByOne(s, n, k, cur, start, i);
      }
      r := Choose(i + 1, n, k, cur + [i], r);
    }
  }

  function Pick<T>(a: seq<T>, sel: seq<nat>): (p: seq<T>)
    requires forall i :: 0 <= i < |sel| ==> sel[i] < |a|
    ensures |p| == |sel| && forall i :: 0 <= i < |sel| ==> p[i] == a[sel[i]]
  {
    seq(|sel|, i requires 0 <= i < |sel| => a[sel[i]])
  }

  /** Pick k rows of a that form an invertible matrix, with the inverse; none only if every choice is singular. */
  method InvertRows(a: seq<Vec>, k: nat) returns (r: Option<(seq<nat>, seq<Vec>)>)
    requires Rows(a, k)
    ensures r.Some? ==> IsSelection(r.value.0, |a|, k) && LeftInverse(r.value.1, Pick(a, r.value.0), k)
    ensures r.None? ==> forall s :: IsSelection(s, |a|, k) ==> Singular(Pick(a, s), k)
  {
    hide LeftInverse, Singular;
    var subsets := Choose(0, |a|, k, [], []);
    for i := 0 to |subsets|
      invariant forall j :: 0 <= j < i ==> IsSelection(subsets[j], |a|, k) && Singular(Pick(a, subsets[j]), k)
    {
      var sel := subsets[i];
      assert Extends(sel, |a|, k, [], 0);
      var inv := Invert(Pick(a, sel), k);
      if inv.Some? {
        return Some((sel, inv.value));
      }
    }
    forall s | IsSelection(s, |a|, k) ensures Singular(Pick(a, s), k) {
      assert Extends(s, |a|, k, [], 0);
    }
    return None;
  }
}
