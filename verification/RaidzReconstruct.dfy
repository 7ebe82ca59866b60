/** Rebuilding missing RAIDZ data columns from any surviving parities. */
module RaidzReconstruct {
  import opened Wrappers
  import opened Gf256
  import opened GfPowers
  import opened GfVectors
  import opened GaussJordan
  import opened RaidzParity

  datatype ReconstructError = TooManyMissing(missing: nat, parities: nat) | SingularMatrix

  // ----- Up to three parity rows are independent on distinct columns

  /** The entry of parity row r in a column whose power of two is w. */
  function Entry3(r: nat, w: Byte): Byte {
    if r == 0 then ONE else if r == 1 then w else Mul(w, w)
  }

  lemma Entry3Nonzero(r: nat, w: Byte)
    requires w != ZERO
    ensures Entry3(r, w) != ZERO
  {
    hide Mul;
    if Mul(w, w) == ZERO { NoZeroDivisors(w, w); }
  }

  lemma SquareXor(w: Byte, v: Byte)
    ensures Mul(Xor(w, v), Xor(w, v)) == Xor(Mul(w, w), Mul(v, v))
  {
    hide Mul, Xor;
    MulXorLeft(w, v, Xor(w, v));
    MulXorRight(w, w, v);
    MulXorRight(v, w, v);
    MulComm(w, v);
    var p := Mul(w, v);
    Xor4(Mul(w, w), p, p, Mul(v, v));
    XorLaws(p, p);
    XorSwap(Mul(w, w), p, p);
    XorAssoc(Mul(w, w), p, Xor(p, Mul(v, v)));
    XorAssoc(p, p, Mul(v, v));
    XorLaws(Mul(v, v), ZERO);
  }

  lemma SquaresDiffer(w: Byte, v: Byte)
    requires w != v
    ensures Mul(w, w) != Mul(v, v)
  {
    hide Mul, Xor;
    SquareXor(w, v);
    XorZero(w, v);
    XorZero(Mul(w, w), Mul(v, v));
    if Mul(Xor(w, v), Xor(w, v)) == ZERO { NoZeroDivisors(Xor(w, v), Xor(w, v)); }
  }

  /** p a = q a with p and q different forces a = 0. */
  lemma Cancel(p: Byte, q: Byte, a: Byte)
    requires Mul(p, a) == Mul(q, a) && p != q
    ensures a == ZERO
  {
    hide Mul, Xor;
    MulXorLeft(p, q, a);
    XorZero(Mul(p, a), Mul(q, a));
    XorZero(p, q);
    NoZeroDivisors(Xor(p, q), a);
  }

  lemma Entry3Split(r: nat, s: nat, w: Byte)
    requires r < s < 3
    ensures Entry3(s, w) == Mul(Entry3(s - r, w), Entry3(r, w))
  {
    hide Mul;
    MulOneRight(Entry3(s, w));
  }

  lemma Entry3Differ(d: nat, w: Byte, v: Byte)
    requires 0 < d < 3 && w != v
    ensures Entry3(d, w) != Entry3(d, v)
  {
    hide Mul;
    SquaresDiffer(w, v);
  }

  lemma Kernel2(r: nat, s: nat, w: Byte, v: Byte, x: Byte, y: Byte)
    requires r < s < 3 && w != ZERO && v != ZERO && w != v
    requires Xor(Mul(Entry3(r, w), x), Mul(Entry3(r, v), y)) == ZERO
    requires Xor(Mul(Entry3(s, w), x), Mul(Entry3(s, v), y)) == ZERO
    ensures x == ZERO && y == ZERO
  {
    hide Mul, Xor, Entry3;
    var a, b := Mul(Entry3(r, w), x), Mul(Entry3(r, v), y);
    XorZero(a, b);
    XorZero(Mul(Entry3(s, w), x), Mul(Entry3(s, v), y));
    var p, q := Entry3(s - r, w), Entry3(s - r, v);
    Entry3Split(r, s, w);
    Entry3Split(r, s, v);
    MulAssoc(p, Entry3(r, w), x);
    MulAssoc(q, Entry3(r, v), y);
    Entry3Differ(s - r, w, v);
    Cancel(p, q, a);
    Entry3Nonzero(r, w);
    Entry3Nonzero(r, v);
    NoZeroDivisors(Entry3(r, w), x);
    NoZeroDivisors(Entry3(r, v), y);
  }

  /** Row sum over three columns with the third unknown replaced by x + y. */
  lemma Eliminated(p: Byte, q: Byte, t: Byte, x: Byte, y: Byte)
    ensures Xor(Xor(Mul(p, x), Mul(q, y)), Mul(t, Xor(x, y))) == Xor(Mul(Xor(p, t), x), Mul(Xor(q, t), y))
  {
    hide Mul, Xor;
    MulXorRight(t, x, y);
    MulXorLeft(p, t, x);
    MulXorLeft(q, t, y);
    Xor4(Mul(p, x), Mul(q, y), Mul(t, x), Mul(t, y));
  }

  /** The third unknown, from the P row, and the two remaining equations in its place. */
  lemma EliminateThird(w: Byte, v: Byte, u: Byte, x: Byte, y: Byte, z: Byte)
    requires Xor(Xor(Mul(ONE, x), Mul(ONE, y)), Mul(ONE, z)) == ZERO
    requires Xor(Xor(Mul(w, x), Mul(v, y)), Mul(u, z)) == ZERO
    ensures z == Xor(x, y)
    ensures Mul(Xor(w, u), x) == Mul(Xor(v, u), y)
  {
    hide Mul, Xor;
    MulOneLeft(x);
    MulOneLeft(y);
    MulOneLeft(z);
    XorZero(Xor(x, y), z);
    Eliminated(w, v, u, x, y);
    XorZero(Mul(Xor(w, u), x), Mul(Xor(v, u), y));
  }

  lemma TwoEquations(p: Byte, q: Byte, x: Byte, y: Byte)
    requires p != q && p != ZERO && q != ZERO
    requires Mul(p, x) == Mul(q, y) && Mul(Mul(p, p), x) == Mul(Mul(q, q), y)
    ensures x == ZERO && y == ZERO
  {
    hide Mul, Xor;
    MulAssoc(p, p, x);
    MulAssoc(q, q, y);
    Cancel(p, q, Mul(p, x));
    NoZeroDivisors(p, x);
    NoZeroDivisors(q, y);
  }

  lemma Kernel3(w: Byte, v: Byte, u: Byte, x: Byte, y: Byte, z: Byte)
    requires w != v && v != u && w != u
    requires Xor(Xor(Mul(ONE, x), Mul(ONE, y)), Mul(ONE, z)) == ZERO
    requires Xor(Xor(Mul(w, x), Mul(v, y)), Mul(u, z)) == ZERO
    requires Xor(Xor(Mul(Mul(w, w), x), Mul(Mul(v, v), y)), Mul(Mul(u, u), z)) == ZERO
    ensures x == ZERO && y == ZERO && z == ZERO
  {
    hide Mul, Xor;
    EliminateThird(w, v, u, x, y, z);
    EliminateThird(Mul(w, w), Mul(v, v), Mul(u, u), x, y, z);
    SquareXor(w, u);
    SquareXor(v, u);
    Differences(w, v, u);
    TwoEquations(Xor(w, u), Xor(v, u), x, y);
    XorLaws(ZERO, ZERO);
  }

  lemma Differences(w: Byte, v: Byte, u: Byte)
    requires w != v && v != u && w != u
    ensures Xor(w, u) != ZERO && Xor(v, u) != ZERO && Xor(w, u) != Xor(v, u)
  {
    hide Xor;
    XorZero(w, u);
    XorZero(v, u);
    if Xor(w, u) == Xor(v, u) { XorCancelRight(w, v, u); }
  }

  lemma XorCancelRight(w: Byte, v: Byte, u: Byte)
    requires Xor(w, u) == Xor(v, u)
    ensures w == v
  {}

  // ----- The reconstruction matrix

  /** Rows `rows` of the coefficient matrix, restricted to the missing columns. */
  function Matrix(rows: seq<nat>, missing: seq<nat>, ndata: nat): (a: seq<Vec>)
    requires forall i :: 0 <= i < |missing| ==> missing[i] < ndata
    ensures |a| == |rows| && Rows(a, |missing|)
    ensures forall j :: 0 <= j < |rows| ==> a[j] == Pick(CoefficientRow(rows[j], ndata), missing)
  {
    seq(|rows|, j requires 0 <= j < |rows| => Pick(CoefficientRow(rows[j], ndata), missing))
  }

  /** 2 has order 255, so columns are told apart only by their index modulo 255. */
  predicate Separable(missing: seq<nat>) {
    forall i, j :: 0 <= i < j < |missing| ==> missing[i] % 255 != missing[j] % 255
  }

  /** Up to 255 data columns, separable means distinct: reconstruction then needs only enough parities. */
  lemma SeparableMeansDistinct(missing: seq<nat>, ndata: nat)
    requires ndata <= 255 && forall i :: 0 <= i < |missing| ==> missing[i] < ndata
    ensures Separable(missing) <==> forall i, j :: 0 <= i < j < |missing| ==> missing[i] != missing[j]
  {
    forall i | 0 <= i < |missing| ensures missing[i] % 255 == missing[i] {}
  }

  /** With 256 data columns, losing the first and the last is beyond all three parities. */
  lemma FirstAndLastOf256(rows: seq<nat>, missing: seq<nat>, ndata: nat)
    requires ndata == 256 && missing == [0, ndata - 1]
    ensures Singular(Matrix(rows, missing, ndata), |missing|)
  {
    hide Singular, Matrix;
    assert missing[0] % 255 == missing[1] % 255;
    InseparableIsSingular(rows, missing, ndata);
  }

  function TwoPower(i: nat, ndata: nat): Byte
    requires i < ndata
  {
    Pow(TWO, ndata - 1 - i)
  }

  lemma CoefficientEntry(row: nat, i: nat, ndata: nat)
    requires i < ndata
    ensures Coefficient(row, i, ndata) == Entry3(row, TwoPower(i, ndata))
  {
    hide Mul, Pow;
    PowFour(ndata - 1 - i);
  }

  lemma SameResidue(i: nat, j: nat, ndata: nat)
    requires i < ndata && j < ndata
    ensures i % 255 == j % 255 <==> (ndata - 1 - i) % 255 == (ndata - 1 - j) % 255
  {
  }

  lemma TwoPowers(i: nat, j: nat, ndata: nat)
    requires i < ndata && j < ndata
    ensures TwoPower(i, ndata) != ZERO
    ensures TwoPower(i, ndata) == TwoPower(j, ndata) <==> i % 255 == j % 255
  {
    hide Pow;
    PowTwoNonzero(ndata - 1 - i);
    PowTwoInjective(ndata - 1 - i, ndata - 1 - j);
    SameResidue(i, j, ndata);
  }

  lemma Dot1(u: Vec, x: Vec)
    requires |u| == |x| == 1
    ensures Dot(u, x) == Mul(u[0], x[0])
  {
    hide Mul, Xor;
    XorLaws(Mul(u[0], x[0]), ZERO);
    DotLast(u, x);
    assert Dot([], []) == ZERO;
    assert u[..0] == [] && x[..0] == [];
  }

  lemma Dot2(u: Vec, x: Vec)
    requires |u| == |x| == 2
    ensures Dot(u, x) == Xor(Mul(u[0], x[0]), Mul(u[1], x[1]))
  {
    hide Mul, Xor, Dot;
    DotLast(u, x);
    Dot1(u[..1], x[..1]);
  }

  lemma Dot3(u: Vec, x: Vec)
    requires |u| == |x| == 3
    ensures Dot(u, x) == Xor(Xor(Mul(u[0], x[0]), Mul(u[1], x[1])), Mul(u[2], x[2]))
  {
    hide Mul, Xor, Dot;
    DotLast(u, x);
    Dot2(u[..2], x[..2]);
  }

  lemma MatrixRow(rows: seq<nat>, missing: seq<nat>, ndata: nat, x: Vec, j: nat)
    requires forall i :: 0 <= i < |missing| ==> missing[i] < ndata
    requires |rows| == |missing| == |x| && j < |rows|
    requires Apply(Matrix(rows, missing, ndata), x) == Zeros(|x|)
    ensures Dot(Pick(CoefficientRow(rows[j], ndata), missing), x) == ZERO
  {
    hide Mul, Xor, Dot, Coefficient;
    assert Apply(Matrix(rows, missing, ndata), x)[j] == ZERO;
  }

  lemma MatrixEntries(row: nat, missing: seq<nat>, ndata: nat)
    requires forall i :: 0 <= i < |missing| ==> missing[i] < ndata
    ensures forall i :: 0 <= i < |missing| ==> Pick(CoefficientRow(row, ndata), missing)[i] == Entry3(row, TwoPower(missing[i], ndata))
  {
    hide Mul, Xor, Dot, Entry3, TwoPower, Coefficient;
    forall i | 0 <= i < |missing|
      ensures Coefficient(row, missing[i], ndata) == Entry3(row, TwoPower(missing[i], ndata))
    {
      CoefficientEntry(row, missing[i], ndata);
    }
  }

  /** Any rows of P, Q and R are independent on separable columns. */
  lemma TrivialKernel(rows: seq<nat>, missing: seq<nat>, ndata: nat, x: Vec)
    requires forall i :: 0 <= i < |missing| ==> missing[i] < ndata
    requires IsSelection(rows, 3, |missing|) && |x| == |missing| && Separable(missing)
    requires Apply(Matrix(rows, missing, ndata), x) == Zeros(|x|)
    ensures x == Zeros(|x|)
  {
    hide Mul, Xor, Dot, Entry3, TwoPower, Coefficient, Apply;
    var k := |missing|;
    if k == 0 {
      return;
    }
    var m0 := missing[0];
    MatrixRow(rows, missing, ndata, x, 0);
    MatrixEntries(rows[0], missing, ndata);
    var u0 := Pick(CoefficientRow(rows[0], ndata), missing);
    if k == 1 {
      Dot1(u0, x);
      TwoPowers(m0, m0, ndata);
      Entry3Nonzero(rows[0], TwoPower(m0, ndata));
      NoZeroDivisors(u0[0], x[0]);
      return;
    }
    var m1 := missing[1];
    MatrixRow(rows, missing, ndata, x, 1);
    MatrixEntries(rows[1], missing, ndata);
    var u1 := Pick(CoefficientRow(rows[1], ndata), missing);
    TwoPowers(m0, m1, ndata);
    TwoPowers(m1, m0, ndata);
    if k == 2 {
      Dot2(u0, x);
      Dot2(u1, x);
      Kernel2(rows[0], rows[1], TwoPower(m0, ndata), TwoPower(m1, ndata), x[0], x[1]);
      return;
    }
    FullSelection(rows);
    TrivialKernel3(rows, missing, ndata, x);
  }

  lemma FullSelection(rows: seq<nat>)
    requires IsSelection(rows, 3, |rows|) && |rows| >= 3
    ensures rows == [0, 1, 2]
  {
    SelectionGrows(rows, 3, |rows| - 1);
    assert rows[0] < rows[1] < rows[2];
  }

  lemma {:induction false} SelectionGrows(rows: seq<nat>, n: nat, i: nat)
    requires IsSelection(rows, n, |rows|) && i < |rows|
    ensures i <= rows[i]
  {
    if i > 0 {
      SelectionGrows(rows, n, i - 1);
    }
  }

  lemma TrivialKernel3(rows: seq<nat>, missing: seq<nat>, ndata: nat, x: Vec)
    requires forall i :: 0 <= i < |missing| ==> missing[i] < ndata
    requires rows == [0, 1, 2] && |missing| == |x| == 3 && Separable(missing)
    requires Apply(Matrix(rows, missing, ndata), x) == Zeros(|x|)
    ensures x == Zeros(3)
  {
    hide Mul, Xor, Dot, TwoPower, Coefficient, Apply;
    var w, v, u := TwoPower(missing[0], ndata), TwoPower(missing[1], ndata), TwoPower(missing[2], ndata);
    TwoPowers(missing[0], missing[1], ndata);
    TwoPowers(missing[1], missing[2], ndata);
    TwoPowers(missing[0], missing[2], ndata);
    MatrixRow(rows, missing, ndata, x, 0);
    MatrixEntries(rows[0], missing, ndata);
    MatrixRow(rows, missing, ndata, x, 1);
    MatrixEntries(rows[1], missing, ndata);
    MatrixRow(rows, missing, ndata, x, 2);
    MatrixEntries(rows[2], missing, ndata);
    Dot3(Pick(CoefficientRow(0, ndata), missing), x);
    Dot3(Pick(CoefficientRow(1, ndata), missing), x);
    Dot3(Pick(CoefficientRow(2, ndata), missing), x);
    Kernel3(w, v, u, x[0], x[1], x[2]);
  }

  /** Two missing columns that agree modulo 255 make every choice of rows singular. */
  lemma InseparableIsSingular(rows: seq<nat>, missing: seq<nat>, ndata: nat)
    requires forall i :: 0 <= i < |missing| ==> missing[i] < ndata
    requires !Separable(missing)
    ensures Singular(Matrix(rows, missing, ndata), |missing|)
  {
    hide Mul, Xor, Dot, Entry3, TwoPower, Coefficient;
    var k := |missing|;
    var i, j :| 0 <= i < j < k && missing[i] % 255 == missing[j] % 255;
    var a := Matrix(rows, missing, ndata);
    var x := Unit(k, i)[j := ONE];
    forall r | 0 <= r < |rows| ensures Apply(a, x)[r] == ZERO {
      var u := a[r];
      DotUpdate(u, Unit(k, i), j, ONE);
      DotUnit(k, i, u);
      CoefficientEntry(rows[r], missing[i], ndata);
      CoefficientEntry(rows[r], missing[j], ndata);
      TwoPowers(missing[i], missing[j], ndata);
      XorLaws(ZERO, ONE);
      XorLaws(ONE, ZERO);
      MulOneRight(u[j]);
      XorLaws(u[i], u[j]);
    }
    assert x[i] != Zeros(k)[i];
    assert Apply(a, x) == Zeros(|rows|);
  }

  // ----- Syndromes

  /** The data bytes at pos with the missing columns blanked. */
  function Known(data: seq<Vec>, missing: seq<nat>, pos: nat): (z: Vec)
    ensures |z| == |data|
    ensures forall i :: 0 <= i < |data| ==> z[i] == if i in missing then ZERO else At(data[i], pos)
  {
    seq(|data|, i requires 0 <= i < |data| => if i in missing then ZERO else At(data[i], pos))
  }

  function Blanked(d: Vec, missing: seq<nat>): (z: Vec)
    ensures |z| == |d| && forall i :: 0 <= i < |d| ==> z[i] == if i in missing then ZERO else d[i]
  {
    seq(|d|, i requires 0 <= i < |d| => if i in missing then ZERO else d[i])
  }

  /** What the known columns leave unexplained is the missing columns' share. */
  lemma {:induction false} MissingShare(c: Vec, d: Vec, missing: seq<nat>)
    requires |c| == |d| && Separable(missing)
    requires forall i :: 0 <= i < |missing| ==> missing[i] < |d|
    ensures Xor(Dot(c, d), Dot(c, Blanked(d, missing))) == Dot(Pick(c, missing), Pick(d, missing))
  {
    hide Mul, Xor, Dot;
    if |missing| == 0 {
      assert Blanked(d, missing) == d;
      XorLaws(Dot(c, d), ZERO);
      DotZeros(Pick(c, missing), Pick(d, missing));
    } else {
      var n := |missing| - 1;
      var last, rest := missing[n], missing[..n];
      MissingShare(c, d, rest);
      assert forall i :: 0 <= i < n ==> missing[i] != last;
      assert last !in rest;
      assert Blanked(d, missing) == Blanked(d, rest)[last := ZERO];
      DotUpdate(c, Blanked(d, rest), last, ZERO);
      XorLaws(d[last], ZERO);
      DotLast(Pick(c, missing), Pick(d, missing));
      assert Pick(c, missing)[..n] == Pick(c, rest) && Pick(d, missing)[..n] == Pick(d, rest);
      XorAssoc(Dot(c, d), Dot(c, Blanked(d, rest)), Mul(c[last], d[last]));
    }
  }

  /** Syndrome of each chosen parity row: parity minus the contribution of the known columns. */
  function Syndromes(data: seq<Vec>, parity: seq<Option<Vec>>, rows: seq<nat>, missing: seq<nat>, pos: nat): (s: Vec)
    requires forall j :: 0 <= j < |rows| ==> rows[j] < |parity| && parity[rows[j]].Some? && pos < |parity[rows[j]].value|
    ensures |s| == |rows|
    ensures forall j :: 0 <= j < |rows| ==>
              s[j] == Xor(parity[rows[j]].value[pos], Dot(CoefficientRow(rows[j], |data|), Known(data, missing, pos)))
  {
    seq(|rows|, j requires 0 <= j < |rows| =>
      Xor(parity[rows[j]].value[pos], Dot(CoefficientRow(rows[j], |data|), Known(data, missing, pos))))
  }

  /** data is orig with the missing columns overwritten, and the surviving parities are those of orig. */
  ghost predicate Erased(orig: seq<Vec>, data: seq<Vec>, parity: seq<Option<Vec>>, missing: seq<nat>) {
    && |data| == |orig| && |parity| <= 3
    && (forall i :: 0 <= i < |data| ==> |data[i]| == |orig[i]| && (i !in missing ==> data[i] == orig[i]))
    && (forall r, pos :: 0 <= r < |parity| && parity[r].Some? && 0 <= pos < |parity[r].value| && pos < MaxLen(orig) ==>
          parity[r].value[pos] == ParityByte(r, orig, pos))
  }

  /** The solved bytes are the original ones. */
  lemma SolvesOriginal(orig: seq<Vec>, data: seq<Vec>, parity: seq<Option<Vec>>, rows: seq<nat>, missing: seq<nat>, inv: seq<Vec>, pos: nat)
    requires Erased(orig, data, parity, missing) && Separable(missing) && pos < MaxLen(orig)
    requires forall i :: 0 <= i < |missing| ==> missing[i] < |data|
    requires forall j :: 0 <= j < |rows| ==> rows[j] < |parity| && parity[rows[j]].Some? && pos < |parity[rows[j]].value|
    requires LeftInverse(inv, Matrix(rows, missing, |data|), |missing|)
    ensures |rows| == |missing| && Rows(inv, |rows|)
    ensures Apply(inv, Syndromes(data, parity, rows, missing, pos)) == Pick(Slice(orig, pos), missing)
  {
    hide Mul, Xor, Dot, Apply, Syndromes, Matrix, Erased, Slice;
    SyndromesAreShares(orig, data, parity, rows, missing, pos);
  }

  lemma SyndromesAreShares(orig: seq<Vec>, data: seq<Vec>, parity: seq<Option<Vec>>, rows: seq<nat>, missing: seq<nat>, pos: nat)
    requires Erased(orig, data, parity, missing) && Separable(missing) && pos < MaxLen(orig)
    requires forall i :: 0 <= i < |missing| ==> missing[i] < |data|
    requires forall j :: 0 <= j < |rows| ==> rows[j] < |parity| && parity[rows[j]].Some? && pos < |parity[rows[j]].value|
    ensures |data| == |orig|
    ensures Syndromes(data, parity, rows, missing, pos) == Apply(Matrix(rows, missing, |data|), Pick(Slice(orig, pos), missing))
  {
    hide Mul, Xor, Dot, Coefficient;
    var d := Slice(orig, pos);
    assert Known(data, missing, pos) == Blanked(d, missing);
    forall j | 0 <= j < |rows|
      ensures Syndromes(data, parity, rows, missing, pos)[j] == Dot(Pick(CoefficientRow(rows[j], |data|), missing), Pick(d, missing))
    {
      MissingShare(CoefficientRow(rows[j], |data|), d, missing);
    }
  }

  // ----- The reconstruction itself

  /** Indices of the parity columns that survive, in order. */
  function Survivors(parity: seq<Option<Vec>>): (rows: seq<nat>)
    ensures IsSelection(rows, |parity|, |rows|)
    ensures forall r :: r in rows <==> 0 <= r < |parity| && parity[r].Some?
  {
    if |parity| == 0 then []
    else
      var n := |parity| - 1;
      var rest := Survivors(parity[..n]);
      assert forall r :: r in rest ==> parity[..n][r] == parity[r];
      assert forall r :: 0 <= r < n && parity[r].Some? ==> r in rest by {
        forall r | 0 <= r < n && parity[r].Some? ensures r in rest { assert parity[..n][r].Some?; }
      }
      if parity[n].Some? then rest + [n] else rest
  }

  /** XOR of the known columns' contribution to parity row r, folded into the parity byte p. */
  method Syndrome(data: array<Vec>, p: Byte, r: nat, missing: seq<nat>, pos: nat) returns (s: Byte)
    ensures s == Xor(p, Dot(CoefficientRow(r, data.Length), Known(data[..], missing, pos)))
  {
    hide Mul, Xor, Dot, Coefficient;
    ghost var c, z := CoefficientRow(r, data.Length), Known(data[..], missing, pos);
    s := p;
    XorLaws(p, ZERO);
    DotZeros([], []);
    for i := 0 to data.Length
      invariant s == Xor(p, Dot(c[..i], z[..i]))
    {
      DotLast(c[..i + 1], z[..i + 1]);
      assert c[..i + 1][..i] == c[..i] && z[..i + 1][..i] == z[..i];
      XorAssoc(p, Dot(c[..i], z[..i]), Mul(c[i], z[i]));
      MulZero(c[i]);
      XorLaws(s, ZERO);
      if i !in missing {
        var g := ComputeCoefficient(r, i, data.Length);
        var t := GfMul(g, At(data[i], pos));
        s := Xor(s, t);
      }
    }
    assert c[..data.Length] == c && z[..data.Length] == z;
  }

  method ComputeCoefficient(row: nat, i: nat, ndata: nat) returns (c: Byte)
    requires i < ndata
    ensures c == Coefficient(row, i, ndata)
  {
    hide Pow;
    var e := ndata - 1 - i;
    if row == 0 {
      c := ONE;
    } else if row == 1 {
      c := GfPow(TWO, e);
    } else {
      c := GfPow(FOUR, e);
    }
  }

  method DotProduct(u: Vec, v: Vec) returns (s: Byte)
    requires |u| == |v|
    ensures s == Dot(u, v)
  {
    hide Mul, Xor, Dot;
    s := ZERO;
    DotZeros([], []);
    for j := 0 to |u|
      invariant s == Dot(u[..j], v[..j])
    {
      DotLast(u[..j + 1], v[..j + 1]);
      assert u[..j + 1][..j] == u[..j] && v[..j + 1][..j] == v[..j];
      var t := GfMul(u[j], v[j]);
      s := Xor(s, t);
    }
    assert u[..|u|] == u && v[..|v|] == v;
  }

  /** The source indexes every surviving parity column up to the longest data column. */
  predicate Usable(data: seq<Vec>, parity: seq<Option<Vec>>, missing: seq<nat>) {
    && (forall i :: 0 <= i < |missing| ==> missing[i] < |data|)
    && (forall r :: 0 <= r < |parity| && parity[r].Some? ==> MaxLen(data) <= |parity[r].value|)
  }

  /** after agrees with before except at byte pos of the missing columns. */
  predicate ChangedOnlyAt(before: seq<Vec>, after: seq<Vec>, missing: seq<nat>, pos: nat) {
    && |after| == |before|
    && (forall i :: 0 <= i < |after| ==> |after[i]| == |before[i]| && (i !in missing ==> after[i] == before[i]))
    && (forall i, x :: 0 <= i < |after| && 0 <= x < |after[i]| && x != pos ==> after[i][x] == before[i][x])
  }

  /** Store what inv makes of the syndromes at byte pos of the missing columns. */
  method StoreAt(data: array<Vec>, missing: seq<nat>, inv: seq<Vec>, syn: Vec, pos: nat)
    requires forall i :: 0 <= i < |missing| ==> missing[i] < data.Length
    requires forall i, j :: 0 <= i < j < |missing| ==> missing[i] != missing[j]
    requires |inv| == |missing| && Rows(inv, |syn|)
    modifies data
    ensures ChangedOnlyAt(old(data[..]), data[..], missing, pos)
    ensures forall m :: 0 <= m < |missing| && pos < |data[missing[m]]| ==> data[missing[m]][pos] == Apply(inv, syn)[m]
  {
    hide Mul, Xor, Dot;
    ghost var sol := Apply(inv, syn);
    for m := 0 to |missing|
      invariant ChangedOnlyAt(old(data[..]), data[..], missing, pos)
      invariant forall i :: 0 <= i < m && pos < |data[missing[i]]| ==> data[missing[i]][pos] == sol[i]
    {
      var col := missing[m];
      assert forall i :: 0 <= i < m ==> missing[i] != col;
      if pos < |data[col]| {
        var v := DotProduct(inv[m], syn);
        data[col] := data[col][pos := v];
      }
    }
  }

  /** Solve one byte position and store the results. */
  method SolveAt(data: array<Vec>, parity: seq<Option<Vec>>, rows: seq<nat>, missing: seq<nat>, inv: seq<Vec>, pos: nat)
    requires Usable(data[..], parity, missing) && Separable(missing) && pos < MaxLen(data[..])
    requires forall j :: 0 <= j < |rows| ==> rows[j] < |parity| && parity[rows[j]].Some?
    requires |inv| == |missing| && Rows(inv, |rows|)
    modifies data
    ensures ChangedOnlyAt(old(data[..]), data[..], missing, pos)
    ensures forall m :: 0 <= m < |missing| && pos < |data[missing[m]]| ==>
              data[missing[m]][pos] == Apply(inv, Syndromes(old(data[..]), parity, rows, missing, pos))[m]
  {
    hide Mul, Xor, Dot, Coefficient, MaxLen, Apply, ChangedOnlyAt;
    ghost var want := Syndromes(data[..], parity, rows, missing, pos);
    var syn: Vec := [];
    for j := 0 to |rows|
      invariant data[..] == old(data[..])
      invariant |syn| == j && forall i :: 0 <= i < j ==> syn[i] == want[i]
    {
      var s := Syndrome(data, parity[rows[j]].value[pos], rows[j], missing, pos);
      syn := syn + [s];
    }
    assert syn == want;
    StoreAt(data, missing, inv, syn, pos);
  }

  lemma OnlyKnownMatters(data: seq<Vec>, data': seq<Vec>, parity: seq<Option<Vec>>, rows: seq<nat>, missing: seq<nat>, pos: nat)
    requires |data| == |data'| && forall i :: 0 <= i < |data| && i !in missing ==> data[i] == data'[i]
    requires forall j :: 0 <= j < |rows| ==> rows[j] < |parity| && parity[rows[j]].Some? && pos < |parity[rows[j]].value|
    ensures Syndromes(data, parity, rows, missing, pos) == Syndromes(data', parity, rows, missing, pos)
  {
    hide Dot, Coefficient, Xor;
    assert Known(data, missing, pos) == Known(data', missing, pos);
  }

  lemma SameLengths(data: seq<Vec>, data': seq<Vec>)
    requires |data| == |data'| && forall i :: 0 <= i < |data| ==> |data[i]| == |data'[i]|
    ensures MaxLen(data) == MaxLen(data')
  {}

  lemma PickMatrix(rows: seq<nat>, sel: seq<nat>, missing: seq<nat>, ndata: nat)
    requires forall i :: 0 <= i < |missing| ==> missing[i] < ndata
    requires forall i :: 0 <= i < |sel| ==> sel[i] < |rows|
    ensures Pick(Matrix(rows, missing, ndata), sel) == Matrix(Pick(rows, sel), missing, ndata)
  {
    hide Coefficient;
  }

  lemma SubSelection(rows: seq<nat>, sel: seq<nat>, n: nat)
    requires IsSelection(rows, n, |rows|) && IsSelection(sel, |rows|, |sel|)
    ensures IsSelection(Pick(rows, sel), n, |sel|)
  {}

  lemma InverseShape(inv: seq<Vec>, m: seq<Vec>, k: nat)
    requires LeftInverse(inv, m, k)
    ensures Square(inv, k)
  {}

  /** An inverse is found exactly when the missing columns are separable. */
  lemma Decided(parity: seq<Option<Vec>>, rows: seq<nat>, missing: seq<nat>, ndata: nat, chosen: Option<(seq<nat>, seq<Vec>)>)
    requires forall i :: 0 <= i < |missing| ==> missing[i] < ndata
    requires IsSelection(rows, |parity|, |rows|) && |missing| <= |rows|
    requires chosen.Some? ==> IsSelection(chosen.value.0, |rows|, |missing|)
    requires chosen.Some? ==> LeftInverse(chosen.value.1, Pick(Matrix(rows, missing, ndata), chosen.value.0), |missing|)
    requires chosen.None? ==> forall s :: IsSelection(s, |rows|, |missing|) ==> Singular(Pick(Matrix(rows, missing, ndata), s), |missing|)
    ensures chosen.Some? ==> Separable(missing) && Square(chosen.value.1, |missing|)
    ensures chosen.Some? ==> LeftInverse(chosen.value.1, Matrix(Pick(rows, chosen.value.0), missing, ndata), |missing|)
    ensures chosen.None? && |parity| <= 3 ==> !Separable(missing)
  {
    hide LeftInverse, Coefficient, Singular;
    var k := |missing|;
    if chosen.Some? {
      var sel, inv := chosen.value.0, chosen.value.1;
      PickMatrix(rows, sel, missing, ndata);
      InverseNotSingular(inv, Matrix(Pick(rows, sel), missing, ndata), k);
      InverseShape(inv, Matrix(Pick(rows, sel), missing, ndata), k);
      if !Separable(missing) {
        InseparableIsSingular(Pick(rows, sel), missing, ndata);
      }
    } else if |parity| <= 3 && Separable(missing) {
      var first := seq(k, i => i);
      assert IsSelection(first, |rows|, k);
      PickMatrix(rows, first, missing, ndata);
      SubSelection(rows, first, |parity|);
      NotSingular(Pick(rows, first), missing, ndata);
    }
  }

  lemma NotSingular(rows: seq<nat>, missing: seq<nat>, ndata: nat)
    requires forall i :: 0 <= i < |missing| ==> missing[i] < ndata
    requires IsSelection(rows, 3, |missing|) && Separable(missing)
    ensures !Singular(Matrix(rows, missing, ndata), |missing|)
  {
    hide Coefficient, Apply, Matrix;
    forall x: Vec | |x| == |missing| && Apply(Matrix(rows, missing, ndata), x) == Zeros(|rows|)
      ensures x == Zeros(|missing|)
    {
      TrivialKernel(rows, missing, ndata, x);
    }
  }

  /** after has at every missing byte what inv makes of the syndromes of data, and else is data. */
  ghost predicate Solved(data: seq<Vec>, after: seq<Vec>, parity: seq<Option<Vec>>, rows: seq<nat>, missing: seq<nat>, inv: seq<Vec>)
    requires Usable(data, parity, missing) && Separable(missing)
    requires forall j :: 0 <= j < |rows| ==> rows[j] < |parity| && parity[rows[j]].Some?
    requires |inv| == |missing| && Rows(inv, |rows|)
  {
    && |after| == |data|
    && (forall i :: 0 <= i < |data| ==> |after[i]| == |data[i]| && (i !in missing ==> after[i] == data[i]))
    && (forall m, x :: 0 <= m < |missing| && 0 <= x < MaxLen(data) && x < |data[missing[m]]| ==>
          after[missing[m]][x] == Apply(inv, Syndromes(data, parity, rows, missing, x))[m])
  }

  lemma AllSolved(orig: seq<Vec>, data: seq<Vec>, after: seq<Vec>, parity: seq<Option<Vec>>, rows: seq<nat>, missing: seq<nat>, inv: seq<Vec>)
    requires Separable(missing) && Usable(data, parity, missing)
    requires forall j :: 0 <= j < |rows| ==> rows[j] < |parity| && parity[rows[j]].Some?
    requires |rows| == |missing| == |inv| && Rows(inv, |rows|)
    requires Solved(data, after, parity, rows, missing, inv)
    requires LeftInverse(inv, Matrix(rows, missing, |data|), |missing|)
    requires Erased(orig, data, parity, missing)
    ensures after == orig
  {
    hide Mul, Xor, Dot, Coefficient, Apply, LeftInverse, Syndromes, MaxLen;
    SameLengths(orig, data);
    forall i, x | 0 <= i < |data| && 0 <= x < |after[i]|
      ensures after[i][x] == orig[i][x]
    {
      if i in missing {
        var m :| 0 <= m < |missing| && missing[m] == i;
        SolvesOriginal(orig, data, parity, rows, missing, inv, x);
        assert Pick(Slice(orig, x), missing)[m] == At(orig[i], x);
      }
    }
    forall i | 0 <= i < |data| ensures after[i] == orig[i] {}
  }

  /** Solve every byte position of the missing columns. */
  method SolveAll(data: array<Vec>, parity: seq<Option<Vec>>, rows: seq<nat>, missing: seq<nat>, inv: seq<Vec>)
    requires Usable(data[..], parity, missing) && Separable(missing)
    requires forall j :: 0 <= j < |rows| ==> rows[j] < |parity| && parity[rows[j]].Some?
    requires |inv| == |missing| && Rows(inv, |rows|)
    modifies data
    ensures Solved(old(data[..]), data[..], parity, rows, missing, inv)
  {
    hide Mul, Xor, Dot, Coefficient, Apply, MaxLen, Syndromes;
    ghost var data0 := data[..];
    var len := MaxLen(data[..]);
    for pos := 0 to len
      invariant forall i :: 0 <= i < data.Length ==> |data[i]| == |data0[i]| && (i !in missing ==> data[i] == data0[i])
      invariant forall m, x :: 0 <= m < |missing| && 0 <= x < pos && x < |data0[missing[m]]| ==>
                  data[missing[m]][x] == Apply(inv, Syndromes(data0, parity, rows, missing, x))[m]
    {
      SameLengths(data0, data[..]);
      OnlyKnownMatters(data0, data[..], parity, rows, missing, pos);
      SolveAt(data, parity, rows, missing, inv, pos);
    }
  }

  /** Rebuild the missing columns of data in place. */
  method Reconstruct(data: array<Vec>, parity: seq<Option<Vec>>, missing: seq<nat>) returns (r: Result<(), ReconstructError>)
    requires Usable(data[..], parity, missing)
    modifies data
    // Only missing columns change, and no column changes length.
    ensures forall i :: 0 <= i < data.Length ==> |data[i]| == |old(data[i])| && (i !in missing ==> data[i] == old(data[i]))
    ensures r.Err? ==> data[..] == old(data[..])
    // It refuses only when it must.
    ensures r == Err(TooManyMissing(|missing|, |Survivors(parity)|)) <==> 0 < |missing| && |Survivors(parity)| < |missing|
    ensures |parity| <= 3 ==> (r.Ok? <==> |missing| == 0 || (|missing| <= |Survivors(parity)| && Separable(missing)))
    // What was lost comes back exactly.
    ensures r.Ok? ==> forall orig :: Erased(orig, old(data[..]), parity, missing) ==> data[..] == orig
  {
    hide Mul, Xor, Dot, Coefficient, Apply, LeftInverse, Singular, MaxLen;
    var k := |missing|;
    if k == 0 {
      forall orig | Erased(orig, data[..], parity, missing) ensures data[..] == orig {}
      return Ok(());
    }
    var rows := Survivors(parity);
    if |rows| < k {
      return Err(TooManyMissing(k, |rows|));
    }
    ghost var ndata := data.Length;
    var a := Matrix(rows, missing, data.Length);
    var chosen := InvertRows(a, k);
    Decided(parity, rows, missing, ndata, chosen);
    if chosen.None? {
      return Err(SingularMatrix);
    }
    var sel, inv := chosen.value.0, chosen.value.1;
    var use := Pick(rows, sel);
    ghost var data0 := data[..];
    SolveAll(data, parity, use, missing, inv);
    forall orig | Erased(orig, data0, parity, missing) ensures data[..] == orig {
      AllSolved(orig, data0, data[..], parity, use, missing, inv);
    }
    return Ok(());
  }
}
