/** RAIDZ parity: the P, Q and R columns of a stripe. */
module RaidzParity {
  import opened Gf256
  import opened GfPowers
  import opened GfVectors

  /** Coefficient of data column i of ndata in parity row `row` (0 = P, 1 = Q, 2 and above = R). */
  function Coefficient(row: nat, i: nat, ndata: nat): Byte
    requires i < ndata
  {
    var e := ndata - 1 - i;
    if row == 0 then ONE else if row == 1 then Pow(TWO, e) else Pow(FOUR, e)
  }

  function CoefficientRow(row: nat, ndata: nat): (c: Vec)
    ensures |c| == ndata && forall i :: 0 <= i < ndata ==> c[i] == Coefficient(row, i, ndata)
  {
    seq(ndata, i requires 0 <= i < ndata => Coefficient(row, i, ndata))
  }

  /** Byte `pos` of a column; shorter columns count as zero-padded. */
  function At(col: Vec, pos: nat): Byte {
    if pos < |col| then col[pos] else ZERO
  }

  function Slice(data: seq<Vec>, pos: nat): (d: Vec)
    ensures |d| == |data| && forall i :: 0 <= i < |data| ==> d[i] == At(data[i], pos)
  {
    seq(|data|, i requires 0 <= i < |data| => At(data[i], pos))
  }

  function MaxLen(data: seq<Vec>): (len: nat)
    ensures forall i :: 0 <= i < |data| ==> |data[i]| <= len
    ensures len == 0 || exists i :: 0 <= i < |data| && |data[i]| == len
  {
    if |data| == 0 then 0
    else
      var rest := MaxLen(data[..|data| - 1]);
      var last := |data[|data| - 1]|;
      if last > rest then last else rest
  }

  /** Byte `pos` of parity row `row`: the weighted sum of the data bytes. */
  function ParityByte(row: nat, data: seq<Vec>, pos: nat): Byte {
    Dot(CoefficientRow(row, |data|), Slice(data, pos))
  }

  // ----- Horner evaluation is the weighted sum

  function Generator(row: nat): Byte {
    if row == 0 then ONE else if row == 1 then TWO else FOUR
  }

  function Horner(g: Byte, d: Vec): Byte {
    if |d| == 0 then ZERO else Xor(Mul(Horner(g, d[..|d| - 1]), g), d[|d| - 1])
  }

  lemma CoefficientIsPower(row: nat, i: nat, ndata: nat)
    requires i < ndata
    ensures Coefficient(row, i, ndata) == Pow(Generator(row), ndata - 1 - i)
  {
    hide Mul;
    PowOne(ndata - 1 - i);
  }

  lemma {:induction false} HornerIsDot(row: nat, d: Vec)
    ensures Horner(Generator(row), d) == Dot(CoefficientRow(row, |d|), d)
  {
    hide Mul, Xor, Pow, Generator, Coefficient;
    var n, g := |d| - 1, Generator(row);
    if n >= 0 {
      var c, c' := CoefficientRow(row, n + 1), CoefficientRow(row, n);
      HornerIsDot(row, d[..n]);
      assert c[..n] == Scale(g, c') by {
        forall i | 0 <= i < n ensures c[i] == Mul(g, c'[i]) {
          CoefficientIsPower(row, i, n + 1);
          CoefficientIsPower(row, i, n);
          PowStep(g, n - 1 - i);
        }
      }
      DotScale(g, c', d[..n]);
      MulComm(Horner(g, d[..n]), g);
      CoefficientIsPower(row, n, n + 1);
      PowZero(g);
      MulOneLeft(d[n]);
    }
  }

  lemma PowStep(g: Byte, e: nat)
    ensures Pow(g, e + 1) == Mul(g, Pow(g, e))
  {
    hide Mul;
    MulComm(g, Pow(g, e));
  }

  /** Compute nparity parity columns, each as long as the longest data column. */
  method GenerateParity(data: seq<Vec>, nparity: nat) returns (out: seq<Vec>)
    requires nparity > 0 || MaxLen(data) == 0
    ensures |out| == nparity
    ensures forall r :: 0 <= r < nparity ==> |out[r]| == MaxLen(data)
    ensures forall r, pos :: 0 <= r < nparity && 0 <= pos < MaxLen(data) ==>
              out[r][pos] == if r < 3 then ParityByte(r, data, pos) else ZERO
  {
    hide Mul, Xor, Dot, Horner, Coefficient;
    var len := MaxLen(data);
    out := seq(nparity, r => Zeros(len));
    for pos := 0 to len
      invariant |out| == nparity && forall r :: 0 <= r < nparity ==> |out[r]| == len
      invariant forall r, x :: 0 <= r < nparity && 0 <= x < len ==>
                  out[r][x] == if r < 3 && x < pos then ParityByte(r, data, x) else ZERO
    {
      var p, q, r := HornerColumns(data, pos);
      out := out[0 := out[0][pos := p]];
      if nparity > 1 {
        out := out[1 := out[1][pos := q]];
      }
      if nparity > 2 {
        out := out[2 := out[2][pos := r]];
      }
    }
  }

  /** One byte position: P, Q and R accumulated over the data columns. */
  method HornerColumns(data: seq<Vec>, pos: nat) returns (p: Byte, q: Byte, r: Byte)
    ensures p == ParityByte(0, data, pos) && q == ParityByte(1, data, pos) && r == ParityByte(2, data, pos)
  {
    hide Mul, Xor, Dot;
    p, q, r := ZERO, ZERO, ZERO;
    ghost var s := Slice(data, pos);
    HornerStart();
    for i := 0 to |data|
      invariant p == Horner(ONE, s[..i]) && q == Horner(TWO, s[..i]) && r == Horner(FOUR, s[..i])
    {
      var d := At(data[i], pos);
      assert s[..i + 1][..i] == s[..i];
      MulOneRight(p);
      if i == 0 {
        MulZero(TWO);
        MulZero(FOUR);
        XorLaws(d, ZERO);
        p := d;
        q := d;
        r := d;
      } else {
        p := Xor(p, d);
        var q2 := GfMul(q, TWO);
        q := Xor(q2, d);
        var r2 := GfMul(r, FOUR);
        r := Xor(r2, d);
      }
    }
    assert s[..|data|] == s;
    HornerIsDot(0, s);
    HornerIsDot(1, s);
    HornerIsDot(2, s);
  }

  lemma HornerStart()
    ensures Horner(ONE, []) == Horner(TWO, []) == Horner(FOUR, []) == ZERO
  {}
}
