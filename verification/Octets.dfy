/** Bytes, numbers written in bytes, and bytes found at a position of a buffer. */
module Octets {
  type U8 = n: nat | n < 0x100
  type U16 = n: nat | n < 0x1_0000
  type U32 = n: nat | n < 0x1_0000_0000
  type U64 = n: nat | n < 0x1_0000_0000_0000_0000
  type I32 = i: int | -0x8000_0000 <= i < 0x8000_0000
  type I64 = i: int | -0x8000_0000_0000_0000 <= i < 0x8000_0000_0000_0000

  const U64_MAX: nat := 0xffff_ffff_ffff_ffff

  type Bytes = seq<U8>

  datatype Endian = Little | Big

  // ----- Numbers in bytes

  function Pow256(k: nat): (p: nat)
    ensures p > 0
  {
    if k == 0 then 1 else 0x100 * Pow256(k - 1)
  }

  lemma Pow256Is()
    ensures Pow256(2) == 0x1_0000 && Pow256(4) == 0x1_0000_0000 && Pow256(8) == 0x1_0000_0000_0000_0000
  {
    assert Pow256(4) == 0x100 * (0x100 * Pow256(2));
    assert Pow256(6) == 0x100 * (0x100 * Pow256(4));
  }

  /** n in k bytes, most significant first; what does not fit is cut off. */
  function ToBe(n: nat, k: nat): (b: Bytes)
    ensures |b| == k
  {
    if k == 0 then [] else ToBe(n / 0x100, k - 1) + [n % 0x100]
  }

  function FromBe(b: Bytes): nat {
    if |b| == 0 then 0 else 0x100 * FromBe(b[..|b| - 1]) + b[|b| - 1]
  }

  /** n in k bytes, least significant first. */
  function ToLe(n: nat, k: nat): (b: Bytes)
    ensures |b| == k
  {
    if k == 0 then [] else [n % 0x100] + ToLe(n / 0x100, k - 1)
  }

  function FromLe(b: Bytes): nat {
    if |b| == 0 then 0 else b[0] + 0x100 * FromLe(b[1..])
  }

  lemma {:induction false} BeRoundTrip(n: nat, k: nat)
    requires n < Pow256(k)
    ensures FromBe(ToBe(n, k)) == n
  {
    if k > 0 {
      BeRoundTrip(n / 0x100, k - 1);
      assert ToBe(n, k)[..k - 1] == ToBe(n / 0x100, k - 1);
    }
  }

  lemma {:induction false} LeRoundTrip(n: nat, k: nat)
    requires n < Pow256(k)
    ensures FromLe(ToLe(n, k)) == n
  {
    if k > 0 {
      LeRoundTrip(n / 0x100, k - 1);
      assert ToLe(n, k)[1..] == ToLe(n / 0x100, k - 1);
    }
  }

  lemma {:induction false} BeBound(b: Bytes)
    ensures FromBe(b) < Pow256(|b|)
  {
    if |b| > 0 {
      BeBound(b[..|b| - 1]);
    }
  }

  lemma {:induction false} LeBound(b: Bytes)
    ensures FromLe(b) < Pow256(|b|)
  {
    if |b| > 0 {
      LeBound(b[1..]);
    }
  }

  function Read(endian: Endian, b: Bytes): (n: nat)
    ensures n < Pow256(|b|)
  {
    match endian
    case Little => LeBound(b); FromLe(b)
    case Big => BeBound(b); FromBe(b)
  }

  /** The number in two's complement modulo m that i is cut to. */
  function Signed(i: int, m: nat): int
    requires m > 0
  {
    if i % m >= m / 2 then i % m - m else i % m
  }

  // ----- Bytes in a buffer

  function Zeros(n: nat): (z: Bytes)
    ensures |z| == n
  {
    seq(n, _ => 0)
  }

  predicate HoldsAt(buf: Bytes, pos: nat, b: Bytes) {
    pos + |b| <= |buf| && buf[pos..pos + |b|] == b
  }

  lemma HoldsBoth(buf: Bytes, pos: nat, a: Bytes, b: Bytes)
    ensures HoldsAt(buf, pos, a + b) <==> HoldsAt(buf, pos, a) && HoldsAt(buf, pos + |a|, b)
  {
    if pos + |a| + |b| <= |buf| {
      var s := buf[pos..pos + |a| + |b|];
      assert s[..|a|] == buf[pos..pos + |a|] && s[|a|..] == buf[pos + |a|..pos + |a| + |b|];
      assert s == s[..|a|] + s[|a|..] && (a + b)[..|a|] == a && (a + b)[|a|..] == b;
    }
  }

  /** What lies before `end` lies there in the buffer cut off at `end`. */
  lemma HoldsBefore(buf: Bytes, end: nat, pos: nat, b: Bytes)
    requires end <= |buf| && pos + |b| <= end
    ensures HoldsAt(buf[..end], pos, b) <==> HoldsAt(buf, pos, b)
  {
    assert buf[..end][pos..pos + |b|] == buf[pos..pos + |b|];
  }

  lemma HoldsNumber(buf: Bytes, pos: nat, n: nat, k: nat)
    requires n < Pow256(k) && HoldsAt(buf, pos, ToBe(n, k))
    ensures pos + k <= |buf| && FromBe(buf[pos..pos + k]) == n
  {
    BeRoundTrip(n, k);
  }
}
