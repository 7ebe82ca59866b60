/** Words shared by the hashes. */
module HashWords {
  import opened Octets

  const TWO64: nat := 0x1_0000_0000_0000_0000

  /** Eight 64-bit words. */
  datatype Words = Words(w0: nat, w1: nat, w2: nat, w3: nat, w4: nat, w5: nat, w6: nat, w7: nat)

  function Le8(w: nat): (b: Bytes)
    ensures |b| == 8
  {
    ToLe(w, 8)
  }

  function WordBytes(x: Words): (b: Bytes)
    ensures |b| == 64
  {
    Le8(x.w0) + Le8(x.w1) + Le8(x.w2) + Le8(x.w3) + Le8(x.w4) + Le8(x.w5) + Le8(x.w6) + Le8(x.w7)
  }

  function Concat(pieces: seq<Bytes>): Bytes {
    if |pieces| == 0 then [] else Concat(pieces[..|pieces| - 1]) + pieces[|pieces| - 1]
  }
}
