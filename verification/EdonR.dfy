/** Edon-R 512 over an uninterpreted compression: streaming input equals the one-shot definition. */
module EdonR {
  import opened HashWords
  import opened Octets

  const BLOCK: nat := 128

  /** The double pipe: sixteen chaining words. */
  datatype Pipe = Pipe(lo: Words, hi: Words)

  const IV := Pipe(
    Words(0x8081828384858687, 0x88898a8b8c8d8e8f, 0x9091929394959697, 0x98999a9b9c9d9e9f,
          0xa0a1a2a3a4a5a6a7, 0xa8a9aaabacadaeaf, 0xb0b1b2b3b4b5b6b7, 0xb8b9babbbcbdbebf),
    Words(0xc0c1c2c3c4c5c6c7, 0xc8c9cacbcccdcecf, 0xd0d1d2d3d4d5d6d7, 0xd8d9dadbdcdddedf,
          0xe0e1e2e3e4e5e6e7, 0xe8e9eaebecedeeef, 0xf0f1f2f3f4f5f6f7, 0xf8f9fafbfcfdfeff))

  /** Compression of one 128-byte block into the pipe. */
  type Compression = (Pipe, Bytes) -> Pipe

  // ----- The definition

  /** The pipe after the first i blocks of m. */
  function Fold(f: Compression, m: Bytes, i: nat): Pipe
    requires BLOCK * i <= |m|
  {
    if i == 0 then IV else f(Fold(f, m, i - 1), m[BLOCK * (i - 1)..BLOCK * i])
  }

  /** Zeros between the marker byte and the bit count. */
  function PadZeros(len: nat): nat {
    if len % BLOCK < 120 then 119 - len % BLOCK else 247 - len % BLOCK
  }

  function PaddedMessage(m: Bytes): (p: Bytes)
    ensures |p| % BLOCK == 0 && |m| + 9 <= |p| < |m| + 9 + BLOCK
  {
    PaddedLength(|m|);
    var bits := Le8(|m| * 8 % TWO64);
    m + [0x80] + Zeros(PadZeros(|m|)) + bits
  }

  lemma PaddedLength(len: nat)
    ensures (len + 1 + PadZeros(len) + 8) % BLOCK == 0 && PadZeros(len) < BLOCK
  {
    var blocks := if len % BLOCK < 120 then len / BLOCK + 1 else len / BLOCK + 2;
    assert len + 1 + PadZeros(len) + 8 == BLOCK * blocks;
  }

  function EdonHash(f: Compression, m: Bytes): Bytes {
    var p := PaddedMessage(m);
    WordBytes(Fold(f, p, |p| / BLOCK).hi)
  }

  lemma {:induction false} FoldPrefix(f: Compression, m: Bytes, d: Bytes, i: nat)
    requires BLOCK * i <= |m|
    ensures Fold(f, m + d, i) == Fold(f, m, i)
  {
    if i > 0 {
      FoldPrefix(f, m, d, i - 1);
      assert (m + d)[BLOCK * (i - 1)..BLOCK * i] == m[BLOCK * (i - 1)..BLOCK * i];
    }
  }

  // ----- The streaming state

  /** pipe after i blocks of m, with `held` the rest. */
  ghost predicate Holding(f: Compression, m: Bytes, i: nat, pipe: Pipe, held: Bytes) {
    BLOCK * i <= |m| && pipe == Fold(f, m, i) && held == m[BLOCK * i..]
  }

  lemma StepHolds(f: Compression, m: Bytes, i: nat, pipe: Pipe, held: Bytes)
    requires Holding(f, m, i, pipe, held) && |held| >= BLOCK
    ensures Holding(f, m, i + 1, f(pipe, held[..BLOCK]), held[BLOCK..])
  {
    assert held[..BLOCK] == m[BLOCK * i..BLOCK * (i + 1)];
    assert held[BLOCK..] == m[BLOCK * (i + 1)..];
  }

  lemma MoreHeld(f: Compression, m: Bytes, d: Bytes, i: nat, pipe: Pipe, held: Bytes)
    requires Holding(f, m, i, pipe, held)
    ensures Holding(f, m + d, i, pipe, held + d)
  {
    FoldPrefix(f, m, d, i);
    assert (m + d)[BLOCK * i..] == m[BLOCK * i..] + d;
  }

  lemma HeldLength(f: Compression, m: Bytes, i: nat, pipe: Pipe, held: Bytes)
    requires Holding(f, m, i, pipe, held)
    ensures |m| == BLOCK * i + |held|
    ensures |held| < BLOCK ==> i == |m| / BLOCK && |held| == |m| % BLOCK
    ensures held == [] ==> pipe == Fold(f, m, i) && i == |m| / BLOCK
  {}

  lemma PaddedIs(m: Bytes)
    ensures PaddedMessage(m) == m + ([0x80] + Zeros(PadZeros(|m|)) + Le8(|m| * 8 % TWO64))
  {
    hide Le8;
    var a, b, c := [0x80], Zeros(PadZeros(|m|)), Le8(|m| * 8 % TWO64);
    assert m + a + b + c == m + (a + b + c);
  }

  /** A tail is determined byte by byte. */
  lemma TailIs(t: Bytes, held: Bytes, zeros: nat, count: Bytes)
    requires |t| == |held| + 1 + zeros + |count|
    requires forall k :: 0 <= k < |t| ==>
               t[k] == if k < |held| then held[k] else if k == |held| then 0x80
                       else if k <= |held| + zeros then 0 else count[k - (|held| + 1 + zeros)]
    ensures t == held + ([0x80] + Zeros(zeros) + count)
  {}

  class EdonR512 {
    const f: Compression
    var pipe: Pipe
    const buf: array<U8>
    var buffered: nat
    var totalBytes: nat

    ghost var absorbed: Bytes

    ghost predicate Valid()
      reads this, buf
    {
      && buf.Length == BLOCK && buffered < BLOCK && totalBytes == |absorbed|
      && Holding(f, absorbed, |absorbed| / BLOCK, pipe, buf[..buffered])
    }

    constructor (compression: Compression)
      ensures Valid() && fresh(buf) && f == compression && absorbed == []
    {
      f, pipe, buffered, totalBytes, absorbed := compression, IV, 0, 0, [];
      buf := new U8[BLOCK](i => 0);
      new;
      assert buf[..0] == [];
    }

    method Compress(block: Bytes)
      modifies this`pipe
      ensures pipe == f(old(pipe), block)
    {
      pipe := f(pipe, block);
    }

    /** Append bytes to the buffered ones. */
    method Fill(data: Bytes)
      requires buf.Length == BLOCK && buffered + |data| <= BLOCK
      modifies this`buffered, buf
      ensures buffered == old(buffered) + |data|
      ensures buf[..buffered] == old(buf[..buffered]) + data
    {
      forall k | buffered <= k < buffered + |data| {
        buf[k] := data[k - buffered];
      }
      buffered := buffered + |data|;
    }

    /** Add to the buffered bytes, up to a block, which is compressed when complete. */
    method TopUp(input: Bytes, ghost all: Bytes, ghost before: nat) returns (data: Bytes, ghost i: nat)
      requires buf.Length == BLOCK && 0 < buffered < BLOCK
      requires Holding(f, all, before, pipe, buf[..buffered] + input)
      modifies this`pipe, this`buffered, buf
      ensures buffered < BLOCK && Holding(f, all, i, pipe, buf[..buffered] + data)
      ensures buffered > 0 ==> data == []
    {
      hide Holding;
      ghost var held := buf[..buffered] + input;
      var n := if BLOCK - buffered < |input| then BLOCK - buffered else |input|;
      Fill(input[..n]);
      data, i := input[n..], before;
      assert buf[..buffered] + data == held;
      if buffered == BLOCK {
        assert buf[..] == buf[..buffered] == held[..BLOCK] && data == held[BLOCK..];
        StepHolds(f, all, i, pipe, held);
        Compress(buf[..]);
        buffered := 0;
        i := i + 1;
        assert buf[..0] + data == data;
      }
    }

    /** Compress every complete block. */
    method CompressBlocks(input: Bytes, ghost all: Bytes, ghost before: nat) returns (data: Bytes, ghost i: nat)
      modifies this`pipe
      ensures |data| < BLOCK && (|input| < BLOCK ==> pipe == old(pipe) && (data, i) == (input, before))
      ensures old(Holding(f, all, before, pipe, input)) ==> Holding(f, all, i, pipe, data)
    {
      hide Holding;
      data, i := input, before;
      while |data| >= BLOCK
        invariant |input| < BLOCK ==> pipe == old(pipe) && (data, i) == (input, before)
        invariant old(Holding(f, all, before, pipe, input)) ==> Holding(f, all, i, pipe, data)
      {
        if Holding(f, all, i, pipe, data) {
          StepHolds(f, all, i, pipe, data);
        }
        Compress(data[..BLOCK]);
        data := data[BLOCK..];
        i := i + 1;
      }
    }

    /** Absorb bytes: every complete block is compressed at once, up to 127 stay buffered. */
    method Update(input: Bytes)
      requires Valid()
      modifies this, buf
      ensures Valid()
      ensures absorbed == old(absorbed) + input
    {
      hide Holding;
      var data := input;
      ghost var all := absorbed + input;
      ghost var i: nat := |absorbed| / BLOCK;
      HeldLength(f, absorbed, i, pipe, buf[..buffered]);
      MoreHeld(f, absorbed, input, i, pipe, buf[..buffered]);
      totalBytes := totalBytes + |data|;
      if buffered > 0 {
        data, i := TopUp(data, all, i);
      }
      assert buf[..0] + data == data;
      data, i := CompressBlocks(data, all, i);
      assert buf[..0] + data == data;
      HeldLength(f, all, i, pipe, buf[..buffered] + data);
      Fill(data);
      absorbed := all;
    }

    /** The buffered bytes, the marker, zeros and the bit count: one block, or two when one has no room. */
    method Tail(bits: nat) returns (tail: Bytes)
      requires Valid() && buffered == |absorbed| % BLOCK
      ensures tail == buf[..buffered] + ([0x80] + Zeros(PadZeros(|absorbed|)) + Le8(bits))
      ensures |tail| % BLOCK == 0
    {
      hide Le8, Holding;
      var len := if buffered < 120 then BLOCK else 2 * BLOCK;
      var t := new U8[2 * BLOCK](k => 0);
      forall k | 0 <= k < buffered {
        t[k] := buf[k];
      }
      t[buffered] := 0x80;
      var count := Le8(bits);
      forall k | len - 8 <= k < len {
        t[k] := count[k - (len - 8)];
      }
      tail := t[..len];
      assert PadZeros(|absorbed|) == len - 9 - buffered;
      TailIs(tail, buf[..buffered], len - 9 - buffered, count);
    }

    /** Pad (0x80, zeros, 64-bit bit count) and return the digest. */
    method Finish() returns (digest: Bytes)
      requires Valid()
      modifies this, buf
      ensures digest == EdonHash(f, old(absorbed))
    {
      hide Holding, Fold, Le8, WordBytes;
      var bits := totalBytes * 8 % TWO64;
      ghost var i: nat := |absorbed| / BLOCK;
      ghost var held := buf[..buffered];
      HeldLength(f, absorbed, i, pipe, held);
      var todo := Tail(bits);
      ghost var rest := [0x80] + Zeros(PadZeros(|absorbed|)) + Le8(bits);
      PaddedIs(absorbed);
      MoreHeld(f, absorbed, rest, i, pipe, held);
      while |todo| > 0
        invariant Holding(f, absorbed + rest, i, pipe, todo) && |todo| % BLOCK == 0
        invariant absorbed == old(absorbed)
      {
        StepHolds(f, absorbed + rest, i, pipe, todo);
        Compress(todo[..BLOCK]);
        todo := todo[BLOCK..];
        i := i + 1;
      }
      HeldLength(f, absorbed + rest, i, pipe, todo);
      digest := WordBytes(pipe.hi);
    }
  }

  /** However the message is cut into updates, the digest is the one-shot hash of the whole. */
  method HashPieces(f: Compression, pieces: seq<Bytes>) returns (digest: Bytes)
    ensures digest == EdonHash(f, Concat(pieces))
  {
    hide EdonHash;
    var h := new EdonR512(f);
    for i := 0 to |pieces|
      invariant h.Valid() && fresh(h) && fresh(h.buf) && h.f == f
      invariant h.absorbed == Concat(pieces[..i])
    {
      assert pieces[..i + 1][..i] == pieces[..i];
      h.Update(pieces[i]);
    }
    assert pieces[..|pieces|] == pieces;
    digest := h.Finish();
  }
}
