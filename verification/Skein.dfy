/** Skein-512 over an uninterpreted Threefish: streaming input equals the one-shot definition. */
module Skein {

  import opened HashWords
  import opened Octets

  const BLOCK: nat := 64

  // Block types
  const TYPE_KEY: nat := 0
  const TYPE_CFG: nat := 4
  const TYPE_MSG: nat := 48
  const TYPE_OUT: nat := 63
  const SCHEMA_VER: nat := 0x1_3341_4853

  const ZERO_WORDS := Words(0, 0, 0, 0, 0, 0, 0, 0)

  /** The tweak, field by field: bytes so far, block type, first and final flags. */
  datatype Tweak = Tweak(position: nat, kind: nat, first: bool, final: bool)

  /** Threefish-512 in its feed-forward mode: chaining words, tweak, block to chaining words. */
  type Cipher = (Words, Tweak, Bytes) -> Words

  /** One UBI step: count the bytes, encrypt, clear the first flag. */
  function Ubi(c: Cipher, x: Words, t: Tweak, block: Bytes, count: nat): (Words, Tweak) {
    var t' := t.(position := (t.position + count) % TWO64);
    (c(x, t', block), t'.(first := false))
  }

  function StartTweak(kind: nat, final: bool): Tweak {
    Tweak(0, kind, true, final)
  }

  function Pad(b: Bytes): (p: Bytes)
    requires |b| <= BLOCK
    ensures |p| == BLOCK
  { b + Zeros(BLOCK - |b|) }

  // ----- The definition: section 3.4 of the Skein 1.3 specification

  /** Chaining words after the first i blocks of m, none of them final. */
  function Chain(c: Cipher, x: Words, kind: nat, m: Bytes, i: nat): Words
    requires BLOCK * i <= |m|
  {
    if i == 0 then x
    else c(Chain(c, x, kind, m, i - 1), Tweak(BLOCK * i % TWO64, kind, i == 1, false), m[BLOCK * (i - 1)..BLOCK * i])
  }

  /** Blocks before the last: the last block holds 1 to 64 bytes, or none for the empty message. */
  function LastBlock(len: nat): (i: nat)
    ensures BLOCK * i <= len && (len > 0 ==> BLOCK * i < len) && len <= BLOCK * i + BLOCK
  {
    if len == 0 then 0 else (len - 1) / BLOCK
  }

  /** UBI of a whole message: the last block padded with zeros, its tweak final and counting the true length. */
  function UbiHash(c: Cipher, x: Words, kind: nat, m: Bytes): Words {
    var i := LastBlock(|m|);
    c(Chain(c, x, kind, m, i), Tweak(|m| % TWO64, kind, i == 0, true), Pad(m[BLOCK * i..]))
  }

  function ConfigString(hashBits: nat): (s: Bytes)
    ensures |s| == 32
  {
    Le8(SCHEMA_VER) + Le8(hashBits) + Zeros(16)
  }

  /** Output block by block until n bytes are there. */
  function Output(c: Cipher, chain: Words, i: nat, n: nat): (out: Bytes)
    ensures |out| == n
    decreases n
  {
    var b := WordBytes(UbiHash(c, chain, TYPE_OUT, Le8(i % TWO64)));
    if n <= BLOCK then b[..n] else b + Output(c, chain, i + 1, n - BLOCK)
  }

  /** Chaining words for the message phase: key, then configuration. */
  function MessageStart(c: Cipher, hashBits: nat, key: Bytes): Words {
    var keyed := if key == [] then ZERO_WORDS else UbiHash(c, ZERO_WORDS, TYPE_KEY, key);
    UbiHash(c, keyed, TYPE_CFG, ConfigString(hashBits))
  }

  function SkeinHash(c: Cipher, hashBits: nat, key: Bytes, m: Bytes): Bytes {
    Output(c, UbiHash(c, MessageStart(c, hashBits, key), TYPE_MSG, m), 0, (hashBits + 7) / 8)
  }

  /** Blocks that are wholly in m do not depend on what follows. */
  lemma {:induction false} ChainPrefix(c: Cipher, x: Words, kind: nat, m: Bytes, d: Bytes, i: nat)
    requires BLOCK * i <= |m|
    ensures Chain(c, x, kind, m + d, i) == Chain(c, x, kind, m, i)
  {
    if i > 0 {
      ChainPrefix(c, x, kind, m, d, i - 1);
      assert (m + d)[BLOCK * (i - 1)..BLOCK * i] == m[BLOCK * (i - 1)..BLOCK * i];
    }
  }

  // ----- The streaming state

  /** x and t after all of m but its last block, with `held` the bytes kept back. */
  ghost predicate Holding(c: Cipher, start: Words, kind: nat, m: Bytes, i: nat, x: Words, t: Tweak, held: Bytes) {
    && BLOCK * i <= |m| && x == Chain(c, start, kind, m, i)
    && t == Tweak(BLOCK * i % TWO64, kind, i == 0, false) && held == m[BLOCK * i..]
  }

  lemma ChainNext(c: Cipher, x: Words, kind: nat, m: Bytes, i: nat)
    requires BLOCK * (i + 1) <= |m|
    ensures Chain(c, x, kind, m, i + 1)
         == c(Chain(c, x, kind, m, i), Tweak(BLOCK * (i + 1) % TWO64, kind, i == 0, false), m[BLOCK * i..BLOCK * (i + 1)])
  {}

  lemma NextPosition(i: nat)
    ensures (BLOCK * i % TWO64 + BLOCK) % TWO64 == BLOCK * (i + 1) % TWO64
  {}

  lemma StepHolds(c: Cipher, start: Words, kind: nat, m: Bytes, i: nat, x: Words, t: Tweak, held: Bytes)
    requires Holding(c, start, kind, m, i, x, t, held) && |held| >= BLOCK
    ensures var (x', t') := Ubi(c, x, t, held[..BLOCK], BLOCK);
      Holding(c, start, kind, m, i + 1, x', t', held[BLOCK..])
  {
    ChainNext(c, start, kind, m, i);
    NextPosition(i);
    hide Chain;
    assert held[..BLOCK] == m[BLOCK * i..BLOCK * (i + 1)];
    assert held[BLOCK..] == m[BLOCK * (i + 1)..];
  }

  lemma Completed(held: Bytes, data: Bytes, n: nat)
    requires |held| + n == BLOCK && n <= |data|
    ensures (held + data)[..BLOCK] == held + data[..n] && (held + data)[BLOCK..] == data[n..]
  {}

  /** More input lengthens what is held back. */
  lemma MoreHeld(c: Cipher, start: Words, kind: nat, m: Bytes, d: Bytes, i: nat, x: Words, t: Tweak, held: Bytes)
    requires Holding(c, start, kind, m, i, x, t, held)
    ensures Holding(c, start, kind, m + d, i, x, t, held + d)
  {
    ChainPrefix(c, start, kind, m, d, i);
    assert (m + d)[BLOCK * i..] == m[BLOCK * i..] + d;
  }

  lemma HeldLength(c: Cipher, start: Words, kind: nat, m: Bytes, i: nat, x: Words, t: Tweak, held: Bytes)
    requires Holding(c, start, kind, m, i, x, t, held)
    ensures |held| == |m| - BLOCK * i && t.kind == kind
    ensures i == LastBlock(|m|) <==> |held| <= BLOCK && (|held| > 0 || i == 0)
  {}

  lemma LastPosition(len: nat, i: nat)
    requires BLOCK * i <= len
    ensures (BLOCK * i % TWO64 + (len - BLOCK * i)) % TWO64 == len % TWO64
  {}

  class Skein512 {
    const cipher: Cipher
    var x: Words
    var t: Tweak
    const buf: array<U8>
    var bcnt: nat
    var hashBits: nat

    ghost var start: Words  // chaining words when the current phase began
    ghost var absorbed: Bytes  // what the current phase has been fed

    ghost predicate Valid()
      reads this, buf
    {
      && buf.Length == BLOCK && bcnt <= BLOCK
      && Holding(cipher, start, t.kind, absorbed, LastBlock(|absorbed|), x, t, buf[..bcnt])
    }

    /** One compression of a 64-byte block. */
    method Step(block: Bytes, count: nat)
      modifies this`x, this`t
      ensures (x, t) == Ubi(cipher, old(x), old(t), block, count)
    {
      var (x', t') := Ubi(cipher, x, t, block, count);
      x, t := x', t';
    }

    method StartType(kind: nat, final: bool)
      modifies this`t, this`bcnt, this`start, this`absorbed
      ensures t == StartTweak(kind, final) && bcnt == 0 && start == x && absorbed == []
    {
      t := StartTweak(kind, final);
      bcnt := 0;
      start, absorbed := x, [];
    }

    lemma Started()
      requires buf.Length == BLOCK && t == StartTweak(t.kind, false) && bcnt == 0 && start == x && absorbed == []
      ensures Valid()
    {
      assert buf[..0] == [];
    }

    /** Complete the buffered block and process it. */
    method StepBuffer(data: Bytes, ghost kind: nat, ghost all: Bytes, ghost i: nat) returns (msg: Bytes)
      requires buf.Length == BLOCK && bcnt <= BLOCK < |data| + bcnt
      requires Holding(cipher, start, kind, all, i, x, t, buf[..bcnt] + data)
      modifies this`x, this`t, this`bcnt, buf
      ensures bcnt == 0 && |msg| > 0 && Holding(cipher, start, kind, all, i + 1, x, t, msg)
    {
      hide Holding, Ubi;
      var n := BLOCK - bcnt;
      Completed(buf[..bcnt], data, n);
      StepHolds(cipher, start, kind, all, i, x, t, buf[..bcnt] + data);
      Fill(data[..n]);
      assert buf[..] == buf[..bcnt + n];
      Step(buf[..], BLOCK);
      msg := data[n..];
      bcnt := 0;
    }

    /** Process whole blocks as long as bytes remain after them. */
    method StepBlocks(data: Bytes, ghost kind: nat, ghost all: Bytes, ghost before: nat) returns (msg: Bytes, ghost i: nat)
      requires Holding(cipher, start, kind, all, before, x, t, data) && |data| > 0
      modifies this`x, this`t
      ensures Holding(cipher, start, kind, all, i, x, t, msg) && 0 < |msg| <= BLOCK
    {
      hide Holding, Ubi;
      msg, i := data, before;
      while |msg| > BLOCK
        invariant Holding(cipher, start, kind, all, i, x, t, msg) && |msg| > 0
      {
        StepHolds(cipher, start, kind, all, i, x, t, msg);
        Step(msg[..BLOCK], BLOCK);
        msg := msg[BLOCK..];
        i := i + 1;
      }
    }

    /** The state becomes that of everything absorbed so far, its last block kept back. */
    method Update(data: Bytes)
      requires Valid()
      modifies this, buf
      ensures Valid()
      ensures absorbed == old(absorbed) + data
      ensures start == old(start) && t.kind == old(t.kind) && hashBits == old(hashBits)
    {
      hide Holding, Ubi, LastBlock;
      var msg := data;
      ghost var kind, all, i := t.kind, absorbed + data, LastBlock(|absorbed|);
      HeldLength(cipher, start, kind, absorbed, i, x, t, buf[..bcnt]);
      MoreHeld(cipher, start, kind, absorbed, data, i, x, t, buf[..bcnt]);
      if |msg| + bcnt > BLOCK {
        if bcnt > 0 {
          msg := StepBuffer(msg, kind, all, i);
          i := i + 1;
        } else {
          assert buf[..0] + msg == msg;
        }
        msg, i := StepBlocks(msg, kind, all, i);
        assert buf[..0] + msg == msg;
      }
      HeldLength(cipher, start, kind, all, i, x, t, buf[..bcnt] + msg);
      Fill(msg);
      bcnt := bcnt + |msg|;
      absorbed := all;
    }

    /** Append bytes to the buffered ones. */
    method Fill(data: Bytes)
      requires buf.Length == BLOCK && bcnt + |data| <= BLOCK
      modifies buf
      ensures buf[..bcnt + |data|] == old(buf[..bcnt]) + data
    {
      forall k | bcnt <= k < bcnt + |data| {
        buf[k] := data[k - bcnt];
      }
    }

    /** Process the held block with the final flag. */
    method FinalPad()
      requires Valid()
      modifies this, buf
      ensures x == UbiHash(cipher, old(start), old(t.kind), old(absorbed))
      ensures hashBits == old(hashBits)
    {
      ghost var held, i := buf[..bcnt], LastBlock(|absorbed|);
      LastPosition(|absorbed|, i);
      t := t.(final := true);
      forall k | bcnt <= k < BLOCK {
        buf[k] := 0;
      }
      assert buf[..] == held + Zeros(BLOCK - |held|);
      assert buf[..] == Pad(held);
      Step(buf[..], bcnt);
    }

    /** A new hash of hashBits output bits, keyed when key is not empty, ready for the message. */
    constructor (c: Cipher, bits: nat, key: Bytes)
      ensures Valid() && fresh(buf)
      ensures cipher == c && hashBits == bits && absorbed == [] && t.kind == TYPE_MSG
      ensures start == MessageStart(c, bits, key)
    {
      cipher := c;
      x, t, bcnt, hashBits := ZERO_WORDS, StartTweak(TYPE_KEY, false), 0, 512;
      start, absorbed := ZERO_WORDS, [];
      buf := new U8[BLOCK](i => 0);
      new;
      hide UbiHash, Ubi, Chain, Holding, ConfigString;
      if key != [] {
        StartType(TYPE_KEY, false);
        Started();
        Update(key);
        assert absorbed == key;
        FinalPad();
      }
      hashBits := bits;
      ghost var keyed := x;
      assert keyed == if key == [] then ZERO_WORDS else UbiHash(c, ZERO_WORDS, TYPE_KEY, key);
      StartType(TYPE_CFG, true);
      OneBlock(c, x, TYPE_CFG, ConfigString(bits));
      Step(Pad(ConfigString(bits)), 32);
      StartType(TYPE_MSG, false);
      Started();
    }

    /** Finish and return the digest. */
    method Finish() returns (out: Bytes)
      requires Valid() && t.kind == TYPE_MSG
      modifies this, buf
      ensures out == Output(cipher, UbiHash(cipher, old(start), TYPE_MSG, old(absorbed)), 0, (old(hashBits) + 7) / 8)
    {
      hide UbiHash, Ubi, WordBytes, Output, Holding, Le8;
      FinalPad();
      var bytes := (hashBits + 7) / 8;
      var chain := x;
      out := [];
      var i := 0;
      while |out| < bytes
        invariant |out| == BLOCK * i && Emitted(cipher, chain, out, i, bytes)
        decreases bytes - |out|
      {
        EmitBlock(cipher, chain, out, i, bytes);
        var b := OutputBlock(chain, i);
        out := out + b;
        i := i + 1;
      }
      EmitDone(cipher, chain, out, i, bytes);
      out := if |out| > bytes then out[..bytes] else out;
    }

    /** Output block i: the counter hashed from the final chaining words. */
    method OutputBlock(chain: Words, i: nat) returns (b: Bytes)
      modifies this
      ensures b == WordBytes(UbiHash(cipher, chain, TYPE_OUT, Le8(i % TWO64)))
      ensures hashBits == old(hashBits)
    {
      hide UbiHash, Ubi;
      var ctr := Pad(Le8(i % TWO64));
      x := chain;
      StartType(TYPE_OUT, true);
      OneBlock(cipher, chain, TYPE_OUT, Le8(i % TWO64));
      Step(ctr, 8);
      b := WordBytes(x);
    }
  }

  /** out holds the first i output blocks, perhaps past the n bytes wanted. */
  ghost predicate Emitted(c: Cipher, chain: Words, out: Bytes, i: nat, n: nat) {
    if |out| <= n then out + Output(c, chain, i, n - |out|) == Output(c, chain, 0, n)
    else out[..n] == Output(c, chain, 0, n)
  }

  lemma EmitBlock(c: Cipher, chain: Words, out: Bytes, i: nat, n: nat)
    requires |out| < n && Emitted(c, chain, out, i, n)
    ensures Emitted(c, chain, out + WordBytes(UbiHash(c, chain, TYPE_OUT, Le8(i % TWO64))), i + 1, n)
  {
    hide UbiHash, WordBytes, Le8;
    var b := WordBytes(UbiHash(c, chain, TYPE_OUT, Le8(i % TWO64)));
    var left := n - |out|;
    OutputStep(c, chain, i, left);
    hide Output;
    if left <= BLOCK {
      assert (out + b)[..n] == out + b[..left];
      OutputStep(c, chain, i + 1, 0);
      assert left == BLOCK ==> out + b + [] == out + b && b[..left] == b;
    } else {
      assert out + b + Output(c, chain, i + 1, left - BLOCK) == out + (b + Output(c, chain, i + 1, left - BLOCK));
    }
  }

  lemma EmitDone(c: Cipher, chain: Words, out: Bytes, i: nat, n: nat)
    requires |out| >= n && Emitted(c, chain, out, i, n)
    ensures out[..n] == Output(c, chain, 0, n)
  {
    hide UbiHash, WordBytes, Le8;
    OutputStep(c, chain, i, 0);
    hide Output;
    assert |out| == n ==> out[..n] == out && out + [] == out;
  }

  lemma OutputStep(c: Cipher, chain: Words, i: nat, n: nat)
    ensures n == 0 ==> Output(c, chain, i, n) == []
    ensures var b := WordBytes(UbiHash(c, chain, TYPE_OUT, Le8(i % TWO64)));
      Output(c, chain, i, n) == if n <= BLOCK then b[..n] else b + Output(c, chain, i + 1, n - BLOCK)
  {
    hide UbiHash, WordBytes, Le8;
  }

  /** A message of at most one block is one final step. */
  lemma OneBlock(c: Cipher, x: Words, kind: nat, m: Bytes)
    requires |m| < BLOCK
    ensures Ubi(c, x, StartTweak(kind, true), Pad(m), |m|).0 == UbiHash(c, x, kind, m)
  {
    assert m[0..] == m;
  }

  /** However the message is cut into updates, the digest is the one-shot hash of the whole. */
  method HashPieces(c: Cipher, bits: nat, key: Bytes, pieces: seq<Bytes>) returns (digest: Bytes)
    ensures digest == SkeinHash(c, bits, key, Concat(pieces))
  {
    hide Holding, MessageStart, UbiHash, Output, Skein512.Valid;
    var h := new Skein512(c, bits, key);
    for i := 0 to |pieces|
      invariant h.Valid() && fresh(h) && fresh(h.buf) && h.t.kind == TYPE_MSG
      invariant h.cipher == c && h.hashBits == bits && h.start == MessageStart(c, bits, key)
      invariant h.absorbed == Concat(pieces[..i])
    {
      assert pieces[..i + 1][..i] == pieces[..i];
      h.Update(pieces[i]);
    }
    assert pieces[..|pieces|] == pieces;
    digest := h.Finish();
  }
}
