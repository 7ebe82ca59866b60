/** A fatzap leaf block: 24-byte chunks chained into names and values, and how it is read. */
module ZapLeaf {
  import opened Wrappers
  import opened Octets
  import opened Arith

  const ZBT_LEAF: nat := 0x8000_0000_0000_0000
  const ZAP_LEAF_MAGIC: nat := 0x02AB_1EAF
  const CHUNK := 24
  const PAYLOAD := 21
  const CHUNK_ARRAY: U8 := 251
  const CHUNK_ENTRY: U8 := 252
  const CHUNK_FREE: U8 := 253
  const CHAIN_END: U16 := 0xffff

  datatype Value =
    | Number(number: U64)
    | Numbers(numbers: seq<U64>)
    | Text(text: Bytes)
    | Ints(intlen: nat, ints: Bytes)

  datatype Entry = Entry(raw: Bytes, value: Value, cd: U32)

  datatype Error = Malformed(what: string, at: nat) | BadMagic(found: nat)

  // ----- Geometry

  predicate PowerOfTwo(n: nat) {
    n == 1 || (n > 0 && n % 2 == 0 && PowerOfTwo(n / 2))
  }

  function TrailingZeros(n: nat): nat
    requires n > 0
  {
    if n % 2 == 1 then 0 else 1 + TrailingZeros(n / 2)
  }

  function HashEntries(shift: nat): nat {
    Pow2(if shift < 5 then 0 else shift - 5)
  }

  function NumChunks(shift: nat): int {
    (Pow2(shift) - 2 * HashEntries(shift)) / CHUNK - 2
  }

  function ChunksOffset(shift: nat): nat {
    48 + 2 * HashEntries(shift)
  }

  lemma {:induction false} ShiftIs(n: nat)
    requires PowerOfTwo(n)
    ensures Pow2(TrailingZeros(n)) == n
  {
    if n != 1 {
      ShiftIs(n / 2);
    }
  }

  lemma HashEntriesIs(n: nat)
    requires PowerOfTwo(n) && n >= 1024
    ensures HashEntries(TrailingZeros(n)) == n / 32 && n == n / 32 * 32
  {
    hide PowerOfTwo, TrailingZeros, Pow2;
    var shift := TrailingZeros(n);
    ShiftIs(n);
    SmallPow2(shift);
    Pow2Of5();
    Pow2Add(5, shift - 5);
    DivIs(n, 32, Pow2(shift - 5), 0);
  }

  lemma SmallPow2(k: nat)
    ensures k < 5 ==> Pow2(k) <= 16
  {
    assert Pow2(1) == 2;
    assert Pow2(2) == 4;
    assert Pow2(3) == 8;
    assert Pow2(4) == 16;
  }

  lemma Pow2Of5()
    ensures Pow2(5) == 32
  {
    assert Pow2(2) == 4;
    assert Pow2(3) == 8;
    assert Pow2(4) == 16;
  }

  /** The chunks, with the headers before them, fill the block but for less than one chunk. */
  lemma ChunksFit(n: nat)
    requires PowerOfTwo(n) && n >= 1024
    ensures ChunksOffset(TrailingZeros(n)) == 48 + n / 16
    ensures NumChunks(TrailingZeros(n)) == (n - n / 16) / CHUNK - 2 >= 38
    ensures 0 <= n - (48 + n / 16 + NumChunks(TrailingZeros(n)) * CHUNK) < CHUNK
  {
    ShiftIs(n);
    HashEntriesIs(n);
    hide PowerOfTwo, TrailingZeros, HashEntries, Pow2;
  }

  // ----- Reading

  function ReadU16(endian: Endian, b: Bytes): U16
    requires |b| == 2
  {
    Pow256Is();
    Read(endian, b)
  }

  function ReadU32(endian: Endian, b: Bytes): U32
    requires |b| == 4
  {
    Pow256Is();
    Read(endian, b)
  }

  /** A block whose chunks lie inside it. */
  datatype Leaf = Leaf(buf: Bytes, endian: Endian, base: nat, nchunks: nat) {
    predicate Valid() {
      base + nchunks * CHUNK <= |buf|
    }

    function Chunk(i: nat): (c: Option<Bytes>)
      requires Valid()
      ensures c.Some? ==> |c.value| == CHUNK
    {
      if i >= nchunks then None else Some(buf[base + i * CHUNK..base + (i + 1) * CHUNK])
    }

    /** The `need` bytes that the chain from chunk cur on holds, `hops` chunks being behind. */
    function Chain(cur: U16, need: nat, hops: nat): (r: Result<Bytes, Error>)
      requires Valid()
      ensures r.Ok? ==> |r.value| == need
      decreases need
    {
      if need == 0 then Ok([]) else
        var c := Chunk(cur);
        if c.None? then Err(Malformed("ZAP array chunk index out of range", base))
        else if c.value[0] != CHUNK_ARRAY then Err(Malformed("ZAP array chain hits a non-array chunk", base))
        else
          var take := if need < PAYLOAD then need else PAYLOAD;
          var next := ReadU16(endian, c.value[22..24]);
          if take < need && (next == CHAIN_END || hops + 1 > nchunks) then Err(Malformed("ZAP array chain ends early", base))
          else
            var rest :- Chain(next, need - take, hops + 1);
            Ok(c.value[1..1 + take] + rest)
    }

    /** The entry whose type and intlen are in chunk c and whose other fields are in chunk i. */
    function EntryAt(c: Bytes, i: nat): Result<Entry, Error>
      requires Valid() && i < nchunks && |c| == CHUNK
    {
      var f := Chunk(i).value;
      var intlen: nat := c[1];
      var name :- Chain(ReadU16(endian, f[4..6]), ReadU16(endian, f[6..8]), 0);
      var bytes :- Chain(ReadU16(endian, f[8..10]), Times(intlen, ReadU16(endian, f[10..12])), 0);
      Ok(Entry(UpToNul(name), Decoded(intlen, bytes), ReadU32(endian, f[12..16])))
    }

    /** The entries from chunk i on; the index is cut to 16 bits to look at the chunk. */
    function EntriesFrom(i: nat): Result<seq<Entry>, Error>
      requires Valid()
      decreases nchunks - i
    {
      if i >= nchunks then Ok([]) else
        var c := Chunk(i % 0x1_0000).value;
        if c[0] != CHUNK_ENTRY then EntriesFrom(i + 1) else
          var e :- EntryAt(c, i);
          var es :- EntriesFrom(i + 1);
          Ok([e] + es)
    }
  }

  function UpToNul(s: Bytes): (t: Bytes)
    ensures t <= s && 0 !in t
    ensures t == s || s[|t|] == 0
  {
    if s == [] || s[0] == 0 then [] else [s[0]] + UpToNul(s[1..])
  }

  /** The whole big-endian 64-bit numbers in b. */
  function NumbersIn(b: Bytes): (us: seq<U64>)
    ensures |us| == |b| / 8
  {
    if |b| < 8 then [] else
      BeBound(b[..8]);
      Pow256Is();
      [FromBe(b[..8])] + NumbersIn(b[8..])
  }

  function Decoded(intlen: nat, b: Bytes): Value {
    if intlen == 8 then
      var us := NumbersIn(b);
      if |us| == 1 then Number(us[0]) else Numbers(us)
    else if intlen == 1 then Text(b)
    else Ints(intlen, b)
  }

  function LeafOf(buf: Bytes, endian: Endian): (r: Result<Leaf, Error>)
    ensures r.Ok? ==> r.value.Valid() && r.value.buf == buf
  {
    if |buf| < 8 || Read(endian, buf[..8]) != ZBT_LEAF then Err(Malformed("not a ZAP leaf block", 0))
    else if !PowerOfTwo(|buf|) || |buf| < 1024 then Err(Malformed("leaf block size not a power of two >= 1 KiB", 0))
    else if Read(endian, buf[24..28]) != ZAP_LEAF_MAGIC then Err(BadMagic(Read(endian, buf[24..28])))
    else
      ChunksFit(|buf|);
      var shift := TrailingZeros(|buf|);
      Ok(Leaf(buf, endian, ChunksOffset(shift), NumChunks(shift)))
  }

  function EntriesOf(buf: Bytes, endian: Endian): Result<seq<Entry>, Error> {
    var leaf :- LeafOf(buf, endian);
    leaf.EntriesFrom(0)
  }

  // ----- The loops

  /** Follows an array chain; ends on every block, whatever the links say. */
  method ReadArray(leaf: Leaf, first: U16, len: nat) returns (r: Result<Bytes, Error>)
    requires leaf.Valid()
    ensures r == leaf.Chain(first, len, 0)
    ensures r.Ok? ==> |r.value| == len
  {
    hide Prepended, ReadU16, Leaf.Chain, Leaf.Chunk;
    var out: Bytes, cur, hops := [], first, 0;
    PrependedLaws([], [], leaf.Chain(first, len, 0));
    while |out| < len
      invariant |out| <= len
      invariant Prepended(out, leaf.Chain(cur, len - |out|, hops)) == leaf.Chain(first, len, 0)
      decreases len - |out|
    {
      ChainNext(leaf, cur, len - |out|, hops, out);
      var chunk := leaf.Chunk(cur);
      if chunk.None? {
        return Err(Malformed("ZAP array chunk index out of range", leaf.base));
      }
      var c := chunk.value;
      if c[0] != CHUNK_ARRAY {
        return Err(Malformed("ZAP array chain hits a non-array chunk", leaf.base));
      }
      var take := if len - |out| < PAYLOAD then len - |out| else PAYLOAD;
      out := out + c[1..1 + take];
      cur := ReadU16(leaf.endian, c[22..24]);
      hops := hops + 1;
      if |out| < len && (cur == CHAIN_END || hops > leaf.nchunks) {
        return Err(Malformed("ZAP array chain ends early", leaf.base));
      }
    }
    ChainDone(leaf, cur, hops);
    PrependedLaws<U8, Error>(out, [], Ok([]));
    r := Ok(out);
  }

  lemma ChainDone(leaf: Leaf, cur: U16, hops: nat)
    requires leaf.Valid()
    ensures leaf.Chain(cur, 0, hops) == Ok([])
  {}

  /** One hop of a chain. */
  lemma ChainNext(leaf: Leaf, cur: U16, need: nat, hops: nat, done: Bytes)
    requires leaf.Valid() && need > 0
    ensures Prepended(done, leaf.Chain(cur, need, hops)) ==
            var c := leaf.Chunk(cur);
            if c.None? then Err(Malformed("ZAP array chunk index out of range", leaf.base))
            else if c.value[0] != CHUNK_ARRAY then Err(Malformed("ZAP array chain hits a non-array chunk", leaf.base))
            else
              var take := if need < PAYLOAD then need else PAYLOAD;
              var next := ReadU16(leaf.endian, c.value[22..24]);
              if take < need && (next == CHAIN_END || hops + 1 > leaf.nchunks) then Err(Malformed("ZAP array chain ends early", leaf.base))
              else Prepended(done + c.value[1..1 + take], leaf.Chain(next, need - take, hops + 1))
  {
    hide ReadU16;
    var c := leaf.Chunk(cur);
    if c.Some? {
      var take := if need < PAYLOAD then need else PAYLOAD;
      PrependedLaws(done, c.value[1..1 + take], leaf.Chain(ReadU16(leaf.endian, c.value[22..24]), need - take, hops + 1));
    }
  }

  method ParseEntry(leaf: Leaf, c: Bytes, i: nat) returns (r: Result<Entry, Error>)
    requires leaf.Valid() && i < leaf.nchunks && |c| == CHUNK
    ensures r == leaf.EntryAt(c, i)
  {
    hide ReadU16, ReadU32, UpToNul, Decoded, Leaf.Chain;
    var f := leaf.Chunk(i).value;
    var intlen: nat := c[1];
    var name :- ReadArray(leaf, ReadU16(leaf.endian, f[4..6]), ReadU16(leaf.endian, f[6..8]));
    var bytes :- ReadArray(leaf, ReadU16(leaf.endian, f[8..10]), Times(intlen, ReadU16(leaf.endian, f[10..12])));
    r := Ok(Entry(UpToNul(name), Decoded(intlen, bytes), ReadU32(leaf.endian, f[12..16])));
  }

  lemma EntriesNone(leaf: Leaf)
    requires leaf.Valid()
    ensures leaf.EntriesFrom(leaf.nchunks) == Ok([])
  {}

  method ParseLeaf(buf: Bytes, endian: Endian) returns (r: Result<seq<Entry>, Error>)
    ensures r == EntriesOf(buf, endian)
  {
    hide Leaf.EntryAt, Leaf.EntriesFrom, LeafOf, Prepended;
    var leaf :- LeafOf(buf, endian);
    var out: seq<Entry> := [];
    PrependedLaws(out, [], leaf.EntriesFrom(0));
    for i := 0 to leaf.nchunks
      invariant Prepended(out, leaf.EntriesFrom(i)) == leaf.EntriesFrom(0)
    {
      var c := leaf.Chunk(i % 0x1_0000).value;
      EntriesNext(leaf, i, out);
      if c[0] == CHUNK_ENTRY {
        var e :- ParseEntry(leaf, c, i);
        out := out + [e];
      }
    }
    EntriesNone(leaf);
    PrependedLaws<Entry, Error>(out, [], Ok([]));
    r := Ok(out);
  }

  lemma EntriesNext(leaf: Leaf, i: nat, done: seq<Entry>)
    requires leaf.Valid() && i < leaf.nchunks
    ensures Prepended(done, leaf.EntriesFrom(i)) ==
            var c := leaf.Chunk(i % 0x1_0000).value;
            if c[0] != CHUNK_ENTRY then Prepended(done, leaf.EntriesFrom(i + 1)) else
              var e :- leaf.EntryAt(c, i);
              Prepended(done + [e], leaf.EntriesFrom(i + 1))
  {
    hide Leaf.EntryAt;
    var e := leaf.EntryAt(leaf.Chunk(i % 0x1_0000).value, i);
    if e.Ok? {
      PrependedLaws(done, [e.value], leaf.EntriesFrom(i + 1));
    }
  }

  /** However the links run, a chain gives no more than one chunk's bytes for each chunk, and one over. */
  lemma {:induction false} ChainIsBounded(leaf: Leaf, cur: U16, need: nat, hops: nat)
    requires leaf.Valid() && hops <= leaf.nchunks && leaf.Chain(cur, need, hops).Ok?
    ensures need <= PAYLOAD * (leaf.nchunks + 1 - hops)
    decreases need
  {
    hide ReadU16, Leaf.Chunk;
    if need > PAYLOAD {
      ChainIsBounded(leaf, ReadU16(leaf.endian, leaf.Chunk(cur).value[22..24]), need - PAYLOAD, hops + 1);
    }
  }
}
