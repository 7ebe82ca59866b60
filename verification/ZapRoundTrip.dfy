/** Reading a leaf gives back the entries it was written from. */
module ZapRoundTrip {
  import opened Wrappers
  import opened Octets
  import opened Arith
  import opened ZapLeaf
  import opened ZapEncode

  // ----- The chunks are where the reader looks

  lemma {:induction false} FlatAt(cs: seq<Chunk>, i: nat)
    requires i < |cs|
    ensures Flat(cs)[i * CHUNK..(i + 1) * CHUNK] == cs[i]
    decreases |cs|
  {
    var n := |cs| - 1;
    if i < n {
      FlatAt(cs[..n], i);
      assert Flat(cs)[i * CHUNK..(i + 1) * CHUNK] == Flat(cs[..n])[i * CHUNK..(i + 1) * CHUNK];
    }
  }

  /** The reader's chunks are cs. */
  ghost predicate Holds(leaf: Leaf, cs: seq<Chunk>) {
    leaf.Valid() && leaf.endian == Little && leaf.nchunks == |cs| && forall i :: 0 <= i < |cs| ==> leaf.Chunk(i) == Some(cs[i])
  }

  lemma ReadLe(n: nat, k: nat)
    requires n < Pow256(k)
    ensures Read(Little, ToLe(n, k)) == n
  {
    LeRoundTrip(n, k);
  }

  lemma ToLe16(n: nat)
    ensures ToLe(n, 2) == [n % 0x100, n / 0x100 % 0x100]
  {
    assert ToLe(n, 2) == [n % 0x100] + ToLe(n / 0x100, 1);
    assert ToLe(n / 0x100, 1) == [n / 0x100 % 0x100] + ToLe(n / 0x100 / 0x100, 0);
  }

  lemma MiddleByte(n: nat)
    ensures n / 0x100 % 0x100 == n % 0x1_0000 / 0x100 % 0x100 && n % 0x100 == n % 0x1_0000 % 0x100
  {
    var q, r := n / 0x1_0000, n % 0x1_0000;
    DivIs(n, 0x100, q * 0x100 + r / 0x100, r % 0x100);
  }

  lemma ReadLe16(n: nat)
    ensures ReadU16(Little, ToLe(n, 2)) == n % 0x1_0000
  {
    hide ToLe, Read;
    ToLe16(n);
    ToLe16(n % 0x1_0000);
    MiddleByte(n);
    Pow256Is();
    ReadLe(n % 0x1_0000, 2);
  }

  lemma HeaderFields(size: nat, count: nat, rest: Bytes)
    requires LeafSize(size)
    ensures |Header(size, count)| >= 112
    ensures (Header(size, count) + rest)[..8] == ToLe(ZBT_LEAF, 8)
    ensures (Header(size, count) + rest)[24..28] == ToLe(ZAP_LEAF_MAGIC, 4)
  {
    hide ToLe;
    var n := Capacity(size);
  }

  lemma Middle(head: Bytes, mid: Bytes, tail: Bytes, a: nat, b: nat)
    requires a <= b <= |mid|
    ensures (head + mid + tail)[|head| + a..|head| + b] == mid[a..b]
  {}

  lemma ChunkIn(buf: Bytes, head: Bytes, flat: Bytes, tail: Bytes, endian: Endian, n: nat, i: nat)
    requires buf == head + flat + tail && |flat| == n * CHUNK && i < n
    ensures Leaf(buf, endian, |head|, n).Valid()
    ensures Leaf(buf, endian, |head|, n).Chunk(i) == Some(flat[i * CHUNK..(i + 1) * CHUNK])
  {
    Middle(head, flat, tail, i * CHUNK, (i + 1) * CHUNK);
  }

  lemma ChunksHeld(head: Bytes, cs: seq<Chunk>, tail: Bytes, buf: Bytes, endian: Endian, i: nat)
    requires i < |cs| && buf == head + Flat(cs) + tail
    ensures Leaf(buf, endian, |head|, |cs|).Valid()
    ensures Leaf(buf, endian, |head|, |cs|).Chunk(i) == Some(cs[i])
  {
    hide Flat, Leaf.Chunk;
    FlatAt(cs, i);
    ChunkIn(buf, head, Flat(cs), tail, endian, |cs|, i);
  }

  lemma LeafHolds(size: nat, items: seq<Item>)
    requires Fits(size, items)
    ensures LeafOf(LeafBytes(size, items), Little).Ok?
    ensures Holds(LeafOf(LeafBytes(size, items), Little).value, AllChunks(size, items))
  {
    hide Header, Flat, AllChunks, ToLe, Read;
    var head, cs := Header(size, |items|), AllChunks(size, items);
    var tail := Zeros(size - |head| - |Flat(cs)|);
    var buf := LeafBytes(size, items);
    assert buf == head + Flat(cs) + tail == head + (Flat(cs) + tail);
    HeaderFields(size, |items|, Flat(cs) + tail);
    Pow256Is();
    ReadLe(ZBT_LEAF, 8);
    ReadLe(ZAP_LEAF_MAGIC, 4);
    assert LeafOf(buf, Little) == Ok(Leaf(buf, Little, |head|, |cs|));
    forall i | 0 <= i < |cs| ensures Leaf(buf, Little, |head|, |cs|).Chunk(i) == Some(cs[i]) {
      ChunksHeld(head, cs, tail, buf, Little, i);
    }
  }

  // ----- Chains

  /** The chunks from `first` on are cs'. */
  predicate Within(cs: seq<Chunk>, first: nat, part: seq<Chunk>) {
    first + |part| <= |cs| && cs[first..first + |part|] == part
  }

  lemma WithinBoth(cs: seq<Chunk>, first: nat, a: seq<Chunk>, b: seq<Chunk>)
    requires Within(cs, first, a + b)
    ensures Within(cs, first, a) && Within(cs, first + |a|, b)
  {
    assert cs[first..first + |a|] == (a + b)[..|a|] == a;
    assert cs[first + |a|..first + |a| + |b|] == (a + b)[|a|..] == b;
  }

  lemma ArrayFields(piece: Bytes, link: nat)
    requires |piece| <= PAYLOAD && link < 0x1_0000
    ensures ArrayChunk(piece, link)[0] == CHUNK_ARRAY
    ensures ArrayChunk(piece, link)[1..1 + |piece|] == piece
    ensures ReadU16(Little, ArrayChunk(piece, link)[22..24]) == link
  {
    ReadLe16(link);
    hide ToLe, ReadU16;
    assert ArrayChunk(piece, link)[22..24] == ToLe(link, 2);
  }

  /** One written chunk, read. */
  lemma ChainStep(leaf: Leaf, first: U16, piece: Bytes, link: U16, need: nat, hops: nat)
    requires leaf.Valid() && leaf.endian == Little && need > 0 && |piece| <= PAYLOAD
    requires leaf.Chunk(first) == Some(ArrayChunk(piece, link))
    requires need <= |piece| || (|piece| == PAYLOAD && link != CHAIN_END && hops + 1 <= leaf.nchunks)
    ensures need <= |piece| ==> leaf.Chain(first, need, hops) == Ok(piece[..need])
    ensures need > |piece| && leaf.Chain(link, need - PAYLOAD, hops + 1).Ok? ==>
      leaf.Chain(first, need, hops) == Ok(piece + leaf.Chain(link, need - PAYLOAD, hops + 1).value)
  {
    hide ArrayChunk, ReadU16, Leaf.Chunk;
    ArrayFields(piece, link);
    if need <= |piece| {
      assert ArrayChunk(piece, link)[1..1 + need] == ArrayChunk(piece, link)[1..1 + |piece|][..need];
      assert piece[..need] + [] == piece[..need];
    }
  }

  lemma ChunkIs(leaf: Leaf, cs: seq<Chunk>, first: nat, c: Chunk, rest: seq<Chunk>)
    requires Holds(leaf, cs) && Within(cs, first, [c] + rest)
    ensures leaf.Chunk(first) == Some(c) && Within(cs, first + 1, rest)
  {
    hide Leaf.Chunk;
    WithinBoth(cs, first, [c], rest);
    assert cs[first] == cs[first..first + 1][0];
  }

  /** A written chain gives any beginning of its data. */
  lemma {:induction false} ChainHolds(leaf: Leaf, cs: seq<Chunk>, data: Bytes, first: nat, need: nat, hops: nat)
    requires Holds(leaf, cs) && Within(cs, first, ArrayChunks(data, first))
    requires first + |ArrayChunks(data, first)| <= CHAIN_END
    requires need <= |data| && hops + |ArrayChunks(data, first)| <= |cs|
    ensures leaf.Chain(first, need, hops) == Ok(data[..need])
    decreases |data|
  {
    hide ArrayChunk, ArrayChunks, Leaf.Chain, Leaf.Chunk, Within, Holds;
    HoldsMore(leaf, cs);
    if need == 0 {
      ChainDone(leaf, first, hops);
    } else {
      var piece := if |data| <= PAYLOAD then data else data[..PAYLOAD];
      var link: nat := if |data| <= PAYLOAD then CHAIN_END else first + 1;
      var rest := ArrayChunks(data[|piece|..], first + 1);
      ArrayFirst(data, first, piece, link);
      ChunkIs(leaf, cs, first, ArrayChunk(piece, link), rest);
      ChainStep(leaf, first, piece, link, need, hops);
      if need > |piece| {
        ChainHolds(leaf, cs, data[|piece|..], first + 1, need - |piece|, hops + 1);
        assert piece + data[|piece|..][..need - |piece|] == data[..need];
      } else {
        assert piece[..need] == data[..need];
      }
    }
  }

  lemma HoldsMore(leaf: Leaf, cs: seq<Chunk>)
    requires Holds(leaf, cs)
    ensures leaf.Valid() && leaf.endian == Little && leaf.nchunks == |cs|
  {}

  // ----- Entries

  /** The length of the name and its NUL, in the 16 bits it is written in. */
  function NameLength(item: Item): (n: nat)
    ensures n <= |item.name| + 1
  {
    (|item.name| + 1) % 0x1_0000
  }

  function NameRead(item: Item): Bytes {
    UpToNul((item.name + [0])[..NameLength(item)])
  }

  /** Bytes of the elements that the 16-bit count counts. */
  function ValueLength(item: Item): (n: nat)
    requires item.intlen > 0
    ensures n <= |item.value|
  {
    var count := Elements(item);
    QuotRem(|item.value|, item.intlen);
    MulMono(count % 0x1_0000, count, item.intlen);
    Times(item.intlen, count % 0x1_0000)
  }

  /** What is read for an item: its name and value as far as 16-bit counts and the NUL say them. */
  function EntryRead(item: Item): Entry
    requires item.intlen > 0
  {
    Entry(NameRead(item), Decoded(item.intlen, item.value[..ValueLength(item)]), 0)
  }

  lemma FieldBytes(item: Item, name: nat, value: nat, c: Bytes)
    requires item.intlen > 0 && c == EntryFields(item, name, value) + Zeros(12)
    ensures |c| == CHUNK && c[0] == CHUNK_ENTRY && c[1] == item.intlen
    ensures c[4..6] == ToLe(name, 2) && c[6..8] == ToLe(|item.name| + 1, 2)
    ensures c[8..10] == ToLe(value, 2) && c[10..12] == ToLe(Elements(item), 2)
    ensures c[12..16] == Zeros(4)
  {
    hide ToLe;
  }

  lemma FieldsAt(item: Item, name: nat, value: nat, c: Bytes)
    requires item.intlen > 0 && c == EntryFields(item, name, value) + Zeros(12)
    ensures |c| == CHUNK && c[0] == CHUNK_ENTRY && c[1] == item.intlen
    ensures ReadU16(Little, c[4..6]) == name % 0x1_0000
    ensures ReadU16(Little, c[6..8]) == (|item.name| + 1) % 0x1_0000
    ensures ReadU16(Little, c[8..10]) == value % 0x1_0000
    ensures ReadU16(Little, c[10..12]) == Elements(item) % 0x1_0000
    ensures ReadU32(Little, c[12..16]) == 0
  {
    hide ToLe, Read, ReadU16, EntryFields, Zeros;
    FieldBytes(item, name, value, c);
    ReadLe16(name);
    ReadLe16(|item.name| + 1);
    ReadLe16(value);
    ReadLe16(Elements(item));
    ZeroBytes(4);
    Pow256Is();
    ReadLe(0, 4);
  }

  lemma {:induction false} ZeroBytes(k: nat)
    ensures ToLe(0, k) == Zeros(k)
  {
    if k > 0 {
      ZeroBytes(k - 1);
    }
  }

  lemma ItemParts(cs: seq<Chunk>, item: Item, first: nat)
    requires item.intlen > 0 && Within(cs, first, ItemChunks(item, first))
    ensures Within(cs, first, ArrayChunks(item.name + [0], first))
    ensures Within(cs, first + |ArrayChunks(item.name + [0], first)|, ArrayChunks(item.value, first + |ArrayChunks(item.name + [0], first)|))
    ensures Within(cs, first + |ItemChunks(item, first)| - 1, [EntryFields(item, first, ValueFirst(item, first)) + Zeros(12)])
  {
    hide Within, ArrayChunks, EntryFields, ValueFirst;
    var names := ArrayChunks(item.name + [0], first);
    var values := ArrayChunks(item.value, first + |names|);
    var entry := [EntryFields(item, first, ValueFirst(item, first)) + Zeros(12)];
    WithinBoth(cs, first, names + values, entry);
    WithinBoth(cs, first, names, values);
  }

  /** The entry in chunk i when its fields and both chains are as written. */
  lemma EntryIs(leaf: Leaf, c: Chunk, i: nat, item: Item, name: Bytes, bytes: Bytes)
    requires leaf.Valid() && leaf.endian == Little && i < leaf.nchunks && leaf.Chunk(i) == Some(c) && c[1] == item.intlen
    requires leaf.Chain(ReadU16(Little, c[4..6]), ReadU16(Little, c[6..8]), 0) == Ok(name)
    requires leaf.Chain(ReadU16(Little, c[8..10]), Times(item.intlen, ReadU16(Little, c[10..12])), 0) == Ok(bytes)
    ensures leaf.EntryAt(c, i) == Ok(Entry(UpToNul(name), Decoded(item.intlen, bytes), ReadU32(Little, c[12..16])))
  {
    hide Leaf.Chain, Leaf.Chunk, Decoded, UpToNul, ReadU16, ReadU32, Times;
  }

  lemma EntryChunkIs(leaf: Leaf, cs: seq<Chunk>, item: Item, first: nat, i: nat, c: Chunk)
    requires Holds(leaf, cs) && item.intlen > 0 && Within(cs, first, ItemChunks(item, first))
    requires i == first + |ItemChunks(item, first)| - 1
    requires c == EntryFields(item, first, ValueFirst(item, first)) + Zeros(12)
    ensures i < |cs| && cs[i] == c && leaf.Chunk(i) == Some(c)
  {
    ItemParts(cs, item, first);
    hide ArrayChunks, EntryFields, Leaf.Chunk;
    assert cs[i] == cs[i..i + 1][0];
  }

  lemma EntryHolds(leaf: Leaf, cs: seq<Chunk>, item: Item, first: nat)
    requires Holds(leaf, cs) && item.intlen > 0 && Within(cs, first, ItemChunks(item, first))
    requires first + |ItemChunks(item, first)| <= CHAIN_END
    ensures first + |ItemChunks(item, first)| <= |cs| == leaf.nchunks && leaf.Valid()
    ensures cs[first + |ItemChunks(item, first)| - 1][0] == CHUNK_ENTRY
    ensures leaf.EntryAt(cs[first + |ItemChunks(item, first)| - 1], first + |ItemChunks(item, first)| - 1) == Ok(EntryRead(item))
  {
    hide Holds, Within, ItemChunks, ArrayChunks, EntryFields, Decoded, UpToNul, ReadU16, ReadU32, Times,
      Leaf.Chain, Leaf.Chunk, Leaf.EntryAt, ValueFirst;
    var i := first + |ItemChunks(item, first)| - 1;
    var c: Chunk := EntryFields(item, first, ValueFirst(item, first)) + Zeros(12);
    HoldsMore(leaf, cs);
    EntryChunkIs(leaf, cs, item, first, i, c);
    NameHolds(leaf, cs, item, first);
    ValueHolds(leaf, cs, item, first);
    FieldsAt(item, first, ValueFirst(item, first), c);
    EntryIs(leaf, c, i, item, (item.name + [0])[..NameLength(item)], item.value[..ValueLength(item)]);
  }

  lemma NameHolds(leaf: Leaf, cs: seq<Chunk>, item: Item, first: nat)
    requires Holds(leaf, cs) && item.intlen > 0 && Within(cs, first, ItemChunks(item, first))
    requires first + |ItemChunks(item, first)| <= CHAIN_END
    ensures leaf.Chain(first, NameLength(item), 0) == Ok((item.name + [0])[..NameLength(item)])
  {
    ItemParts(cs, item, first);
    hide ArrayChunks, EntryFields, Leaf.Chain, Leaf.Chunk;
    ChainHolds(leaf, cs, item.name + [0], first, NameLength(item), 0);
  }

  lemma ValueHolds(leaf: Leaf, cs: seq<Chunk>, item: Item, first: nat)
    requires Holds(leaf, cs) && item.intlen > 0 && Within(cs, first, ItemChunks(item, first))
    requires first + |ItemChunks(item, first)| <= CHAIN_END
    ensures ValueFirst(item, first) < 0x1_0000
    ensures leaf.Chain(ValueFirst(item, first), ValueLength(item), 0) == Ok(item.value[..ValueLength(item)])
  {
    ItemParts(cs, item, first);
    hide ArrayChunks, EntryFields, Leaf.Chain, Leaf.Chunk;
    if item.value == [] {
      ChainDone(leaf, CHAIN_END, 0);
    } else {
      ChainHolds(leaf, cs, item.value, first + |ArrayChunks(item.name + [0], first)|, ValueLength(item), 0);
    }
  }

  lemma {:induction false} ArrayStarts(data: Bytes, first: nat)
    ensures forall c :: c in ArrayChunks(data, first) ==> c[0] == CHUNK_ARRAY
  {
    if |data| > PAYLOAD {
      ArrayStarts(data[PAYLOAD..], first + 1);
    }
  }

  /** Chunks that begin no entry are passed over. */
  lemma {:induction false} EntriesSkip(leaf: Leaf, cs: seq<Chunk>, i: nat, n: nat)
    requires Holds(leaf, cs) && i + n <= |cs|
    requires forall k :: i <= k < i + n ==> cs[k % 0x1_0000][0] != CHUNK_ENTRY
    ensures leaf.EntriesFrom(i) == leaf.EntriesFrom(i + n)
    decreases n
  {
    hide Leaf.Chunk, Leaf.EntryAt;
    if n > 0 {
      EntriesSkip(leaf, cs, i + 1, n - 1);
    }
  }

  lemma ItemStarts(item: Item, first: nat)
    requires item.intlen > 0
    ensures forall k :: 0 <= k < |ItemChunks(item, first)| - 1 ==> ItemChunks(item, first)[k][0] == CHUNK_ARRAY
  {
    hide ArrayChunks, EntryFields;
    var names := ArrayChunks(item.name + [0], first);
    var values := ArrayChunks(item.value, first + |names|);
    ArrayStarts(item.name + [0], first);
    ArrayStarts(item.value, first + |names|);
    forall k | 0 <= k < |ItemChunks(item, first)| - 1 ensures ItemChunks(item, first)[k][0] == CHUNK_ARRAY {
      assert ItemChunks(item, first)[k] == if k < |names| then names[k] else values[k - |names|];
    }
  }

  function EntriesRead(items: seq<Item>): seq<Entry>
    requires Writable(items)
  {
    if items == [] then [] else [EntryRead(items[0])] + EntriesRead(items[1..])
  }

  /** One item's chunks give its entry, and reading goes on after them. */
  lemma ItemHolds(leaf: Leaf, cs: seq<Chunk>, item: Item, first: nat)
    requires Holds(leaf, cs) && item.intlen > 0 && Within(cs, first, ItemChunks(item, first))
    requires first + |ItemChunks(item, first)| <= CHAIN_END
    ensures leaf.EntriesFrom(first + |ItemChunks(item, first)|).Ok? ==>
      leaf.EntriesFrom(first) == Ok([EntryRead(item)] + leaf.EntriesFrom(first + |ItemChunks(item, first)|).value)
  {
    hide ItemChunks, Leaf.Chunk, Leaf.EntryAt, EntryRead;
    var mine := ItemChunks(item, first);
    var i := first + |mine| - 1;
    ItemStarts(item, first);
    EntryHolds(leaf, cs, item, first);
    forall k | first <= k < i ensures cs[k][0] != CHUNK_ENTRY {
      assert cs[k] == cs[first..first + |mine|][k - first] == mine[k - first];
    }
    EntriesSkip(leaf, cs, first, |mine| - 1);
  }

  /** The items' chunks give their entries, and reading goes on after them. */
  lemma {:induction false} ItemsHold(leaf: Leaf, cs: seq<Chunk>, items: seq<Item>, first: nat)
    requires Holds(leaf, cs) && Writable(items)
    requires Within(cs, first, LeafChunks(items, first)) && first + |LeafChunks(items, first)| <= CHAIN_END
    ensures leaf.EntriesFrom(first + |LeafChunks(items, first)|).Ok? ==>
      leaf.EntriesFrom(first) == Ok(EntriesRead(items) + leaf.EntriesFrom(first + |LeafChunks(items, first)|).value)
    decreases |items|
  {
    hide ItemChunks, Leaf.Chunk, Leaf.EntryAt, EntryRead, Holds, Within, Leaf.EntriesFrom;
    HoldsMore(leaf, cs);
    if items == [] {
      var after := leaf.EntriesFrom(first);
      if after.Ok? {
        assert [] + after.value == after.value;
      }
    } else {
      var mine := ItemChunks(items[0], first);
      WithinBoth(cs, first, mine, LeafChunks(items[1..], first + |mine|));
      ItemsHold(leaf, cs, items[1..], first + |mine|);
      ItemHolds(leaf, cs, items[0], first);
      var after := leaf.EntriesFrom(first + |LeafChunks(items, first)|);
      if after.Ok? {
        assert [EntryRead(items[0])] + (EntriesRead(items[1..]) + after.value) == EntriesRead(items) + after.value;
      }
    }
  }

  lemma WithinBounds(cs: seq<Chunk>, first: nat, part: seq<Chunk>)
    requires Within(cs, first, part)
    ensures first + |part| <= |cs|
  {}

  // ----- Nothing is lost

  function BytesOf(us: seq<U64>): Bytes {
    if us == [] then [] else ToBe(us[0], 8) + BytesOf(us[1..])
  }

  /** The item an entry stands for. */
  function ItemOf(e: Entry): (Bytes, nat, Bytes) {
    match e.value
    case Number(n) => (e.raw, 8, BytesOf([n]))
    case Numbers(us) => (e.raw, 8, BytesOf(us))
    case Text(b) => (e.raw, 1, b)
    case Ints(intlen, b) => (e.raw, intlen, b)
  }

  lemma {:induction false} ToBeBack(b: Bytes)
    ensures ToBe(FromBe(b), |b|) == b
  {
    if |b| > 0 {
      ToBeBack(b[..|b| - 1]);
    }
  }

  lemma {:induction false} NumbersBack(b: Bytes)
    requires |b| % 8 == 0
    ensures BytesOf(NumbersIn(b)) == b
  {
    if |b| >= 8 {
      ToBeBack(b[..8]);
      NumbersBack(b[8..]);
    }
  }

  /** Names without NUL, whole elements, and counts that fit 16 bits. */
  predicate Faithful(item: Item)
    requires item.intlen > 0
  {
    0 !in item.name && |item.name| + 1 < 0x1_0000 && |item.value| % item.intlen == 0 && Elements(item) < 0x1_0000
  }

  lemma {:induction false} UpToNulIs(s: Bytes, rest: Bytes)
    requires 0 !in s
    ensures UpToNul(s + [0] + rest) == s
  {
    if s != [] {
      UpToNulIs(s[1..], rest);
      assert (s + [0] + rest)[1..] == s[1..] + [0] + rest;
    }
  }

  lemma NameKept(item: Item)
    ensures NameRead(item) == item.name <==> 0 !in item.name && |item.name| + 1 < 0x1_0000
  {
    var whole := item.name + [0];
    if |item.name| + 1 < 0x1_0000 {
      assert whole[..|item.name| + 1] == whole == item.name + [0] + [];
      if 0 !in item.name {
        UpToNulIs(item.name, []);
      }
    } else {
      assert (|item.name| + 1) % 0x1_0000 < |item.name|;
    }
  }

  lemma FewerElements(n: nat, intlen: nat, count: nat, rest: nat, fewer: nat)
    requires n == Times(intlen, count) + rest && rest < intlen && fewer <= count
    ensures Times(intlen, fewer) == n <==> fewer == count && rest == 0
  {
    if fewer < count {
      TimesComm(intlen, fewer);
      TimesComm(intlen, count);
      BelowTimes(fewer, count, intlen, 0);
    }
  }

  lemma LengthKept(n: nat, intlen: nat)
    requires intlen > 0
    ensures Times(intlen, n / intlen % 0x1_0000) == n <==> n % intlen == 0 && n / intlen < 0x1_0000
  {
    var count := n / intlen;
    assert n == Times(intlen, count) + n % intlen;
    FewerElements(n, intlen, count, n % intlen, count % 0x1_0000);
  }

  lemma ValueKept(item: Item)
    requires item.intlen > 0
    ensures item.value[..ValueLength(item)] == item.value <==>
            |item.value| % item.intlen == 0 && Elements(item) < 0x1_0000
  {
    LengthKept(|item.value|, item.intlen);
  }

  lemma ValueBack(intlen: nat, raw: Bytes, b: Bytes, cd: U32)
    requires intlen == 8 ==> |b| % 8 == 0
    ensures ItemOf(Entry(raw, Decoded(intlen, b), cd)) == (raw, intlen, b)
  {
    if intlen == 8 {
      NumbersBack(b);
      var us := NumbersIn(b);
      assert |us| == 1 ==> us == [us[0]];
    }
  }

  /** An item comes back whole exactly when it is faithful to its counts. */
  lemma ItemKept(item: Item)
    requires item.intlen > 0
    ensures ItemOf(EntryRead(item)) == (item.name, item.intlen as nat, item.value) <==> Faithful(item)
  {
    NameKept(item);
    ValueKept(item);
    var b := item.value[..ValueLength(item)];
    if item.intlen == 8 {
      assert |b| == 8 * (|item.value| / 8 % 0x1_0000);
    }
    ValueBack(item.intlen, NameRead(item), b, 0);
  }

  /** The entries of the block are the items', in order. */
  predicate ReadBack(entries: seq<Entry>, items: seq<Item>) {
    |entries| == |items| &&
    forall i :: 0 <= i < |items| ==> ItemOf(entries[i]) == (items[i].name, items[i].intlen as nat, items[i].value)
  }

  lemma {:induction false} EntriesReadAt(items: seq<Item>)
    requires Writable(items)
    ensures |EntriesRead(items)| == |items|
    ensures forall i :: 0 <= i < |items| ==> EntriesRead(items)[i] == EntryRead(items[i])
  {
    hide EntryRead;
    if items != [] {
      EntriesReadAt(items[1..]);
    }
  }

  /** The chunks are the items' chunks, and free after them. */
  ghost predicate Laid(cs: seq<Chunk>, items: seq<Item>)
    requires Writable(items)
  {
    Within(cs, 0, LeafChunks(items, 0)) && |LeafChunks(items, 0)| <= CHAIN_END &&
    forall k :: |LeafChunks(items, 0)| <= k < |cs| ==> cs[k] == FreeChunk()
  }

  lemma BlockLaid(size: nat, items: seq<Item>)
    requires Fits(size, items)
    ensures Laid(AllChunks(size, items), items)
  {
    hide LeafChunks, FreeChunk;
  }

  // ----- The reader's 16-bit chunk index

  lemma FreeFields(c: Bytes)
    requires c == FreeChunk()
    ensures c[0] != CHUNK_ENTRY
    ensures ReadU16(Little, c[4..6]) == 0 && ReadU16(Little, c[6..8]) == 0
    ensures ReadU16(Little, c[8..10]) == 0 && ReadU16(Little, c[10..12]) == 0
  {
    ReadLe16(0);
    ZeroBytes(2);
    hide ReadU16, ToLe;
    assert c[4..6] == Zeros(2) && c[6..8] == Zeros(2) && c[8..10] == Zeros(2) && c[10..12] == Zeros(2);
  }

  /** An entry whose fields are taken from a free chunk: no name, no value. */
  lemma FreeEntry(leaf: Leaf, cs: seq<Chunk>, c: Bytes, i: nat)
    requires Holds(leaf, cs) && i < |cs| && cs[i] == FreeChunk() && |c| == CHUNK
    ensures leaf.EntryAt(c, i).Ok? && leaf.EntryAt(c, i).value.raw == []
  {
    FreeFields(cs[i]);
    hide ReadU16, ReadU32, Leaf.Chunk, Decoded;
    assert leaf.Chunk(i) == Some(cs[i]);
    assert Times(c[1], 0) == 0;
  }

  lemma {:induction false} FreeEntries(leaf: Leaf, cs: seq<Chunk>, i: nat)
    requires Holds(leaf, cs) && i <= |cs|
    requires forall k :: i <= k < |cs| ==> cs[k] == FreeChunk()
    ensures leaf.EntriesFrom(i).Ok?
    decreases |cs| - i
  {
    hide Leaf.Chunk, Leaf.EntryAt;
    if i < |cs| {
      FreeEntries(leaf, cs, i + 1);
      FreeEntry(leaf, cs, cs[i % 0x1_0000], i);
    }
  }

  lemma LeafSplit(items: seq<Item>)
    requires Writable(items) && items != []
    ensures LeafChunks(items, 0) == ItemChunks(items[0], 0) + LeafChunks(items[1..], |ItemChunks(items[0], 0)|)
  {}

  lemma FirstItem(leaf: Leaf, cs: seq<Chunk>, items: seq<Item>)
    requires Holds(leaf, cs) && Writable(items) && items != []
    requires Within(cs, 0, LeafChunks(items, 0)) && |LeafChunks(items, 0)| <= CHAIN_END
    ensures |ItemChunks(items[0], 0)| <= |LeafChunks(items, 0)| <= |cs|
    ensures Within(cs, 0, ItemChunks(items[0], 0))
    ensures cs[|ItemChunks(items[0], 0)| - 1][0] == CHUNK_ENTRY
  {
    hide Holds, Within, LeafChunks, ItemChunks, EntryRead, Leaf.EntryAt, Leaf.Chunk;
    var mine := ItemChunks(items[0], 0);
    LeafSplit(items);
    WithinBoth(cs, 0, mine, LeafChunks(items[1..], |mine|));
    EntryHolds(leaf, cs, items[0], 0);
    WithinBounds(cs, 0, LeafChunks(items, 0));
  }

  lemma MetLater(leaf: Leaf, cs: seq<Chunk>, items: seq<Item>)
    requires Holds(leaf, cs) && Writable(items) && Laid(cs, items) && items != []
    requires 0x1_0000 + |ItemChunks(items[0], 0)| <= |cs|
    ensures leaf.Valid() && leaf.EntriesFrom(|LeafChunks(items, 0)|).Ok? && leaf.EntriesFrom(|LeafChunks(items, 0)|).value != []
  {
    hide Holds, Within, LeafChunks, ItemChunks, FreeChunk, Leaf.Chunk, Leaf.EntryAt, Leaf.EntriesFrom;
    var used, mine := |LeafChunks(items, 0)|, |ItemChunks(items[0], 0)|;
    HoldsMore(leaf, cs);
    FirstItem(leaf, cs, items);
    OnceMore(leaf, cs, mine - 1);
    FirstFree(cs, items);
    EntriesSkip(leaf, cs, used, 0x1_0000 - used);
    ArraysAgain(leaf, cs, items[0]);
  }

  lemma MetAgain(leaf: Leaf, cs: seq<Chunk>, items: seq<Item>)
    requires Holds(leaf, cs) && Writable(items) && Laid(cs, items) && items != []
    requires 0x1_0000 + |ItemChunks(items[0], 0)| <= |cs|
    ensures leaf.Valid() && leaf.EntriesFrom(0).Ok? && |leaf.EntriesFrom(0).value| > |items|
  {
    hide Holds, Within, LeafChunks, ItemChunks, EntryRead, FreeChunk, Leaf.Chunk, Leaf.EntryAt, Leaf.EntriesFrom;
    MetLater(leaf, cs, items);
    ItemsHold(leaf, cs, items, 0);
    EntriesReadAt(items);
  }

  lemma FirstFree(cs: seq<Chunk>, items: seq<Item>)
    requires Writable(items) && Laid(cs, items) && |cs| >= 0x1_0000
    ensures forall k :: |LeafChunks(items, 0)| <= k < 0x1_0000 ==> cs[k % 0x1_0000][0] != CHUNK_ENTRY
  {
    hide LeafChunks;
  }

  /** The item's array chunks are passed over again. */
  lemma ArraysAgain(leaf: Leaf, cs: seq<Chunk>, item: Item)
    requires Holds(leaf, cs) && item.intlen > 0 && Within(cs, 0, ItemChunks(item, 0))
    requires |ItemChunks(item, 0)| <= CHAIN_END && 0x1_0000 + |ItemChunks(item, 0)| <= |cs|
    ensures leaf.EntriesFrom(0x1_0000) == leaf.EntriesFrom(0x1_0000 + |ItemChunks(item, 0)| - 1)
  {
    hide Holds, ItemChunks, Leaf.EntriesFrom;
    HoldsMore(leaf, cs);
    var mine := ItemChunks(item, 0);
    ItemStarts(item, 0);
    forall k | 0x1_0000 <= k < 0x1_0000 + |mine| - 1 ensures cs[k % 0x1_0000][0] != CHUNK_ENTRY {
      assert cs[k - 0x1_0000] == cs[0..|mine|][k - 0x1_0000] == mine[k - 0x1_0000];
    }
    EntriesSkip(leaf, cs, 0x1_0000, |mine| - 1);
  }

  /** The chunk 2^16 after an entry's is read as an entry, and nothing after it fails. */
  lemma OnceMore(leaf: Leaf, cs: seq<Chunk>, i: nat)
    requires Holds(leaf, cs) && i < 0x1_0000 && i + 0x1_0000 < |cs| && cs[i][0] == CHUNK_ENTRY
    requires forall k :: i + 0x1_0000 <= k < |cs| ==> cs[k] == FreeChunk()
    ensures leaf.EntriesFrom(i + 0x1_0000).Ok? && leaf.EntriesFrom(i + 0x1_0000).value != []
  {
    hide Leaf.Chunk, Leaf.EntryAt;
    FreeEntries(leaf, cs, i + 0x1_0000 + 1);
    FreeEntry(leaf, cs, cs[i], i + 0x1_0000);
  }

  /** The chunk 2^16 after the first item's entry chunk is still one of the block's: the index comes round to an entry. */
  predicate ComesRound(size: nat, items: seq<Item>)
    requires LeafSize(size) && Writable(items)
  {
    items != [] && 0x1_0000 + |ItemChunks(items[0], 0)| <= Capacity(size)
  }

  /** Otherwise every chunk met past the items, in whatever round, begins no entry. */
  lemma NothingMet(leaf: Leaf, cs: seq<Chunk>, items: seq<Item>, k: nat)
    requires Holds(leaf, cs) && Writable(items) && Laid(cs, items)
    requires items == [] || |cs| < 0x1_0000 + |ItemChunks(items[0], 0)|
    requires |LeafChunks(items, 0)| <= k < |cs|
    ensures cs[k % 0x1_0000][0] != CHUNK_ENTRY
  {
    hide Holds, ItemChunks, LeafChunks, Leaf.Chunk;
    if items == [] {
      assert LeafChunks(items, 0) == [] by { NoChunks(); }
    } else if k >= 0x1_0000 {
      FirstItem(leaf, cs, items);
      var mine := ItemChunks(items[0], 0);
      ItemStarts(items[0], 0);
      assert cs[k - 0x1_0000] == cs[0..|mine|][k - 0x1_0000] == mine[k - 0x1_0000];
    }
  }

  lemma LaidWithin(cs: seq<Chunk>, items: seq<Item>)
    requires Writable(items) && Laid(cs, items)
    ensures Within(cs, 0, LeafChunks(items, 0)) && |LeafChunks(items, 0)| <= CHAIN_END
  {}

  lemma NoChunks()
    ensures LeafChunks([], 0) == []
  {}

  lemma LeafRead(leaf: Leaf, cs: seq<Chunk>, items: seq<Item>)
    requires Holds(leaf, cs) && Writable(items) && Laid(cs, items)
    requires items == [] || |cs| < 0x1_0000 + |ItemChunks(items[0], 0)|
    ensures leaf.Valid() && leaf.EntriesFrom(0) == Ok(EntriesRead(items))
  {
    hide Holds, Within, Laid, LeafChunks, ItemChunks, EntryRead, Leaf.EntriesFrom, Leaf.Chunk;
    var used := LeafChunks(items, 0);
    forall k | |used| <= k < |cs| ensures cs[k % 0x1_0000][0] != CHUNK_ENTRY {
      NothingMet(leaf, cs, items, k);
    }
    HoldsMore(leaf, cs);
    LaidWithin(cs, items);
    WithinBounds(cs, 0, used);
    EntriesSkip(leaf, cs, |used|, |cs| - |used|);
    EntriesNone(leaf);
    ItemsHold(leaf, cs, items, 0);
    assert EntriesRead(items) + [] == EntriesRead(items);
  }

  /** A block of any size is read: with the items' entries exactly when the index does not come round, and with more otherwise. */
  lemma BlockRead(size: nat, items: seq<Item>)
    requires Fits(size, items)
    ensures EntriesOf(LeafBytes(size, items), Little).Ok?
    ensures EntriesOf(LeafBytes(size, items), Little) == Ok(EntriesRead(items)) <==> !ComesRound(size, items)
    ensures ComesRound(size, items) <==> |EntriesOf(LeafBytes(size, items), Little).value| > |items|
  {
    hide LeafBytes, LeafOf, AllChunks, ItemChunks, Leaf.EntriesFrom, Laid, Holds, EntryRead;
    LeafHolds(size, items);
    BlockLaid(size, items);
    EntriesReadAt(items);
    var leaf := LeafOf(LeafBytes(size, items), Little).value;
    if ComesRound(size, items) {
      MetAgain(leaf, AllChunks(size, items), items);
    } else {
      LeafRead(leaf, AllChunks(size, items), items);
    }
  }

  /** Writing items to a block and reading it gives back exactly them precisely when every name and value is within
      what the leaf can say and the reader's chunk index does not come round. */
  lemma RoundTrip(size: nat, items: seq<Item>)
    requires Fits(size, items)
    ensures EntriesOf(LeafBytes(size, items), Little).Ok?
    ensures ReadBack(EntriesOf(LeafBytes(size, items), Little).value, items) <==>
            !ComesRound(size, items) && forall item :: item in items ==> Faithful(item)
  {
    hide LeafBytes, EntriesOf, EntryRead, Faithful, ItemOf, ComesRound;
    BlockRead(size, items);
    EntriesReadAt(items);
    forall i | 0 <= i < |items|
      ensures ItemOf(EntriesRead(items)[i]) == (items[i].name, items[i].intlen as nat, items[i].value) <==> Faithful(items[i])
    {
      ItemKept(items[i]);
    }
  }

  /** Up to 1 MiB the index never comes round. */
  lemma OneMebibyte(size: nat, items: seq<Item>)
    requires LeafSize(size) && Writable(items) && size <= 0x10_0000
    ensures !ComesRound(size, items)
  {}

  /** In a 2 MiB block even one item of one byte is met again: two entries are read for it. */
  lemma TwoMebibytes()
    ensures Fits(0x20_0000, [Item([], 1, [7])])
    ensures EntriesOf(LeafBytes(0x20_0000, [Item([], 1, [7])]), Little).Ok?
    ensures |EntriesOf(LeafBytes(0x20_0000, [Item([], 1, [7])]), Little).value| > 1
  {
    var size, items := 0x20_0000, [Item([], 1, [7])];
    hide LeafBytes, EntriesOf, ItemChunks, LeafChunks, PowerOfTwo;
    TwoMebibytesIsPower();
    SmallChunks();
    BlockRead(size, items);
  }

  lemma TwoMebibytesIsPower()
    ensures PowerOfTwo(0x20_0000)
  {
    Pow2Of5();
    assert Pow2(7) == 128 by { assert Pow2(6) == 64; }
    Pow2IsPower(21);
    hide PowerOfTwo, Pow2;
    Pow2Add(7, 7);
    Pow2Add(14, 7);
  }

  lemma {:induction false} Pow2IsPower(k: nat)
    ensures PowerOfTwo(Pow2(k))
  {
    if k > 0 {
      Pow2IsPower(k - 1);
    }
  }

  lemma SmallChunks()
    ensures |ItemChunks(Item([], 1, [7]), 0)| == |LeafChunks([Item([], 1, [7])], 0)| == 3
  {
    hide ArrayChunk, EntryFields;
    assert ArrayChunks([0], 0) == [ArrayChunk([0], CHAIN_END)];
    assert ArrayChunks([7], 1) == [ArrayChunk([7], CHAIN_END)];
    assert [] + [0] == [0];
    var items := [Item([], 1, [7])];
    assert items[1..] == [];
  }
}
