/** The leaf block that holds given entries, and the code that fills it in. */
module ZapEncode {
  import opened Octets
  import opened ZapLeaf

  /** An entry to be written: its value is elements of intlen bytes. */
  datatype Item = Item(name: Bytes, intlen: U8, value: Bytes)

  // ----- The chunks of a leaf

  type Chunk = c: Bytes | |c| == CHUNK witness Zeros(CHUNK)

  function ArrayChunk(piece: Bytes, link: nat): Chunk
    requires |piece| <= PAYLOAD
  {
    [CHUNK_ARRAY] + piece + Zeros(PAYLOAD - |piece|) + ToLe(link, 2)
  }

  /** The chain of chunks, from chunk `first` on, that holds data. */
  function ArrayChunks(data: Bytes, first: nat): (cs: seq<Chunk>)
    ensures data != [] ==> cs != []
  {
    if data == [] then []
    else if |data| <= PAYLOAD then [ArrayChunk(data, CHAIN_END)]
    else [ArrayChunk(data[..PAYLOAD], first + 1)] + ArrayChunks(data[PAYLOAD..], first + 1)
  }

  function Elements(item: Item): nat
    requires item.intlen > 0
  {
    |item.value| / item.intlen
  }

  function EntryFields(item: Item, name: nat, value: nat): (b: Bytes)
    requires item.intlen > 0
    ensures |b| == 12
  {
    [CHUNK_ENTRY, item.intlen] + ToLe(CHAIN_END, 2) + ToLe(name, 2) + ToLe(|item.name| + 1, 2) +
    ToLe(value, 2) + ToLe(Elements(item), 2)
  }

  function ValueFirst(item: Item, first: nat): nat {
    if item.value == [] then CHAIN_END else first + |ArrayChunks(item.name + [0], first)|
  }

  function ItemChunks(item: Item, first: nat): (cs: seq<Chunk>)
    requires item.intlen > 0
    ensures |cs| > 0
  {
    var names := ArrayChunks(item.name + [0], first);
    var values := ArrayChunks(item.value, first + |names|);
    names + values + [EntryFields(item, first, ValueFirst(item, first)) + Zeros(12)]
  }

  predicate Writable(items: seq<Item>) {
    forall item :: item in items ==> item.intlen > 0
  }

  function LeafChunks(items: seq<Item>, first: nat): seq<Chunk>
    requires Writable(items)
  {
    if items == [] then [] else
      var cs := ItemChunks(items[0], first);
      cs + LeafChunks(items[1..], first + |cs|)
  }

  function FreeChunk(): Chunk {
    [CHUNK_FREE] + Zeros(CHUNK - 1)
  }

  function Flat(cs: seq<Chunk>): (b: Bytes)
    ensures |b| == |cs| * CHUNK
  {
    if cs == [] then [] else Flat(cs[..|cs| - 1]) + cs[|cs| - 1]
  }

  predicate LeafSize(size: nat) {
    PowerOfTwo(size) && size >= 1024
  }

  function Offset(size: nat): nat
    requires size > 0
  {
    ChunksOffset(TrailingZeros(size))
  }

  function Capacity(size: nat): (n: nat)
    requires LeafSize(size)
    ensures Offset(size) == 48 + size / 16 && n == (size - size / 16) / CHUNK - 2
    ensures Offset(size) + n * CHUNK <= size
  {
    ChunksFit(size);
    NumChunks(TrailingZeros(size))
  }

  /** The block has the chunks, and their count fits the 16 bits of the next chunk's number. */
  predicate Fits(size: nat, items: seq<Item>) {
    LeafSize(size) && Writable(items) && |LeafChunks(items, 0)| <= Capacity(size) && |LeafChunks(items, 0)| <= CHAIN_END
  }

  function Header(size: nat, count: nat): (h: Bytes)
    requires LeafSize(size)
    ensures |h| == Offset(size) <= size
  {
    var n := Capacity(size);
    ToLe(ZBT_LEAF, 8) + Zeros(16) + ToLe(ZAP_LEAF_MAGIC, 4) + Zeros(2) + ToLe(count, 2) + Zeros(Offset(size) - 32)
  }

  function AllChunks(size: nat, items: seq<Item>): (cs: seq<Chunk>)
    requires Fits(size, items)
    ensures |cs| == Capacity(size)
  {
    var used := LeafChunks(items, 0);
    used + seq(Capacity(size) - |used|, _ => FreeChunk())
  }

  function LeafBytes(size: nat, items: seq<Item>): (b: Bytes)
    requires Fits(size, items)
    ensures |b| == size
  {
    Filled(Header(size, |items|) + Flat(AllChunks(size, items)), size)
  }

  // ----- Filling the block

  /** A block written up to the end of head. */
  function Filled(head: Bytes, size: nat): (b: Bytes)
    requires |head| <= size
    ensures |b| == size
  {
    head + Zeros(size - |head|)
  }

  lemma FilledMore(head: Bytes, n: nat, size: nat)
    requires |head| + n <= size
    ensures Filled(head + Zeros(n), size) == Filled(head, size)
  {}

  lemma FlatNext(cs: seq<Chunk>, c: Chunk)
    ensures Flat(cs + [c]) == Flat(cs) + c
  {
    assert (cs + [c])[..|cs|] == cs;
  }

  /** Copies bytes into the part of the block that is not written yet. */
  method Copy(b: array<U8>, ghost head: Bytes, at: nat, bytes: Bytes)
    requires |head| <= at && at + |bytes| <= b.Length
    requires b[..] == Filled(head, b.Length)
    modifies b
    ensures b[..] == Filled(head + Zeros(at - |head|) + bytes, b.Length)
  {
    for i := 0 to |bytes|
      invariant forall k :: 0 <= k < b.Length ==> b[k] == if at <= k < at + i then bytes[k - at] else old(b[k])
    {
      b[at + i] := bytes[i];
    }
    ghost var s := Filled(head, b.Length);
    assert forall k :: 0 <= k < b.Length ==> old(b[k]) == s[k];
  }

  method PutChunk(b: array<U8>, ghost head: Bytes, at: nat, piece: Bytes, link: nat)
    requires |head| == at && at + CHUNK <= b.Length && |piece| <= PAYLOAD
    requires b[..] == Filled(head, b.Length)
    modifies b
    ensures b[..] == Filled(head + ArrayChunk(piece, link), b.Length)
  {
    hide Filled, ToLe;
    Copy(b, head, at, [CHUNK_ARRAY]);
    Copy(b, head + Zeros(0) + [CHUNK_ARRAY], at + 1, piece);
    Copy(b, head + Zeros(0) + [CHUNK_ARRAY] + Zeros(0) + piece, at + 22, ToLe(link, 2));
    assert head + Zeros(0) + [CHUNK_ARRAY] + Zeros(0) + piece + Zeros(PAYLOAD - |piece|) + ToLe(link, 2)
        == head + ArrayChunk(piece, link);
  }

  lemma {:induction false} FlatAppend(cs: seq<Chunk>, ds: seq<Chunk>)
    ensures Flat(cs + ds) == Flat(cs) + Flat(ds)
    decreases |ds|
  {
    if ds == [] {
      assert cs + ds == cs;
      assert Flat(cs) + [] == Flat(cs);
    } else {
      hide Flat;
      var rest, d := ds[..|ds| - 1], ds[|ds| - 1];
      FlatAppend(cs, rest);
      FlatNext(cs + rest, d);
      FlatNext(rest, d);
      assert ds == rest + [d] && cs + ds == cs + rest + [d];
      assert Flat(cs) + Flat(rest) + d == Flat(cs) + (Flat(rest) + d);
    }
  }

  /** The chunk that takes the next piece of `left`, and what is left then. */
  lemma ArrayFirst(left: Bytes, next: nat, piece: Bytes, link: nat)
    requires left != []
    requires piece == if |left| <= PAYLOAD then left else left[..PAYLOAD]
    requires link == if |left| <= PAYLOAD then CHAIN_END else next + 1
    ensures ArrayChunks(left, next) == [ArrayChunk(piece, link)] + ArrayChunks(left[|piece|..], next + 1)
  {
    hide ArrayChunk;
  }

  lemma ArrayNext(head: Bytes, done: seq<Chunk>, left: Bytes, next: nat, piece: Bytes, link: nat)
    requires left != []
    requires piece == if |left| <= PAYLOAD then left else left[..PAYLOAD]
    requires link == if |left| <= PAYLOAD then CHAIN_END else next + 1
    ensures done + ArrayChunks(left, next) == done + [ArrayChunk(piece, link)] + ArrayChunks(left[|piece|..], next + 1)
    ensures head + Flat(done + [ArrayChunk(piece, link)]) == head + Flat(done) + ArrayChunk(piece, link)
  {
    hide ArrayChunk, ArrayChunks, Flat;
    var c, rest := ArrayChunk(piece, link), ArrayChunks(left[|piece|..], next + 1);
    ArrayFirst(left, next, piece, link);
    assert done + ([c] + rest) == done + [c] + rest;
    FlatNext(done, c);
    assert head + (Flat(done) + c) == head + Flat(done) + c;
  }

  lemma ArrayDone(head: Bytes, done: seq<Chunk>, next: nat)
    ensures done + ArrayChunks([], next) == done && [] + done == done
    ensures head + Flat([]) == head
  {}

  /** Writes data as a chain and returns its first chunk; `next` is the next chunk to be used. */
  method PutArray(b: array<U8>, ghost head: Bytes, base: nat, next: U16, data: Bytes) returns (first: U16, next': U16)
    requires |head| == base + next * CHUNK
    requires next + |ArrayChunks(data, next)| <= CHAIN_END
    requires base + (next + |ArrayChunks(data, next)|) * CHUNK <= b.Length
    requires b[..] == Filled(head, b.Length)
    modifies b
    ensures first == if data == [] then CHAIN_END else next
    ensures next' == next + |ArrayChunks(data, next)|
    ensures b[..] == Filled(head + Flat(ArrayChunks(data, next)), b.Length)
  {
    hide Filled, ArrayChunk, ArrayChunks, Flat;
    ghost var all := ArrayChunks(data, next);
    ghost var done: seq<Chunk> := [];
    ArrayDone(head, all, next);
    if data == [] {
      ArrayDone(head, [], next);
      return CHAIN_END, next;
    }
    first, next' := next, next;
    var left := data;
    while left != []
      invariant next' == next + |done| && done + ArrayChunks(left, next') == all
      invariant b[..] == Filled(head + Flat(done), b.Length)
      decreases |left|
    {
      var piece := if |left| <= PAYLOAD then left else left[..PAYLOAD];
      var link := if |left| <= PAYLOAD then CHAIN_END else next' + 1;
      ArrayNext(head, done, left, next', piece, link);
      PutChunk(b, head + Flat(done), base + next' * CHUNK, piece, link);
      done, left, next' := done + [ArrayChunk(piece, link)], left[|piece|..], next' + 1;
    }
    ArrayDone(head, done, next');
  }

  lemma Regroup(a: Bytes, b: Bytes, none: Bytes, c: Bytes, d: Bytes)
    requires none == []
    ensures (a + b + none + c) + d == a + (b + (c + d))
  {}

  lemma ChunkEnded(head: Bytes, flat: Bytes, part: Bytes, c: Bytes, size: nat)
    requires |part| <= CHUNK && c == part + Zeros(CHUNK - |part|)
    requires |head| + |flat| + CHUNK <= size
    ensures Filled(head + flat + Zeros(0) + part, size) == Filled(head + (flat + c), size)
  {
    hide Filled;
    var rest := Zeros(CHUNK - |part|);
    Regroup(head, flat, Zeros(0), part, rest);
    FilledMore(head + flat + Zeros(0) + part, |rest|, size);
  }

  /** The beginning of a chunk whose end stays zero. */
  lemma ChunkBegun(head: Bytes, done: seq<Chunk>, part: Bytes, c: Chunk, size: nat)
    requires |part| <= CHUNK && c == part + Zeros(CHUNK - |part|)
    requires |head| + (|done| + 1) * CHUNK <= size
    ensures Filled(head + Flat(done) + Zeros(0) + part, size) == Filled(head + Flat(done + [c]), size)
  {
    hide Filled, Flat, Zeros;
    FlatNext(done, c);
    ChunkEnded(head, Flat(done), part, c, size);
  }

  method PutItem(b: array<U8>, ghost head: Bytes, base: nat, next: U16, item: Item) returns (next': U16)
    requires item.intlen > 0 && |head| == base + next * CHUNK
    requires next + |ItemChunks(item, next)| <= CHAIN_END
    requires base + (next + |ItemChunks(item, next)|) * CHUNK <= b.Length
    requires b[..] == Filled(head, b.Length)
    modifies b
    ensures next' == next + |ItemChunks(item, next)|
    ensures b[..] == Filled(head + Flat(ItemChunks(item, next)), b.Length)
  {
    hide Filled, ArrayChunks, Flat, EntryFields;
    ghost var names := ArrayChunks(item.name + [0], next);
    ghost var values := ArrayChunks(item.value, next + |names|);
    var nameFirst, afterName := PutArray(b, head, base, next, item.name + [0]);
    var valueFirst, afterValue := PutArray(b, head + Flat(names), base, afterName, item.value);
    var fields := EntryFields(item, nameFirst, valueFirst);
    Copy(b, head + Flat(names) + Flat(values), base + afterValue * CHUNK, fields);
    next' := afterValue + 1;
    FlatAppend(names, values);
    assert head + Flat(names) + Flat(values) == head + Flat(names + values);
    ChunkBegun(head, names + values, fields, fields + Zeros(12), b.Length);
  }

  lemma LeafNext(items: seq<Item>, i: nat, used: nat, cs: seq<Chunk>)
    requires i < |items| && Writable(items)
    ensures items[i].intlen > 0
    ensures cs + LeafChunks(items[i..], used)
         == cs + ItemChunks(items[i], used) + LeafChunks(items[i + 1..], used + |ItemChunks(items[i], used)|)
  {
    hide ItemChunks;
    assert items[i..][1..] == items[i + 1..];
  }

  lemma HeaderParts(size: nat, count: nat)
    requires LeafSize(size)
    ensures Offset(size) >= 32
    ensures Header(size, count) == ToLe(ZBT_LEAF, 8) + Zeros(16) + ToLe(ZAP_LEAF_MAGIC, 4) + Zeros(2) + ToLe(count, 2)
                                   + Zeros(Offset(size) - 32)
  {
    hide Offset, LeafSize, ToLe;
    var n := Capacity(size);
  }

  /** The header is written up to its zeros, which are there already. */
  method PutHeader(b: array<U8>, count: nat)
    requires LeafSize(b.Length)
    requires b[..] == Filled([], b.Length)
    modifies b
    ensures b[..] == Filled(Header(b.Length, count), b.Length)
  {
    hide Filled, ToLe, Header, Offset, LeafSize;
    HeaderParts(b.Length, count);
    ghost var h1 := [] + Zeros(0) + ToLe(ZBT_LEAF, 8);
    ghost var h2 := h1 + Zeros(16) + ToLe(ZAP_LEAF_MAGIC, 4);
    ghost var h3 := h2 + Zeros(2) + ToLe(count, 2);
    Copy(b, [], 0, ToLe(ZBT_LEAF, 8));
    Copy(b, h1, 24, ToLe(ZAP_LEAF_MAGIC, 4));
    Copy(b, h2, 30, ToLe(count, 2));
    assert h1 == ToLe(ZBT_LEAF, 8);
    FilledMore(h3, Offset(b.Length) - 32, b.Length);
  }

  lemma FilledNone(size: nat)
    ensures Filled([], size) == Zeros(size)
  {}

  /** Marks the chunks from `next` on as free. */
  method PutFree(b: array<U8>, ghost head: Bytes, ghost used: seq<Chunk>, base: nat, next: nat, nchunks: nat)
    requires |head| == base && |used| == next <= nchunks && base + nchunks * CHUNK <= b.Length
    requires b[..] == Filled(head + Flat(used), b.Length)
    modifies b
    ensures b[..] == Filled(head + Flat(used + seq(nchunks - |used|, _ => FreeChunk())), b.Length)
  {
    hide Filled, Flat;
    ghost var done := used;
    for i := next to nchunks
      invariant |done| == i && done == used + seq(i - |used|, _ => FreeChunk())
      invariant b[..] == Filled(head + Flat(done), b.Length)
    {
      Copy(b, head + Flat(done), base + i * CHUNK, [CHUNK_FREE]);
      ChunkBegun(head, done, [CHUNK_FREE], FreeChunk(), b.Length);
      done := done + [FreeChunk()];
    }
  }

  method PutItems(b: array<U8>, ghost head: Bytes, base: nat, items: seq<Item>) returns (next: U16)
    requires Writable(items) && |head| == base && |LeafChunks(items, 0)| <= CHAIN_END
    requires base + |LeafChunks(items, 0)| * CHUNK <= b.Length
    requires b[..] == Filled(head, b.Length)
    modifies b
    ensures next == |LeafChunks(items, 0)| && b[..] == Filled(head + Flat(LeafChunks(items, 0)), b.Length)
  {
    hide Filled, Flat, ItemChunks;
    next := 0;
    ghost var used: seq<Chunk> := [];
    ArrayDone(head, used, 0);
    for i := 0 to |items|
      invariant next == |used| && used + LeafChunks(items[i..], next) == LeafChunks(items, 0)
      invariant b[..] == Filled(head + Flat(used), b.Length)
    {
      LeafNext(items, i, next, used);
      ghost var cs := ItemChunks(items[i], next);
      next := PutItem(b, head + Flat(used), base, next, items[i]);
      FlatAppend(used, cs);
      assert head + Flat(used) + Flat(cs) == head + Flat(used + cs);
      used := used + cs;
    }
    assert used + [] == used;
  }

  method EncodeLeaf(size: nat, items: seq<Item>) returns (b: array<U8>)
    requires Fits(size, items)
    ensures fresh(b) && b[..] == LeafBytes(size, items)
  {
    hide Filled, Flat, LeafChunks, Header;
    b := new U8[size](_ => 0);
    FilledNone(size);
    PutHeader(b, |items|);
    ghost var head := Header(size, |items|);
    var base, nchunks := Offset(size), Capacity(size);
    var next := PutItems(b, head, base, items);
    PutFree(b, head, LeafChunks(items, 0), base, next, nchunks);
  }
}
