/** The encoder: byte vectors that grow, padded to whole words as a whole. */
module NvWriter {
  import opened Octets
  import opened NvLists

  class ByteVec {
    var bytes: Bytes

    constructor (bytes: Bytes)
      ensures this.bytes == bytes
    {
      this.bytes := bytes;
    }

    method Extend(more: Bytes)
      modifies this
      ensures bytes == old(bytes) + more
    {
      bytes := bytes + more;
    }

    /** Pads the whole vector, which is the padding of its last item only when the rest is whole words. */
    method Pad4()
      modifies this
      ensures |bytes| == Padded(|old(bytes)|) && bytes == old(bytes) + Zeros(Padded(|old(bytes)|) - |old(bytes)|)
    {
      ghost var was := bytes;
      while |bytes| % 4 != 0
        invariant |was| <= |bytes| <= Padded(|was|)
        invariant bytes == was + Zeros(|bytes| - |was|)
        decreases Padded(|was|) - |bytes|
      {
        bytes := bytes + [0];
      }
    }

    method PutOpaque(s: Bytes)
      requires |bytes| % 4 == 0
      modifies this
      ensures bytes == old(bytes) + OpaqueBytes(s) && |bytes| % 4 == 0
    {
      ghost var was := bytes;
      Extend(s);
      Pad4();
      assert Padded(|was| + |s|) == |was| + Padded(|s|);
      assert was + s + Zeros(Padded(|s|) - |s|) == was + (s + Zeros(Padded(|s|) - |s|));
    }

    method PutString(s: Bytes)
      requires |bytes| % 4 == 0
      modifies this
      ensures bytes == old(bytes) + StringBytes(s) && |bytes| % 4 == 0
    {
      Extend(U32Bytes(|s|));
      PutOpaque(s);
    }
  }

  lemma AppendNext(was: Bytes, now: Bytes, b: Bytes, rest: Bytes, whole: Bytes)
    requires now + (b + rest) == was + whole
    ensures (now + b) + rest == was + whole
  {
    assert now + (b + rest) == (now + b) + rest;
  }

  // What is written from the i-th element on.

  lemma EachFrom<T>(a: seq<T>, bytes: T -> Bytes, i: nat)
    requires i <= |a|
    ensures Each(a[i..], bytes) == if i == |a| then [] else bytes(a[i]) + Each(a[i + 1..], bytes)
  {
    if i < |a| {
      assert a[i..][1..] == a[i + 1..];
    }
  }

  lemma PairsFrom(ps: seq<Pair>, i: nat)
    requires i <= |ps|
    ensures PairsBytes(ps[i..]) == if i == |ps| then I32Bytes(0) + I32Bytes(0) else PairBytes(ps[i]) + PairsBytes(ps[i + 1..])
  {
    hide I32Bytes, PairBytes;
    if i < |ps| {
      assert ps[i..][1..] == ps[i + 1..];
    }
  }

  lemma ListsFrom(ls: seq<NvList>, i: nat)
    requires i <= |ls|
    ensures ListsBytes(ls[i..]) == if i == |ls| then [] else ListBytes(ls[i]) + ListsBytes(ls[i + 1..])
  {
    hide ListBytes;
    if i < |ls| {
      assert ls[i..][1..] == ls[i + 1..];
    }
  }

  /** The loop that writes the elements of an integer or boolean array. */
  method PutEach<T(!new)>(v: ByteVec, a: seq<T>, bytes: T -> Bytes)
    requires |v.bytes| % 4 == 0
    requires forall x :: |bytes(x)| % 4 == 0
    modifies v
    ensures v.bytes == old(v.bytes) + Each(a, bytes) && |v.bytes| % 4 == 0
  {
    hide Each;
    assert a[0..] == a;
    for i := 0 to |a|
      invariant v.bytes + Each(a[i..], bytes) == old(v.bytes) + Each(a, bytes) && |v.bytes| % 4 == 0
    {
      EachFrom(a, bytes, i);
      AppendNext(old(v.bytes), v.bytes, bytes(a[i]), Each(a[i + 1..], bytes), Each(a, bytes));
      v.Extend(bytes(a[i]));
    }
    EachFrom(a, bytes, |a|);
    assert v.bytes + [] == v.bytes;
  }

  method PutStrings(v: ByteVec, a: seq<Bytes>)
    requires |v.bytes| % 4 == 0
    modifies v
    ensures v.bytes == old(v.bytes) + Each(a, StringBytes) && |v.bytes| % 4 == 0
  {
    hide Each, StringBytes;
    assert a[0..] == a;
    for i := 0 to |a|
      invariant v.bytes + Each(a[i..], StringBytes) == old(v.bytes) + Each(a, StringBytes) && |v.bytes| % 4 == 0
    {
      EachFrom(a, StringBytes, i);
      AppendNext(old(v.bytes), v.bytes, StringBytes(a[i]), Each(a[i + 1..], StringBytes), Each(a, StringBytes));
      v.PutString(a[i]);
    }
    EachFrom(a, StringBytes, |a|);
    assert v.bytes + [] == v.bytes;
  }

  method PutCounted<T(!new)>(v: ByteVec, a: seq<T>, bytes: T -> Bytes)
    requires |v.bytes| % 4 == 0
    requires forall x :: |bytes(x)| % 4 == 0
    modifies v
    ensures v.bytes == old(v.bytes) + (U32Bytes(|a|) + Each(a, bytes)) && |v.bytes| % 4 == 0
  {
    v.Extend(U32Bytes(|a|));
    PutEach(v, a, bytes);
  }

  method PutNumbers(v: ByteVec, value: Value)
    requires |v.bytes| % 4 == 0
    requires value.IntArray? || value.Uint64Array? || value.Int64Array? || value.BoolArray?
    modifies v
    ensures v.bytes == old(v.bytes) + Payload(value) && |v.bytes| % 4 == 0
  {
    hide Each, U32Bytes;
    match value
    case IntArray(a) => PutCounted<I64>(v, a, IntBytes);
    case Uint64Array(a) => PutCounted<U64>(v, a, U64Bytes);
    case Int64Array(a) => PutCounted<I64>(v, a, I64Bytes);
    case BoolArray(a) => PutCounted(v, a, WordBytes);
  }

  method PutFlat(v: ByteVec, value: Value)
    requires |v.bytes| % 4 == 0
    requires !value.List? && !value.ListArray?
    modifies v
    ensures v.bytes == old(v.bytes) + Payload(value) && |v.bytes| % 4 == 0
  {
    hide Each, StringBytes, OpaqueBytes, U32Bytes;
    match value
    case Boolean =>
    case Unknown(_, _) =>
    case Bool(b) => v.Extend(WordBytes(b));
    case Int(i) => v.Extend(IntBytes(i));
    case Uint64(u) => v.Extend(U64Bytes(u));
    case Int64(i) => v.Extend(I64Bytes(i));
    case Double(d) => v.Extend(U64Bytes(d));
    case String(s) => v.PutString(s);
    case ByteArray(b) => v.PutOpaque(b);
    case StringArray(a) => PutStrings(v, a);
    case IntArray(_) => PutNumbers(v, value);
    case Uint64Array(_) => PutNumbers(v, value);
    case Int64Array(_) => PutNumbers(v, value);
    case BoolArray(_) => PutNumbers(v, value);
  }

  method PutValue(v: ByteVec, value: Value)
    requires |v.bytes| % 4 == 0
    modifies v
    ensures v.bytes == old(v.bytes) + Payload(value) && |v.bytes| % 4 == 0
    decreases value
  {
    hide ListBytes, ListsBytes;
    match value
    case List(l) => PutList(v, l);
    case ListArray(a) => PutLists(v, a);
    case _ => PutFlat(v, value);
  }

  method PutLists(v: ByteVec, ls: seq<NvList>)
    requires |v.bytes| % 4 == 0
    modifies v
    ensures v.bytes == old(v.bytes) + ListsBytes(ls) && |v.bytes| % 4 == 0
    decreases ls
  {
    hide ListBytes, ListsBytes;
    assert ls[0..] == ls;
    for i := 0 to |ls|
      invariant v.bytes + ListsBytes(ls[i..]) == old(v.bytes) + ListsBytes(ls) && |v.bytes| % 4 == 0
    {
      ListsFrom(ls, i);
      AppendNext(old(v.bytes), v.bytes, ListBytes(ls[i]), ListsBytes(ls[i + 1..]), ListsBytes(ls));
      PutList(v, ls[i]);
    }
    ListsFrom(ls, |ls|);
    assert v.bytes + [] == v.bytes;
  }

  method PutPair(v: ByteVec, p: Pair)
    requires |v.bytes| % 4 == 0
    modifies v
    ensures v.bytes == old(v.bytes) + PairBytes(p) && |v.bytes| % 4 == 0
    decreases p
  {
    hide Payload, DecodedSize, I32Bytes, StringBytes;
    var body := new ByteVec([]);
    body.PutString(p.name);
    body.Extend(I32Bytes(TypeCode(p.value)));
    body.Extend(I32Bytes(Nelem(p.value)));
    PutValue(body, p.value);
    assert body.bytes == PairBody(p);
    v.Extend(I32Bytes(|body.bytes| + 8));
    v.Extend(I32Bytes(DecodedSize(p)));
    v.Extend(body.bytes);
  }

  /** The pairs and the two zeros that end them. */
  method PutPairs(v: ByteVec, ps: seq<Pair>)
    requires |v.bytes| % 4 == 0
    modifies v
    ensures v.bytes == old(v.bytes) + PairsBytes(ps) && |v.bytes| % 4 == 0
    decreases ps
  {
    hide PairBytes, PairsBytes, I32Bytes;
    assert ps[0..] == ps;
    for i := 0 to |ps|
      invariant v.bytes + PairsBytes(ps[i..]) == old(v.bytes) + PairsBytes(ps) && |v.bytes| % 4 == 0
    {
      PairsFrom(ps, i);
      AppendNext(old(v.bytes), v.bytes, PairBytes(ps[i]), PairsBytes(ps[i + 1..]), PairsBytes(ps));
      PutPair(v, ps[i]);
    }
    PairsFrom(ps, |ps|);
    AppendNext(old(v.bytes), v.bytes, I32Bytes(0), I32Bytes(0), PairsBytes(ps));
    v.Extend(I32Bytes(0));
    v.Extend(I32Bytes(0));
  }

  lemma HeadThenPairs(was: Bytes, a: Bytes, b: Bytes, pairs: Bytes)
    ensures (was + a + b) + pairs == was + (a + (b + pairs))
  {}

  method PutList(v: ByteVec, l: NvList)
    requires |v.bytes| % 4 == 0
    modifies v
    ensures v.bytes == old(v.bytes) + ListBytes(l) && |v.bytes| % 4 == 0
    decreases l
  {
    hide PairsBytes, I32Bytes, U32Bytes;
    v.Extend(I32Bytes(l.version));
    v.Extend(U32Bytes(l.flags));
    HeadThenPairs(old(v.bytes), I32Bytes(l.version), U32Bytes(l.flags), PairsBytes(l.pairs));
    PutPairs(v, l.pairs);
  }

  method Pack(l: NvList) returns (bytes: Bytes)
    ensures bytes == Packed(l)
  {
    hide ListBytes;
    var v := new ByteVec([1, 1, 0, 0]);
    PutList(v, l);
    bytes := v.bytes;
  }
}
