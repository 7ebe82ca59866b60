/** Reading undoes writing: exactly which lists come back from their encoding. */
module NvRoundTrip {
  import opened Arith
  import opened Wrappers
  import opened Octets
  import opened NvLists

  predicate IsInt32(i: int) { -0x8000_0000 <= i < 0x8000_0000 }

  /** The written form of v says v: integers fit the 32 bits they are written in, and codes are unknown. */
  predicate Representable(v: Value, depth: nat) {
    match v
    case Int(i) => IsInt32(i)
    case IntArray(a) => forall i :: i in a ==> IsInt32(i)
    case Unknown(code, _) => !(1 <= code <= 27)
    case List(l) => RepresentableList(l, depth + 1)
    case ListArray(ls) => forall l :: l in ls ==> RepresentableList(l, depth + 1)
    case _ => true
  }

  predicate RepresentableList(l: NvList, depth: nat) {
    depth <= MAX_DEPTH && |l.pairs| <= MAX_PAIRS && forall p :: p in l.pairs ==> Representable(p.value, depth)
  }

  /** Every pair has a size that its 32-bit size field can say. */
  predicate Sized(l: NvList) {
    forall p :: p in l.pairs ==> |PairBytes(p)| < 0x8000_0000
  }

  /** The reading succeeded with x, whatever the position it ended at. */
  predicate Yields<T(==)>(r: Parsed<T>, x: T) {
    r.Ok? && r.value.0 == x
  }

  // ----- Sizes

  lemma {:induction false} EachSize<T>(xs: seq<T>, bytes: T -> Bytes, k: nat)
    requires forall x :: x in xs ==> |bytes(x)| >= k
    ensures |Each(xs, bytes)| >= Times(|xs|, k)
    ensures (forall x :: x in xs ==> |bytes(x)| == k) ==> |Each(xs, bytes)| == Times(|xs|, k)
  {
    if xs != [] {
      EachSize(xs[1..], bytes, k);
      TimesAdd(|xs| - 1, 1, k);
    }
  }

  lemma {:induction false} PairsSize(ps: seq<Pair>)
    ensures |PairsBytes(ps)| >= 8
    ensures forall p :: p in ps ==> |PairBytes(p)| <= |PairsBytes(ps)|
  {
    if ps != [] {
      PairsSize(ps[1..]);
      assert forall p :: p in ps ==> p == ps[0] || p in ps[1..];
    }
  }

  lemma SizedInside(l: NvList)
    requires |ListBytes(l)| < 0x8000_0000
    ensures Sized(l)
  {
    PairsSize(l.pairs);
  }

  lemma {:induction false} ListsSize(ls: seq<NvList>)
    ensures |ListsBytes(ls)| >= |ls|
  {
    if ls != [] {
      ListsSize(ls[1..]);
      PairsSize(ls[0].pairs);
    }
  }

  lemma NelemFits(v: Value)
    requires |Payload(v)| < 0x8000_0000
    ensures IsInt32(Nelem(v))
  {
    match v
    case IntArray(a) => EachSize(a, IntBytes, 4);
    case Uint64Array(a) => EachSize(a, U64Bytes, 8);
    case Int64Array(a) => EachSize(a, I64Bytes, 8);
    case BoolArray(a) => EachSize(a, WordBytes, 4);
    case StringArray(a) => EachSize(a, StringBytes, 4);
    case ListArray(a) => ListsSize(a);
    case _ =>
  }

  // ----- Numbers and strings

  lemma U32Holds(buf: Bytes, pos: nat, n: U32, what: string)
    requires HoldsAt(buf, pos, U32Bytes(n))
    ensures U32At(buf, pos, what) == Ok((n, pos + 4))
  {
    Pow256Is();
    hide HoldsAt, ToBe, FromBe, Pow256;
    HoldsNumber(buf, pos, n, 4);
  }

  lemma I32Holds(buf: Bytes, pos: nat, i: int, what: string)
    requires HoldsAt(buf, pos, I32Bytes(i))
    ensures I32At(buf, pos, what) == Ok((Signed(i, 0x1_0000_0000), pos + 4))
    ensures IsInt32(i) <==> Signed(i, 0x1_0000_0000) == i
  {
    Pow256Is();
    hide HoldsAt, ToBe, FromBe, Pow256;
    HoldsNumber(buf, pos, i % 0x1_0000_0000, 4);
  }

  lemma U64Holds(buf: Bytes, pos: nat, n: U64, what: string)
    requires HoldsAt(buf, pos, U64Bytes(n))
    ensures U64At(buf, pos, what) == Ok((n, pos + 8))
  {
    Pow256Is();
    hide HoldsAt, ToBe, FromBe, Pow256;
    HoldsNumber(buf, pos, n, 8);
  }

  lemma I64Holds(buf: Bytes, pos: nat, i: I64, what: string)
    requires HoldsAt(buf, pos, I64Bytes(i))
    ensures exists u: U64 :: U64At(buf, pos, what) == Ok((u, pos + 8)) && ToI64(u) == i
  {
    hide HoldsAt, U64At, ToBe;
    var u := i % 0x1_0000_0000_0000_0000;
    U64Holds(buf, pos, u, what);
    assert U64At(buf, pos, what) == Ok((u, pos + 8)) && ToI64(u) == i;
  }

  lemma OpaqueHolds(buf: Bytes, pos: nat, s: Bytes, what: string)
    requires HoldsAt(buf, pos, OpaqueBytes(s))
    ensures OpaqueAt(buf, pos, |s|, what) == Ok((s, pos + |OpaqueBytes(s)|))
  {
    HoldsBoth(buf, pos, s, Zeros(Padded(|s|) - |s|));
  }

  lemma StringHolds(buf: Bytes, pos: nat, s: Bytes, what: string)
    requires HoldsAt(buf, pos, StringBytes(s)) && |s| < 0x1_0000_0000
    ensures StringAt(buf, pos, what) == Ok((s, pos + |StringBytes(s)|))
  {
    HoldsBoth(buf, pos, U32Bytes(|s|), OpaqueBytes(s));
    U32Holds(buf, pos, |s|, what);
    OpaqueHolds(buf, pos + 4, s, what);
  }

  lemma CountHolds(buf: Bytes, pos: nat, n: nat, elsize: nat, elements: Bytes)
    requires n < 0x8000_0000 && |elements| == elsize * n
    requires HoldsAt(buf, pos, U32Bytes(n) + elements)
    ensures CountAt(buf, pos, n, elsize, VALUE) == Ok((n, pos + 4))
    ensures HoldsAt(buf, pos + 4, elements)
  {
    HoldsBoth(buf, pos, U32Bytes(n), elements);
    U32Holds(buf, pos, n, VALUE);
    assert n * elsize == |elements|;
  }

  // ----- Arrays

  /** Wherever x is written, its image is read. */
  ghost predicate ReadAs<T, U>(buf: Bytes, x: T, bytes: T -> Bytes, read: nat -> Parsed<U>, image: T -> U) {
    forall p: nat :: HoldsAt(buf, p, bytes(x)) ==> read(p) == Ok((image(x), p + |bytes(x)|))
  }

  lemma MapSplit<T, U>(f: T -> U, xs: seq<T>)
    requires xs != []
    ensures Map(f, xs) == [f(xs[0])] + Map(f, xs[1..])
  {}

  lemma {:induction false} ManyHolds<T, U>(buf: Bytes, pos: nat, xs: seq<T>, bytes: T -> Bytes, read: nat -> Parsed<U>, image: T -> U)
    requires HoldsAt(buf, pos, Each(xs, bytes))
    requires forall x :: x in xs ==> ReadAs(buf, x, bytes, read, image)
    ensures ManyAt(read, pos, |xs|) == Ok((Map(image, xs), pos + |Each(xs, bytes)|))
    decreases |xs|
  {
    hide HoldsAt;
    if xs == [] {
      assert Map(image, xs) == [];
    } else {
      var b := bytes(xs[0]);
      HoldsBoth(buf, pos, b, Each(xs[1..], bytes));
      assert ReadAs(buf, xs[0], bytes, read, image);
      assert read(pos) == Ok((image(xs[0]), pos + |b|));
      ManyHolds(buf, pos + |b|, xs[1..], bytes, read, image);
      MapSplit(image, xs);
    }
  }

  /** What 32 bits keep of i. */
  function Kept(i: I64): I32 { Signed(i, 0x1_0000_0000) }

  function Flag(b: bool): U32 { Word(b) }

  function Unsigned(i: I64): U64 { i % 0x1_0000_0000_0000_0000 }

  function Same(s: Bytes): Bytes { s }

  /** The value at pos is v, up to the end of v's written form. */
  ghost predicate Reads(buf: Bytes, pos: nat, v: Value, depth: nat, read: Value)
    requires depth <= MAX_DEPTH && IsInt32(Nelem(v))
  {
    ValueAt(buf, pos, TypeCode(v), Nelem(v), depth) == Ok((read, pos + |Payload(v)|))
  }

  function SameU64(u: U64): U64 { u }

  lemma IntReadBack(buf: Bytes, x: I64)
    ensures ReadAs<I64, I32>(buf, x, IntBytes, Readers32(buf), Kept)
  {
    forall p: nat | HoldsAt(buf, p, IntBytes(x)) ensures Readers32(buf)(p) == Ok((Kept(x), p + |IntBytes(x)|)) {
      I32Holds(buf, p, x, VALUE);
    }
  }

  lemma KeptAll(a: seq<I64>)
    ensures Map(Narrower(13), Map(Kept, a)) == Map(Kept, a)
    ensures Map(Kept, a) == a <==> forall i :: i in a ==> IsInt32(i)
  {
    var raws: seq<int> := Map(Kept, a);
    if raws == a {
      forall i | i in a ensures IsInt32(i) {
        var k :| 0 <= k < |a| && a[k] == i;
        assert raws[k] == Kept(a[k]);
      }
    }
    if forall i :: i in a ==> IsInt32(i) {
      forall k | 0 <= k < |a| ensures raws[k] == a[k] {
        assert a[k] in a;
      }
    }
  }

  lemma IntArrayElements(buf: Bytes, pos: nat, a: seq<I64>)
    requires |a| < 0x8000_0000 && HoldsAt(buf, pos, Payload(IntArray(a)))
    ensures CountAt(buf, pos, |a|, 4, VALUE) == Ok((|a|, pos + 4))
    ensures ManyAt(Readers32(buf), pos + 4, |a|) == Ok((Map(Kept, a), pos + |Payload(IntArray(a))|))
  {
    hide HoldsAt, ReadAs, Map, IntBytes, CountAt, ManyAt, Each;
    EachSize<I64>(a, IntBytes, 4);
    CountHolds(buf, pos, |a|, 4, Each(a, IntBytes));
    forall x | x in a ensures ReadAs<I64, I32>(buf, x, IntBytes, Readers32(buf), Kept) {
      IntReadBack(buf, x);
    }
    ManyHolds<I64, I32>(buf, pos + 4, a, IntBytes, Readers32(buf), Kept);
  }

  lemma IntArrayHolds(buf: Bytes, pos: nat, a: seq<I64>, depth: nat)
    requires depth <= MAX_DEPTH && |a| < 0x8000_0000
    requires HoldsAt(buf, pos, Payload(IntArray(a)))
    ensures Reads(buf, pos, IntArray(a), depth, IntArray(Map(Kept, a)))
    ensures Map(Kept, a) == a <==> forall i :: i in a ==> IsInt32(i)
  {
    hide HoldsAt, Map, CountAt, ManyAt, Each, Payload;
    IntArrayElements(buf, pos, a);
    KeptAll(a);
  }

  lemma U64ReadBack(buf: Bytes, x: U64)
    ensures ReadAs<U64, U64>(buf, x, U64Bytes, Readers64(buf), SameU64)
  {
    forall p: nat | HoldsAt(buf, p, U64Bytes(x)) ensures Readers64(buf)(p) == Ok((SameU64(x), p + |U64Bytes(x)|)) {
      U64Holds(buf, p, x, VALUE);
    }
  }

  lemma SameU64s(a: seq<U64>)
    ensures Map(SameU64, a) == a
  {}

  lemma Uint64ArrayElements(buf: Bytes, pos: nat, a: seq<U64>)
    requires |a| < 0x8000_0000 && HoldsAt(buf, pos, Payload(Uint64Array(a)))
    ensures CountAt(buf, pos, |a|, 8, VALUE) == Ok((|a|, pos + 4))
    ensures ManyAt(Readers64(buf), pos + 4, |a|) == Ok((Map(SameU64, a), pos + |Payload(Uint64Array(a))|))
  {
    hide HoldsAt, ReadAs, Map, U64Bytes, CountAt, ManyAt, Each;
    EachSize<U64>(a, U64Bytes, 8);
    CountHolds(buf, pos, |a|, 8, Each(a, U64Bytes));
    forall x | x in a ensures ReadAs<U64, U64>(buf, x, U64Bytes, Readers64(buf), SameU64) {
      U64ReadBack(buf, x);
    }
    ManyHolds<U64, U64>(buf, pos + 4, a, U64Bytes, Readers64(buf), SameU64);
  }

  lemma Uint64ArrayHolds(buf: Bytes, pos: nat, a: seq<U64>, depth: nat)
    requires depth <= MAX_DEPTH && |a| < 0x8000_0000
    requires HoldsAt(buf, pos, Payload(Uint64Array(a)))
    ensures Reads(buf, pos, Uint64Array(a), depth, Uint64Array(a))
  {
    hide HoldsAt, Map, CountAt, ManyAt, Each, Payload;
    Uint64ArrayElements(buf, pos, a);
    SameU64s(a);
  }

  lemma I64ReadBack(buf: Bytes, x: I64)
    ensures ReadAs<I64, U64>(buf, x, I64Bytes, Readers64(buf), Unsigned)
  {
    forall p: nat | HoldsAt(buf, p, I64Bytes(x)) ensures Readers64(buf)(p) == Ok((Unsigned(x), p + |I64Bytes(x)|)) {
      U64Holds(buf, p, Unsigned(x), VALUE);
    }
  }

  lemma SignedAgain(a: seq<I64>)
    ensures Map(ToI64, Map(Unsigned, a)) == a
  {}

  lemma Int64ArrayElements(buf: Bytes, pos: nat, a: seq<I64>)
    requires |a| < 0x8000_0000 && HoldsAt(buf, pos, Payload(Int64Array(a)))
    ensures CountAt(buf, pos, |a|, 8, VALUE) == Ok((|a|, pos + 4))
    ensures ManyAt(Readers64(buf), pos + 4, |a|) == Ok((Map(Unsigned, a), pos + |Payload(Int64Array(a))|))
  {
    hide HoldsAt, ReadAs, Map, I64Bytes, CountAt, ManyAt, Each;
    EachSize<I64>(a, I64Bytes, 8);
    CountHolds(buf, pos, |a|, 8, Each(a, I64Bytes));
    forall x | x in a ensures ReadAs<I64, U64>(buf, x, I64Bytes, Readers64(buf), Unsigned) {
      I64ReadBack(buf, x);
    }
    ManyHolds<I64, U64>(buf, pos + 4, a, I64Bytes, Readers64(buf), Unsigned);
  }

  lemma Int64ArrayHolds(buf: Bytes, pos: nat, a: seq<I64>, depth: nat)
    requires depth <= MAX_DEPTH && |a| < 0x8000_0000
    requires HoldsAt(buf, pos, Payload(Int64Array(a)))
    ensures Reads(buf, pos, Int64Array(a), depth, Int64Array(a))
  {
    hide HoldsAt, Map, CountAt, ManyAt, Each, Payload;
    Int64ArrayElements(buf, pos, a);
    SignedAgain(a);
  }

  lemma BoolReadBack(buf: Bytes, x: bool)
    ensures ReadAs<bool, U32>(buf, x, WordBytes, ReadersWord(buf), Flag)
  {
    forall p: nat | HoldsAt(buf, p, WordBytes(x)) ensures ReadersWord(buf)(p) == Ok((Flag(x), p + |WordBytes(x)|)) {
      U32Holds(buf, p, Word(x), VALUE);
    }
  }

  lemma FlagsAgain(a: seq<bool>)
    ensures Map(IsSet, Map(Flag, a)) == a
  {}

  lemma BoolArrayElements(buf: Bytes, pos: nat, a: seq<bool>)
    requires |a| < 0x8000_0000 && HoldsAt(buf, pos, Payload(BoolArray(a)))
    ensures CountAt(buf, pos, |a|, 4, VALUE) == Ok((|a|, pos + 4))
    ensures ManyAt(ReadersWord(buf), pos + 4, |a|) == Ok((Map(Flag, a), pos + |Payload(BoolArray(a))|))
  {
    hide HoldsAt, ReadAs, Map, WordBytes, CountAt, ManyAt, Each;
    EachSize<bool>(a, WordBytes, 4);
    CountHolds(buf, pos, |a|, 4, Each(a, WordBytes));
    forall x | x in a ensures ReadAs<bool, U32>(buf, x, WordBytes, ReadersWord(buf), Flag) {
      BoolReadBack(buf, x);
    }
    ManyHolds<bool, U32>(buf, pos + 4, a, WordBytes, ReadersWord(buf), Flag);
  }

  lemma BoolArrayHolds(buf: Bytes, pos: nat, a: seq<bool>, depth: nat)
    requires depth <= MAX_DEPTH && |a| < 0x8000_0000
    requires HoldsAt(buf, pos, Payload(BoolArray(a)))
    ensures Reads(buf, pos, BoolArray(a), depth, BoolArray(a))
  {
    hide HoldsAt, Map, CountAt, ManyAt, Each, Payload;
    BoolArrayElements(buf, pos, a);
    FlagsAgain(a);
  }

  lemma {:induction false} TextsSize(a: seq<Bytes>)
    ensures forall s :: s in a ==> |s| <= |Each(a, StringBytes)|
  {
    if a != [] {
      TextsSize(a[1..]);
      assert forall s :: s in a ==> s == a[0] || s in a[1..];
    }
  }

  lemma TextReadBack(buf: Bytes, x: Bytes)
    requires |x| < 0x1_0000_0000
    ensures ReadAs<Bytes, Bytes>(buf, x, StringBytes, ReadersText(buf), Same)
  {
    forall p: nat | HoldsAt(buf, p, StringBytes(x)) ensures ReadersText(buf)(p) == Ok((Same(x), p + |StringBytes(x)|)) {
      StringHolds(buf, p, x, VALUE);
    }
  }

  lemma SameTexts(a: seq<Bytes>)
    ensures Map(Same, a) == a
  {}

  lemma TextsHold(buf: Bytes, pos: nat, a: seq<Bytes>)
    requires |Each(a, StringBytes)| < 0x8000_0000 && HoldsAt(buf, pos, Each(a, StringBytes))
    ensures ManyAt(ReadersText(buf), pos, |a|) == Ok((a, pos + |Each(a, StringBytes)|))
  {
    hide HoldsAt, ReadAs, Map, StringBytes, Each;
    TextsSize(a);
    forall x | x in a ensures ReadAs<Bytes, Bytes>(buf, x, StringBytes, ReadersText(buf), Same) {
      TextReadBack(buf, x);
    }
    ManyHolds<Bytes, Bytes>(buf, pos, a, StringBytes, ReadersText(buf), Same);
    SameTexts(a);
  }

  lemma StringArrayHolds(buf: Bytes, pos: nat, a: seq<Bytes>, depth: nat)
    requires depth <= MAX_DEPTH && |Each(a, StringBytes)| < 0x8000_0000 && |a| < 0x8000_0000
    requires HoldsAt(buf, pos, Payload(StringArray(a)))
    ensures Reads(buf, pos, StringArray(a), depth, StringArray(a))
  {
    hide HoldsAt, StringBytes, Each, ManyAt;
    TextsHold(buf, pos, a);
  }

  // ----- Values, pairs and lists

  /** Reading gives x and ends at `end` when the condition holds, and otherwise does not give x. */
  ghost predicate Exactly<T>(r: Parsed<T>, x: T, end: nat, condition: bool) {
    (condition ==> r == Ok((x, end))) && (Yields(r, x) ==> condition)
  }

  /** A value in its written form, seen by the reader. */
  ghost predicate ValueExact(buf: Bytes, pos: nat, v: Value, depth: nat)
    requires depth <= MAX_DEPTH && IsInt32(Nelem(v))
  {
    Exactly(ValueAt(buf, pos, TypeCode(v), Nelem(v), depth), v, pos + |Payload(v)|, Representable(v, depth))
  }

  lemma {:induction false} ScalarHolds(buf: Bytes, pos: nat, v: Value, depth: nat)
    requires depth <= MAX_DEPTH && IsInt32(Nelem(v)) && |Payload(v)| < 0x8000_0000
    requires v.Boolean? || v.Bool? || v.Int? || v.Uint64? || v.Int64? || v.Double? || v.Unknown?
    requires HoldsAt(buf, pos, Payload(v))
    ensures ValueExact(buf, pos, v, depth)
  {
    hide HoldsAt, U32At, I32At, U64At, ToBe, U32Bytes, I32Bytes, Signed;
    match v
    case Boolean =>
    case Bool(b) => U32Holds(buf, pos, Word(b), VALUE);
    case Int(i) => I32Holds(buf, pos, i, VALUE);
    case Uint64(u) => U64Holds(buf, pos, u, VALUE);
    case Int64(i) => I64Holds(buf, pos, i, VALUE);
    case Double(d) => U64Holds(buf, pos, d, VALUE);
    case Unknown(code, nelem) =>
  }

  lemma {:induction false} FlatHolds(buf: Bytes, pos: nat, v: Value, depth: nat)
    requires depth <= MAX_DEPTH && IsInt32(Nelem(v)) && |Payload(v)| < 0x8000_0000
    requires v.String? || v.ByteArray? || v.IntArray? || v.Uint64Array? || v.Int64Array? || v.BoolArray? || v.StringArray?
    requires HoldsAt(buf, pos, Payload(v))
    ensures ValueExact(buf, pos, v, depth)
  {
    hide HoldsAt, StringAt, OpaqueAt, CountAt, ManyAt, Each, Map;
    match v
    case String(s) => StringHolds(buf, pos, s, VALUE);
    case ByteArray(b) => OpaqueHolds(buf, pos, b, VALUE);
    case IntArray(a) => IntArrayHolds(buf, pos, a, depth);
    case Uint64Array(a) => Uint64ArrayHolds(buf, pos, a, depth);
    case Int64Array(a) => Int64ArrayHolds(buf, pos, a, depth);
    case BoolArray(a) => BoolArrayHolds(buf, pos, a, depth);
    case StringArray(a) => StringArrayHolds(buf, pos, a, depth);
  }

  lemma ListValue(buf: Bytes, pos: nat, l: NvList, depth: nat)
    requires depth <= MAX_DEPTH
    requires Exactly(ListAt(buf, pos, depth + 1), l, pos + |ListBytes(l)|, RepresentableList(l, depth + 1))
    ensures ValueExact(buf, pos, List(l), depth)
  {
    hide ListAt, ListBytes, RepresentableList;
  }

  lemma ListArrayValue(buf: Bytes, pos: nat, ls: seq<NvList>, depth: nat)
    requires depth <= MAX_DEPTH && |ls| < 0x8000_0000
    requires Exactly(ListsAt(buf, pos, |ls|, depth + 1), ls, pos + |ListsBytes(ls)|, forall l :: l in ls ==> RepresentableList(l, depth + 1))
    ensures ValueExact(buf, pos, ListArray(ls), depth)
  {
    hide ListsAt, ListsBytes, RepresentableList;
  }

  lemma {:induction false} ValueHolds(buf: Bytes, pos: nat, v: Value, depth: nat)
    requires depth <= MAX_DEPTH && IsInt32(Nelem(v)) && |Payload(v)| < 0x8000_0000
    requires HoldsAt(buf, pos, Payload(v))
    ensures ValueExact(buf, pos, v, depth)
    decreases v
  {
    hide HoldsAt, ListAt, ListsAt, ListBytes, ListsBytes, RepresentableList, Sized, ValueExact;
    match v
    case List(l) =>
      SizedInside(l);
      ListHolds(buf, pos, l, depth + 1);
      ListValue(buf, pos, l, depth);
    case ListArray(ls) =>
      ListsHold(buf, pos, ls, depth + 1);
      ListArrayValue(buf, pos, ls, depth);
    case _ =>
      if v.String? || v.ByteArray? || v.IntArray? || v.Uint64Array? || v.Int64Array? || v.BoolArray? || v.StringArray? {
        FlatHolds(buf, pos, v, depth);
      } else {
        ScalarHolds(buf, pos, v, depth);
      }
  }

  /** The fields of a pair's body, and where its value is. */
  lemma PairFields(buf: Bytes, pos: nat, p: Pair)
    requires |PairBody(p)| < 0x8000_0000 && HoldsAt(buf, pos, PairBody(p))
    ensures StringAt(buf, pos, "nvpair name") == Ok((p.name, pos + |StringBytes(p.name)|))
    ensures IsInt32(Nelem(p.value))
    ensures I32At(buf, pos + |StringBytes(p.name)|, "nvpair type") == Ok((TypeCode(p.value), pos + |StringBytes(p.name)| + 4))
    ensures I32At(buf, pos + |StringBytes(p.name)| + 4, "nvpair nelem") == Ok((Nelem(p.value), pos + |StringBytes(p.name)| + 8))
    ensures HoldsAt(buf, pos + |StringBytes(p.name)| + 8, Payload(p.value))
  {
    hide HoldsAt, StringAt, I32At, I32Bytes, Payload, Nelem, TypeCode;
    var code, nelem, p1 := TypeCode(p.value), Nelem(p.value), pos + |StringBytes(p.name)|;
    HoldsBoth(buf, pos, StringBytes(p.name), I32Bytes(code) + (I32Bytes(nelem) + Payload(p.value)));
    HoldsBoth(buf, p1, I32Bytes(code), I32Bytes(nelem) + Payload(p.value));
    HoldsBoth(buf, p1 + 4, I32Bytes(nelem), Payload(p.value));
    NelemFits(p.value);
    StringHolds(buf, pos, p.name, "nvpair name");
    I32Holds(buf, p1, code, "nvpair type");
    I32Holds(buf, p1 + 4, nelem, "nvpair nelem");
  }

  /** A pair's body in a buffer that ends with it. */
  lemma {:induction false} PairHolds(buf: Bytes, pos: nat, p: Pair, depth: nat)
    requires depth <= MAX_DEPTH && |PairBody(p)| < 0x8000_0000
    requires HoldsAt(buf, pos, PairBody(p))
    ensures Representable(p.value, depth) <==> PairAt(buf, pos, depth) == Ok(p)
    decreases p
  {
    hide HoldsAt, StringAt, I32At, StringBytes, Payload, Nelem, TypeCode, ValueAt, Representable;
    PairFields(buf, pos, p);
    ValueHolds(buf, pos + |StringBytes(p.name)| + 8, p.value, depth);
  }

  predicate RepresentablePairs(ps: seq<Pair>, depth: nat) {
    forall p :: p in ps ==> Representable(p.value, depth)
  }

  lemma HoldsWithin(buf: Bytes, pos: nat, b: Bytes)
    requires HoldsAt(buf, pos, b)
    ensures pos + |b| <= |buf|
  {}

  lemma SizesHold(buf: Bytes, pos: nat, size: nat, decoded: nat, body: Bytes)
    requires size == 8 + |body| < 0x8000_0000
    requires HoldsAt(buf, pos, I32Bytes(size) + (I32Bytes(decoded) + body))
    ensures I32At(buf, pos, "nvpair encoded size") == Ok((size, pos + 4))
    ensures I32At(buf, pos + 4, "nvpair decoded size").Ok?
    ensures pos + size <= |buf| && HoldsAt(buf[..pos + size], pos + 8, body)
  {
    HoldsWithin(buf, pos, I32Bytes(size) + (I32Bytes(decoded) + body));
    hide HoldsAt, I32At, I32Bytes;
    HoldsBoth(buf, pos, I32Bytes(size), I32Bytes(decoded) + body);
    HoldsBoth(buf, pos + 4, I32Bytes(decoded), body);
    I32Holds(buf, pos, size, "nvpair encoded size");
    I32Holds(buf, pos + 4, decoded, "nvpair decoded size");
    HoldsBefore(buf, pos + size, pos + 8, body);
  }

  /** What the reader of a list sees of a pair: its size, and its body where the size says. */
  lemma PairHeader(buf: Bytes, pos: nat, p: Pair)
    requires |PairBytes(p)| < 0x8000_0000 && HoldsAt(buf, pos, PairBytes(p))
    ensures I32At(buf, pos, "nvpair encoded size") == Ok((|PairBytes(p)|, pos + 4))
    ensures I32At(buf, pos + 4, "nvpair decoded size").Ok?
    ensures |PairBytes(p)| >= 16 && pos + |PairBytes(p)| <= |buf|
    ensures HoldsAt(buf[..pos + |PairBytes(p)|], pos + 8, PairBody(p))
  {
    hide HoldsAt, PairBody, I32At, I32Bytes, DecodedSize;
    SizesHold(buf, pos, |PairBytes(p)|, DecodedSize(p), PairBody(p));
  }

  lemma ConsIs<T>(x: T, xs: seq<T>, ys: seq<T>)
    requires ys != []
    ensures [x] + xs == ys <==> x == ys[0] && xs == ys[1..]
  {
    assert ys == [ys[0]] + ys[1..];
    assert ([x] + xs)[0] == x && ([x] + xs)[1..] == xs;
  }

  lemma PairsEmpty(buf: Bytes, pos: nat, depth: nat, count: nat)
    requires depth <= MAX_DEPTH
    requires HoldsAt(buf, pos, PairsBytes([]))
    ensures PairsAt(buf, pos, depth, count) == Ok(([], pos + 8))
  {
    hide HoldsAt;
    HoldsBoth(buf, pos, I32Bytes(0), I32Bytes(0));
    I32Holds(buf, pos, 0, "nvpair encoded size");
    I32Holds(buf, pos + 4, 0, "nvpair decoded size");
  }

  /** The reader's step over one written pair. */
  lemma PairsStep(buf: Bytes, pos: nat, p: Pair, depth: nat, count: nat)
    requires depth <= MAX_DEPTH
    requires |PairBytes(p)| < 0x8000_0000 && HoldsAt(buf, pos, PairBytes(p))
    ensures |PairBytes(p)| >= 16 && pos + |PairBytes(p)| <= |buf|
    ensures PairsAt(buf, pos, depth, count) ==
            if count >= MAX_PAIRS then Err(Malformed("more pairs than MAX_PAIRS", pos)) else
              var pair :- PairAt(buf[..pos + |PairBytes(p)|], pos + 8, depth);
              var (pairs, end) :- PairsAt(buf, pos + |PairBytes(p)|, depth, count + 1);
              Ok(([pair] + pairs, end))
    ensures HoldsAt(buf[..pos + |PairBytes(p)|], pos + 8, PairBody(p))
  {
    hide HoldsAt, PairBytes, PairBody, PairAt, I32At;
    PairHeader(buf, pos, p);
  }

  lemma {:induction false} PairsHold(buf: Bytes, pos: nat, ps: seq<Pair>, depth: nat, count: nat)
    requires depth <= MAX_DEPTH && count <= MAX_PAIRS
    requires forall p :: p in ps ==> |PairBytes(p)| < 0x8000_0000
    requires HoldsAt(buf, pos, PairsBytes(ps))
    ensures Exactly(PairsAt(buf, pos, depth, count), ps, pos + |PairsBytes(ps)|,
                    count + |ps| <= MAX_PAIRS && RepresentablePairs(ps, depth))
    decreases ps
  {
    hide HoldsAt, PairBytes, PairBody, PairAt, PairsAt, Representable;
    if ps == [] {
      PairsEmpty(buf, pos, depth, count);
    } else {
      var p, size := ps[0], |PairBytes(ps[0])|;
      HoldsBoth(buf, pos, PairBytes(p), PairsBytes(ps[1..]));
      PairsStep(buf, pos, p, depth, count);
      PairHolds(buf[..pos + size], pos + 8, p, depth);
      assert forall q :: q in ps <==> q == p || q in ps[1..];
      if count < MAX_PAIRS {
        PairsHold(buf, pos + size, ps[1..], depth, count + 1);
        var pair, rest := PairAt(buf[..pos + size], pos + 8, depth), PairsAt(buf, pos + size, depth, count + 1);
        if pair.Ok? && rest.Ok? {
          ConsIs(pair.value, rest.value.0, ps);
        }
      }
    }
  }

  lemma {:induction false} ListHolds(buf: Bytes, pos: nat, l: NvList, depth: nat)
    requires depth <= MAX_DEPTH + 1 && Sized(l)
    requires HoldsAt(buf, pos, ListBytes(l))
    ensures Exactly(ListAt(buf, pos, depth), l, pos + |ListBytes(l)|, RepresentableList(l, depth))
    decreases l
  {
    hide HoldsAt, PairsAt, PairsBytes, Representable;
    HoldsBoth(buf, pos, I32Bytes(l.version), U32Bytes(l.flags) + PairsBytes(l.pairs));
    HoldsBoth(buf, pos + 4, U32Bytes(l.flags), PairsBytes(l.pairs));
    I32Holds(buf, pos, l.version, "nvlist version");
    U32Holds(buf, pos + 4, l.flags, "nvlist flags");
    if depth <= MAX_DEPTH {
      PairsHold(buf, pos + 8, l.pairs, depth, 0);
    }
  }

  /** The reader's step over one list of several. */
  lemma ListsStep(buf: Bytes, pos: nat, ls: seq<NvList>, depth: nat, next: nat, one: bool, more: bool)
    requires depth <= MAX_DEPTH + 1 && ls != []
    requires Exactly(ListAt(buf, pos, depth), ls[0], next, one)
    requires Exactly(ListsAt(buf, next, |ls| - 1, depth), ls[1..], next + |ListsBytes(ls[1..])|, more)
    ensures Exactly(ListsAt(buf, pos, |ls|, depth), ls, next + |ListsBytes(ls[1..])|, one && more)
  {
    hide ListAt, ListsBytes;
    var l := ListAt(buf, pos, depth);
    if l.Ok? {
      var rest := ListsAt(buf, l.value.1, |ls| - 1, depth);
      if rest.Ok? {
        ConsIs(l.value.0, rest.value.0, ls);
      }
    }
  }

  lemma {:induction false} ListsHold(buf: Bytes, pos: nat, ls: seq<NvList>, depth: nat)
    requires depth <= MAX_DEPTH + 1 && |ListsBytes(ls)| < 0x8000_0000
    requires HoldsAt(buf, pos, ListsBytes(ls))
    ensures Exactly(ListsAt(buf, pos, |ls|, depth), ls, pos + |ListsBytes(ls)|,
                    forall l :: l in ls ==> RepresentableList(l, depth))
    decreases ls
  {
    hide HoldsAt, ListAt, ListBytes, Sized, RepresentableList;
    if ls != [] {
      hide ListsAt;
      HoldsBoth(buf, pos, ListBytes(ls[0]), ListsBytes(ls[1..]));
      SizedInside(ls[0]);
      ListHolds(buf, pos, ls[0], depth);
      var next := pos + |ListBytes(ls[0])|;
      ListsHold(buf, next, ls[1..], depth);
      ListsStep(buf, pos, ls, depth, next, RepresentableList(ls[0], depth), forall l :: l in ls[1..] ==> RepresentableList(l, depth));
      assert forall l :: l in ls <==> l == ls[0] || l in ls[1..];
    }
  }

  /** A packed list, whatever follows it, is read back exactly when every value in it is representable. */
  lemma RoundTrip(l: NvList, rest: Bytes)
    requires Sized(l)
    ensures PackedAt(Packed(l) + rest) == Ok(l) <==> RepresentableList(l, 0)
  {
    hide ListAt, ListBytes, RepresentableList, Sized;
    var buf := Packed(l) + rest;
    assert buf[4..4 + |ListBytes(l)|] == ListBytes(l);
    ListHolds(buf, 4, l, 0);
  }

  /** No packed list is the beginning of another's. */
  lemma PrefixFree(l: NvList, l': NvList)
    requires Sized(l) && Sized(l') && RepresentableList(l, 0) && RepresentableList(l', 0)
    requires Packed(l) <= Packed(l')
    ensures l == l'
  {
    var rest := Packed(l')[|Packed(l)|..];
    assert Packed(l) + rest == Packed(l') == Packed(l') + [];
    RoundTrip(l, rest);
    RoundTrip(l', []);
  }

  // ----- What the reader looks at

  lemma {:induction false} ManyEnds<T>(buf: Bytes, read: nat -> Parsed<T>, pos: nat, n: nat)
    requires pos <= |buf| && ManyAt(read, pos, n).Ok?
    requires forall p: nat :: read(p).Ok? ==> p <= read(p).value.1 <= |buf|
    ensures pos <= ManyAt(read, pos, n).value.1 <= |buf|
    decreases n
  {
    if n > 0 {
      ManyEnds(buf, read, read(pos).value.1, n - 1);
    }
  }

  /** A value ends inside the buffer it was read from, which is cut off where its pair ends. */
  lemma ValueEnds(buf: Bytes, pos: nat, code: I32, nelem: I32, depth: nat)
    requires depth <= MAX_DEPTH && pos <= |buf| && ValueAt(buf, pos, code, nelem, depth).Ok?
    ensures pos <= ValueAt(buf, pos, code, nelem, depth).value.1 <= |buf|
  {
    if 11 <= code <= 14 || 25 <= code <= 26 {
      ManyEnds(buf, Readers32(buf), pos + 4, nelem);
    } else if code == 24 {
      ManyEnds(buf, ReadersWord(buf), pos + 4, nelem);
    } else if code == 15 || code == 16 {
      ManyEnds(buf, Readers64(buf), pos + 4, nelem);
    } else if code == 17 {
      ManyEnds(buf, ReadersText(buf), pos, nelem);
    }
  }

  lemma SameBefore(buf: Bytes, other: Bytes, end: nat, pos: nat, n: nat)
    requires pos + n <= end <= |buf| && end <= |other| && buf[..end] == other[..end]
    ensures buf[pos..pos + n] == other[pos..pos + n]
  {
    assert buf[pos..pos + n] == buf[..end][pos..pos + n] && other[pos..pos + n] == other[..end][pos..pos + n];
  }

  lemma SameWord(buf: Bytes, other: Bytes, end: nat, pos: nat, what: string)
    requires pos + 4 <= end <= |buf| && end <= |other| && buf[..end] == other[..end]
    ensures I32At(buf, pos, what) == I32At(other, pos, what)
  {
    SameBefore(buf, other, end, pos, 4);
  }

  lemma {:induction false} PairsDelimited(buf: Bytes, other: Bytes, pos: nat, depth: nat, count: nat)
    requires depth <= MAX_DEPTH && PairsAt(buf, pos, depth, count).Ok?
    requires PairsAt(buf, pos, depth, count).value.1 <= |other|
    requires buf[..PairsAt(buf, pos, depth, count).value.1] == other[..PairsAt(buf, pos, depth, count).value.1]
    ensures PairsAt(other, pos, depth, count) == PairsAt(buf, pos, depth, count)
    decreases |buf| - pos
  {
    hide PairAt, I32At;
    var end := PairsAt(buf, pos, depth, count).value.1;
    SameWord(buf, other, end, pos, "nvpair encoded size");
    SameWord(buf, other, end, pos + 4, "nvpair decoded size");
    var encoded := I32At(buf, pos, "nvpair encoded size").value.0;
    if encoded != 0 {
      SameBefore(buf, other, end, 0, pos + encoded);
      PairsDelimited(buf, other, pos + encoded, depth, count + 1);
    }
  }

  /** Lists delimit themselves: a list that was read depends on no byte after its end. */
  lemma SelfDelimiting(buf: Bytes, other: Bytes, pos: nat, depth: nat)
    requires depth <= MAX_DEPTH + 1 && ListAt(buf, pos, depth).Ok?
    requires ListAt(buf, pos, depth).value.1 <= |other|
    requires buf[..ListAt(buf, pos, depth).value.1] == other[..ListAt(buf, pos, depth).value.1]
    ensures ListAt(other, pos, depth) == ListAt(buf, pos, depth)
  {
    var end := ListAt(buf, pos, depth).value.1;
    SameBefore(buf, other, end, pos, 4);
    SameBefore(buf, other, end, pos + 4, 4);
    hide PairsAt;
    PairsDelimited(buf, other, pos + 8, depth, 0);
  }
}
