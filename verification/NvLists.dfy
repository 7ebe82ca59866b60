/** Name/value lists and their XDR encoding, as bytes and as a reading of bytes. */
module NvLists {
  import opened Wrappers
  import opened Octets

  const MAX_DEPTH := 32
  const MAX_PAIRS := 0x1_0000

  datatype Value =
    | Boolean
    | Bool(flag: bool)
    | Int(number: I64)
    | Uint64(uint: U64)
    | Int64(int64: I64)
    | Double(bits: U64)
    | String(text: Bytes)
    | ByteArray(bytes: Bytes)
    | IntArray(ints: seq<I64>)
    | Uint64Array(uints: seq<U64>)
    | Int64Array(int64s: seq<I64>)
    | BoolArray(flags: seq<bool>)
    | StringArray(texts: seq<Bytes>)
    | List(list: NvList)
    | ListArray(lists: seq<NvList>)
    | Unknown(code: I32, nelem: I32)

  datatype Pair = Pair(name: Bytes, value: Value)

  datatype NvList = NvList(version: I32, flags: U32, pairs: seq<Pair>)

  // ----- Writing

  function U32Bytes(n: nat): (b: Bytes)
    ensures |b| == 4
  {
    ToBe(n, 4)
  }

  /** The low 32 bits of i. */
  function I32Bytes(i: int): (b: Bytes)
    ensures |b| == 4
  {
    ToBe(i % 0x1_0000_0000, 4)
  }

  function IntBytes(i: I64): (b: Bytes)
    ensures |b| == 4
  {
    I32Bytes(i)
  }

  function I64Bytes(i: I64): (b: Bytes)
    ensures |b| == 8
  {
    ToBe(i % 0x1_0000_0000_0000_0000, 8)
  }

  function Padded(n: nat): (p: nat)
    ensures n <= p < n + 4 && p % 4 == 0
  {
    (n + 3) / 4 * 4
  }

  function OpaqueBytes(s: Bytes): (b: Bytes)
    ensures |b| == Padded(|s|)
  {
    s + Zeros(Padded(|s|) - |s|)
  }

  function StringBytes(s: Bytes): (b: Bytes)
    ensures |b| % 4 == 0 && |b| >= 4 + |s|
  {
    U32Bytes(|s|) + OpaqueBytes(s)
  }

  function Each<T>(xs: seq<T>, bytes: T -> Bytes): Bytes {
    if xs == [] then [] else bytes(xs[0]) + Each(xs[1..], bytes)
  }

  function TypeCode(v: Value): I32 {
    match v
    case Boolean => 1
    case Bool(_) => 21
    case Int(_) => 5
    case Uint64(_) => 8
    case Int64(_) => 7
    case Double(_) => 27
    case String(_) => 9
    case ByteArray(_) => 10
    case IntArray(_) => 13
    case Uint64Array(_) => 16
    case Int64Array(_) => 15
    case BoolArray(_) => 24
    case StringArray(_) => 17
    case List(_) => 19
    case ListArray(_) => 20
    case Unknown(code, _) => code
  }

  function Nelem(v: Value): int {
    match v
    case Boolean => 0
    case ByteArray(b) => |b|
    case IntArray(a) => |a|
    case Uint64Array(a) => |a|
    case Int64Array(a) => |a|
    case BoolArray(a) => |a|
    case StringArray(a) => |a|
    case ListArray(a) => |a|
    case Unknown(_, nelem) => nelem
    case _ => 1
  }

  function Word(b: bool): nat { if b then 1 else 0 }

  function WordBytes(b: bool): (w: Bytes)
    ensures |w| == 4
  {
    U32Bytes(Word(b))
  }

  function U64Bytes(u: U64): (b: Bytes)
    ensures |b| == 8
  {
    ToBe(u, 8)
  }

  function Payload(v: Value): Bytes {
    match v
    case Boolean => []
    case Bool(b) => WordBytes(b)
    case Int(i) => IntBytes(i)
    case Uint64(u) => U64Bytes(u)
    case Int64(i) => I64Bytes(i)
    case Double(d) => U64Bytes(d)
    case String(s) => StringBytes(s)
    case ByteArray(b) => OpaqueBytes(b)
    case IntArray(a) => U32Bytes(|a|) + Each(a, IntBytes)
    case Uint64Array(a) => U32Bytes(|a|) + Each(a, U64Bytes)
    case Int64Array(a) => U32Bytes(|a|) + Each(a, I64Bytes)
    case BoolArray(a) => U32Bytes(|a|) + Each(a, WordBytes)
    case StringArray(a) => Each(a, StringBytes)
    case List(l) => ListBytes(l)
    case ListArray(a) => ListsBytes(a)
    case Unknown(_, _) => []
  }

  function Align8(n: nat): nat { (n + 7) / 8 * 8 }

  function SumTexts(a: seq<Bytes>): nat {
    if a == [] then 0 else |a[0]| + 1 + SumTexts(a[1..])
  }

  /** The size the pair has in memory: written, and skipped by the reader. */
  function DecodedSize(p: Pair): nat {
    var size := match p.value
      case Boolean => 0
      case Unknown(_, _) => 0
      case Bool(_) => 4
      case Int(_) => 4
      case Uint64(_) => 8
      case Int64(_) => 8
      case Double(_) => 8
      case String(s) => |s| + 1
      case ByteArray(b) => |b|
      case IntArray(a) => |a| * 4
      case Uint64Array(a) => |a| * 8
      case Int64Array(a) => |a| * 8
      case BoolArray(a) => |a| * 4
      case StringArray(a) => |a| * 8 + SumTexts(a)
      case List(_) => 24
      case ListArray(a) => |a| * 8 + |a| * 24;
    Align8(16 + |p.name| + 1) + Align8(size)
  }

  function PairBody(p: Pair): (b: Bytes)
    ensures |b| >= 12
    decreases p, 0
  {
    StringBytes(p.name) + (I32Bytes(TypeCode(p.value)) + (I32Bytes(Nelem(p.value)) + Payload(p.value)))
  }

  function PairBytes(p: Pair): (b: Bytes)
    ensures |b| == 8 + |PairBody(p)|
    decreases p, 1
  {
    I32Bytes(|PairBody(p)| + 8) + (I32Bytes(DecodedSize(p)) + PairBody(p))
  }

  function PairsBytes(ps: seq<Pair>): Bytes {
    if ps == [] then I32Bytes(0) + I32Bytes(0) else PairBytes(ps[0]) + PairsBytes(ps[1..])
  }

  function ListBytes(l: NvList): Bytes {
    I32Bytes(l.version) + (U32Bytes(l.flags) + PairsBytes(l.pairs))
  }

  function ListsBytes(ls: seq<NvList>): Bytes {
    if ls == [] then [] else ListBytes(ls[0]) + ListsBytes(ls[1..])
  }

  function Packed(l: NvList): Bytes {
    [1, 1, 0, 0] + ListBytes(l)
  }

  // ----- Reading

  datatype Error = Truncated(needed: nat, got: nat) | Malformed(what: string, at: nat)

  /** What the bytes at a position say, and where they end. */
  type Parsed<+T> = Result<(T, nat), Error>

  const VALUE := "nvpair value"

  function U32At(buf: Bytes, pos: nat, what: string): (r: Parsed<U32>)
    ensures r.Ok? <==> pos + 4 <= |buf|
    ensures r.Ok? ==> r.value.1 == pos + 4
  {
    if pos + 4 <= |buf| then
      BeBound(buf[pos..pos + 4]);
      Pow256Is();
      Ok((FromBe(buf[pos..pos + 4]), pos + 4))
    else Err(Malformed(what, pos))
  }

  function I32At(buf: Bytes, pos: nat, what: string): (r: Parsed<I32>)
    ensures r.Ok? <==> pos + 4 <= |buf|
    ensures r.Ok? ==> r.value.1 == pos + 4
  {
    var (n, end) :- U32At(buf, pos, what);
    Ok((Signed(n, 0x1_0000_0000), end))
  }

  function U64At(buf: Bytes, pos: nat, what: string): (r: Parsed<U64>)
    ensures r.Ok? <==> pos + 8 <= |buf|
    ensures r.Ok? ==> r.value.1 == pos + 8
  {
    if pos + 8 <= |buf| then
      BeBound(buf[pos..pos + 8]);
      Pow256Is();
      Ok((FromBe(buf[pos..pos + 8]), pos + 8))
    else Err(Malformed(what, pos))
  }

  function OpaqueAt(buf: Bytes, pos: nat, n: nat, what: string): Parsed<Bytes> {
    if pos + Padded(n) <= |buf| then Ok((buf[pos..pos + n], pos + Padded(n))) else Err(Malformed(what, pos))
  }

  function StringAt(buf: Bytes, pos: nat, what: string): (r: Parsed<Bytes>)
    ensures r.Ok? ==> pos + 4 <= r.value.1 <= |buf|
  {
    var (n, start) :- U32At(buf, pos, what);
    OpaqueAt(buf, start, n, what)
  }

  /** The count of an array, which must be the declared one and fit the bytes that remain. */
  function CountAt(buf: Bytes, pos: nat, nelem: int, elsize: nat, what: string): (r: Parsed<nat>)
    ensures r.Ok? ==> r.value.0 == nelem && r.value.1 == pos + 4 && pos + 4 + nelem * elsize <= |buf|
  {
    var (n, start) :- U32At(buf, pos, what);
    if nelem < 0 || n != nelem then Err(Malformed(what, start - 4))
    else if start + n * elsize > |buf| then Err(Malformed(what, start))
    else Ok((n, start))
  }

  function ManyAt<T>(read: nat -> Parsed<T>, pos: nat, n: nat): Parsed<seq<T>>
    decreases n
  {
    if n == 0 then Ok(([], pos)) else
      var (x, next) :- read(pos);
      var (xs, end) :- ManyAt(read, next, n - 1);
      Ok(([x] + xs, end))
  }

  function Readers32(buf: Bytes): nat -> Parsed<I32> {
    (pos: nat) => I32At(buf, pos, VALUE)
  }

  function ReadersWord(buf: Bytes): nat -> Parsed<U32> {
    (pos: nat) => U32At(buf, pos, VALUE)
  }

  function Readers64(buf: Bytes): nat -> Parsed<U64> {
    (pos: nat) => U64At(buf, pos, VALUE)
  }

  function ReadersText(buf: Bytes): nat -> Parsed<Bytes> {
    (pos: nat) => StringAt(buf, pos, VALUE)
  }

  /** A 32-bit integer cut to the width its type code names. */
  function NarrowInt(code: int, raw: I32): I64 {
    if code == 2 || code == 23 then raw % 0x100
    else if code == 22 then Signed(raw, 0x100)
    else if code == 3 then Signed(raw, 0x1_0000)
    else if code == 4 then raw % 0x1_0000
    else if code == 6 then raw % 0x1_0000_0000
    else raw
  }

  function NarrowElement(code: int, raw: I32): I64 {
    if code == 11 then Signed(raw, 0x1_0000)
    else if code == 12 then raw % 0x1_0000
    else if code == 14 then raw % 0x1_0000_0000
    else if code == 25 then Signed(raw, 0x100)
    else if code == 26 then raw % 0x100
    else raw
  }

  function Narrower(code: int): I32 -> I64 {
    (raw: I32) => NarrowElement(code, raw)
  }

  predicate IsSet(w: U32) { w != 0 }

  function ToI64(u: U64): I64 { Signed(u, 0x1_0000_0000_0000_0000) }

  function ListAt(buf: Bytes, pos: nat, depth: nat): (r: Parsed<NvList>)
    requires depth <= MAX_DEPTH + 1
    ensures r.Ok? ==> pos + 16 <= r.value.1 <= |buf|
    decreases MAX_DEPTH + 1 - depth, 4, 0
  {
    if depth > MAX_DEPTH then Err(Malformed("nesting deeper than MAX_DEPTH", pos)) else
      var (version, p1) :- I32At(buf, pos, "nvlist version");
      var (flags, p2) :- U32At(buf, p1, "nvlist flags");
      var (pairs, end) :- PairsAt(buf, p2, depth, 0);
      Ok((NvList(version, flags, pairs), end))
  }

  /** The pairs from pos on, when `count` were read before. */
  function PairsAt(buf: Bytes, pos: nat, depth: nat, count: nat): (r: Parsed<seq<Pair>>)
    requires depth <= MAX_DEPTH
    ensures r.Ok? ==> pos + 8 <= r.value.1 <= |buf|
    decreases MAX_DEPTH + 1 - depth, 3, |buf| - pos
  {
    var (encoded, p1) :- I32At(buf, pos, "nvpair encoded size");
    var (_, p2) :- I32At(buf, p1, "nvpair decoded size");
    if encoded == 0 then Ok(([], p2))
    else if count >= MAX_PAIRS then Err(Malformed("more pairs than MAX_PAIRS", pos))
    else if encoded < 0 then Err(Malformed("negative nvpair size", pos))
    else if pos + encoded > |buf| || encoded < 16 then Err(Malformed("nvpair size beyond buffer", pos))
    else
      var pair :- PairAt(buf[..pos + encoded], p2, depth);
      var (pairs, end) :- PairsAt(buf, pos + encoded, depth, count + 1);
      Ok(([pair] + pairs, end))
  }

  /** One pair, in a buffer cut off where the pair ends. */
  function PairAt(buf: Bytes, pos: nat, depth: nat): Result<Pair, Error>
    requires depth <= MAX_DEPTH
    decreases MAX_DEPTH + 1 - depth, 2, 0
  {
    var (name, p1) :- StringAt(buf, pos, "nvpair name");
    var (code, p2) :- I32At(buf, p1, "nvpair type");
    var (nelem, p3) :- I32At(buf, p2, "nvpair nelem");
    var (value, _) :- ValueAt(buf, p3, code, nelem, depth);
    Ok(Pair(name, value))
  }

  function ValueAt(buf: Bytes, pos: nat, code: I32, nelem: I32, depth: nat): Parsed<Value>
    requires depth <= MAX_DEPTH
    decreases MAX_DEPTH + 1 - depth, 1, 0
  {
    if code == 1 then Ok((Boolean, pos))
    else if code == 21 then
      var (w, end) :- U32At(buf, pos, VALUE);
      Ok((Bool(w != 0), end))
    else if 2 <= code <= 6 || 22 <= code <= 23 then
      var (raw, end) :- I32At(buf, pos, VALUE);
      Ok((Int(NarrowInt(code, raw)), end))
    else if code == 7 || code == 18 then
      var (u, end) :- U64At(buf, pos, VALUE);
      Ok((Int64(ToI64(u)), end))
    else if code == 8 then
      var (u, end) :- U64At(buf, pos, VALUE);
      Ok((Uint64(u), end))
    else if code == 27 then
      var (u, end) :- U64At(buf, pos, VALUE);
      Ok((Double(u), end))
    else if code == 9 then
      var (s, end) :- StringAt(buf, pos, VALUE);
      Ok((String(s), end))
    else if code == 10 then
      if nelem < 0 then Err(Malformed(VALUE, pos)) else
        var (b, end) :- OpaqueAt(buf, pos, nelem, VALUE);
        Ok((ByteArray(b), end))
    else if 11 <= code <= 14 || 25 <= code <= 26 then
      var (n, start) :- CountAt(buf, pos, nelem, 4, VALUE);
      var (raws, end) :- ManyAt(Readers32(buf), start, n);
      Ok((IntArray(Map(Narrower(code), raws)), end))
    else if code == 24 then
      var (n, start) :- CountAt(buf, pos, nelem, 4, VALUE);
      var (words, end) :- ManyAt(ReadersWord(buf), start, n);
      Ok((BoolArray(Map(IsSet, words)), end))
    else if code == 15 || code == 16 then
      var (n, start) :- CountAt(buf, pos, nelem, 8, VALUE);
      var (us, end) :- ManyAt(Readers64(buf), start, n);
      Ok((if code == 16 then Uint64Array(us) else Int64Array(Map(ToI64, us)), end))
    else if code == 17 then
      if nelem < 0 then Err(Malformed(VALUE, pos)) else
        var (texts, end) :- ManyAt(ReadersText(buf), pos, nelem);
        Ok((StringArray(texts), end))
    else if code == 19 then
      var (l, end) :- ListAt(buf, pos, depth + 1);
      Ok((List(l), end))
    else if code == 20 then
      if nelem < 0 then Err(Malformed(VALUE, pos)) else
        var (ls, end) :- ListsAt(buf, pos, nelem, depth + 1);
        Ok((ListArray(ls), end))
    else Ok((Unknown(code, nelem), pos))
  }

  function ListsAt(buf: Bytes, pos: nat, n: nat, depth: nat): (r: Parsed<seq<NvList>>)
    requires depth <= MAX_DEPTH + 1
    ensures r.Ok? && pos <= |buf| ==> pos <= r.value.1 <= |buf|
    decreases MAX_DEPTH + 1 - depth, 5, n
  {
    if n == 0 then Ok(([], pos)) else
      var (l, next) :- ListAt(buf, pos, depth);
      var (ls, end) :- ListsAt(buf, next, n - 1, depth);
      Ok(([l] + ls, end))
  }

  function PackedAt(buf: Bytes): Result<NvList, Error> {
    if |buf| < 4 then Err(Truncated(4, |buf|))
    else if buf[0] != 1 then Err(Malformed("XDR encoding byte", 0))
    else
      var (l, _) :- ListAt(buf, 4, 0);
      Ok(l)
  }
}
