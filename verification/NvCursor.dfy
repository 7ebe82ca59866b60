/** The reader as a cursor that advances and the writer as a byte vector that grows. */
module NvCursor {
  import opened Wrappers
  import opened Octets
  import opened NvLists

  /** The cursor gave what the bytes say and stands where it ends. */
  ghost predicate Advanced<T(!new)>(spec: Parsed<T>, r: Result<T, Error>, pos: nat) {
    match spec
    case Ok((x, end)) => r == Ok(x) && pos == end
    case Err(error) => r == Err(error)
  }

  class Cursor {
    const buf: Bytes
    var pos: nat

    constructor (buf: Bytes, pos: nat)
      ensures this.buf == buf && this.pos == pos
    {
      this.buf := buf;
      this.pos := pos;
    }

    method Need(n: nat, what: string) returns (r: Result<(), Error>)
      ensures r == if pos + n <= |buf| then Ok(()) else Err(Malformed(what, pos))
    {
      if pos + n <= |buf| {
        r := Ok(());
      } else {
        r := Err(Malformed(what, pos));
      }
    }

    method U32(what: string) returns (r: Result<U32, Error>)
      modifies this`pos
      ensures Advanced(U32At(buf, old(pos), what), r, pos)
    {
      var _ :- Need(4, what);
      BeBound(buf[pos..pos + 4]);
      Pow256Is();
      var n := FromBe(buf[pos..pos + 4]);
      pos := pos + 4;
      r := Ok(n);
    }

    method I32(what: string) returns (r: Result<I32, Error>)
      modifies this`pos
      ensures Advanced(I32At(buf, old(pos), what), r, pos)
    {
      var n :- U32(what);
      r := Ok(Signed(n, 0x1_0000_0000));
    }

    method U64(what: string) returns (r: Result<U64, Error>)
      modifies this`pos
      ensures Advanced(U64At(buf, old(pos), what), r, pos)
    {
      var _ :- Need(8, what);
      BeBound(buf[pos..pos + 8]);
      Pow256Is();
      var n := FromBe(buf[pos..pos + 8]);
      pos := pos + 8;
      r := Ok(n);
    }

    method Opaque(n: nat, what: string) returns (r: Result<Bytes, Error>)
      modifies this`pos
      ensures Advanced(OpaqueAt(buf, old(pos), n, what), r, pos)
    {
      var _ :- Need(Padded(n), what);
      var s := buf[pos..pos + n];
      pos := pos + Padded(n);
      r := Ok(s);
    }

    method String(what: string) returns (r: Result<Bytes, Error>)
      modifies this`pos
      ensures Advanced(StringAt(buf, old(pos), what), r, pos)
    {
      var n :- U32(what);
      r := Opaque(n, what);
    }

    method Count(nelem: int, elsize: nat, what: string) returns (r: Result<nat, Error>)
      modifies this`pos
      ensures Advanced(CountAt(buf, old(pos), nelem, elsize, what), r, pos)
    {
      var n :- U32(what);
      if nelem < 0 || n != nelem {
        return Err(Malformed(what, pos - 4));
      }
      var _ :- Need(n * elsize, what);
      r := Ok(n);
    }
  }

  // ----- The loops over array elements

  /** Elements read so far joined to those still to come, and where those end. */
  function Joined<T>(done: seq<T>, todo: Parsed<seq<T>>): Parsed<seq<T>> {
    var (xs, end) :- todo;
    Ok((done + xs, end))
  }

  lemma JoinedNone<T>(todo: Parsed<seq<T>>)
    ensures Joined([], todo) == todo
  {
    if todo.Ok? {
      assert [] + todo.value.0 == todo.value.0;
    }
  }

  lemma JoinedAll<T>(read: nat -> Parsed<T>, pos: nat, done: seq<T>)
    ensures Joined(done, ManyAt(read, pos, 0)) == Ok((done, pos))
  {
    assert done + [] == done;
  }

  /** One more element read. */
  lemma JoinedNext<T>(read: nat -> Parsed<T>, pos: nat, n: nat, done: seq<T>)
    requires n > 0
    ensures read(pos).Ok? ==>
      Joined(done, ManyAt(read, pos, n)) == Joined(done + [read(pos).value.0], ManyAt(read, read(pos).value.1, n - 1))
    ensures read(pos).Err? ==> Joined(done, ManyAt(read, pos, n)) == Err(read(pos).error)
  {
    if read(pos).Ok? {
      var x, rest := read(pos).value.0, ManyAt(read, read(pos).value.1, n - 1);
      if rest.Ok? {
        assert done + ([x] + rest.value.0) == done + [x] + rest.value.0;
      }
    }
  }

  lemma MapNext<T, U>(f: T -> U, xs: seq<T>, x: T)
    ensures Map(f, xs + [x]) == Map(f, xs) + [f(x)]
  {}

  function Mapped<T, U>(f: T -> U, r: Parsed<seq<T>>): Parsed<seq<U>> {
    var (xs, end) :- r;
    Ok((Map(f, xs), end))
  }

  method ParseInts(cur: Cursor, code: I32, n: nat) returns (r: Result<seq<I64>, Error>)
    modifies cur`pos
    ensures Advanced(Mapped(Narrower(code), ManyAt(Readers32(cur.buf), old(cur.pos), n)), r, cur.pos)
  {
    hide ManyAt, Map, Joined, NarrowElement;
    ghost var read := Readers32(cur.buf);
    ghost var all := ManyAt(read, cur.pos, n);
    var v: seq<I64> := [];
    ghost var raws: seq<I32> := [];
    JoinedNone(all);
    assert Map(Narrower(code), raws) == [];
    for i := 0 to n
      invariant v == Map(Narrower(code), raws)
      invariant Joined(raws, ManyAt(read, cur.pos, n - i)) == all
    {
      JoinedNext(read, cur.pos, n - i, raws);
      var raw :- cur.I32(VALUE);
      MapNext(Narrower(code), raws, raw);
      v, raws := v + [NarrowElement(code, raw)], raws + [raw];
    }
    JoinedAll(read, cur.pos, raws);
    r := Ok(v);
  }

  method ParseBools(cur: Cursor, n: nat) returns (r: Result<seq<bool>, Error>)
    modifies cur`pos
    ensures Advanced(Mapped(IsSet, ManyAt(ReadersWord(cur.buf), old(cur.pos), n)), r, cur.pos)
  {
    hide ManyAt, Map, Joined;
    ghost var read := ReadersWord(cur.buf);
    ghost var all := ManyAt(read, cur.pos, n);
    var v: seq<bool> := [];
    ghost var raws: seq<U32> := [];
    JoinedNone(all);
    assert Map(IsSet, raws) == [];
    for i := 0 to n
      invariant v == Map(IsSet, raws)
      invariant Joined(raws, ManyAt(read, cur.pos, n - i)) == all
    {
      JoinedNext(read, cur.pos, n - i, raws);
      var raw :- cur.U32(VALUE);
      MapNext(IsSet, raws, raw);
      v, raws := v + [raw != 0], raws + [raw];
    }
    JoinedAll(read, cur.pos, raws);
    r := Ok(v);
  }

  method ParseWords(cur: Cursor, n: nat) returns (r: Result<seq<U64>, Error>)
    modifies cur`pos
    ensures Advanced(ManyAt(Readers64(cur.buf), old(cur.pos), n), r, cur.pos)
  {
    hide ManyAt, Map, Joined;
    ghost var read := Readers64(cur.buf);
    ghost var all := ManyAt(read, cur.pos, n);
    var v: seq<U64> := [];
    JoinedNone(all);
    for i := 0 to n
      invariant Joined(v, ManyAt(read, cur.pos, n - i)) == all
    {
      JoinedNext(read, cur.pos, n - i, v);
      var x :- cur.U64(VALUE);
      v := v + [x];
    }
    JoinedAll(read, cur.pos, v);
    r := Ok(v);
  }

  method ParseStrings(cur: Cursor, n: nat) returns (r: Result<seq<Bytes>, Error>)
    modifies cur`pos
    ensures Advanced(ManyAt(ReadersText(cur.buf), old(cur.pos), n), r, cur.pos)
  {
    hide ManyAt, Map, Joined;
    ghost var read := ReadersText(cur.buf);
    ghost var all := ManyAt(read, cur.pos, n);
    var v: seq<Bytes> := [];
    JoinedNone(all);
    for i := 0 to n
      invariant Joined(v, ManyAt(read, cur.pos, n - i)) == all
    {
      JoinedNext(read, cur.pos, n - i, v);
      var x :- cur.String(VALUE);
      v := v + [x];
    }
    JoinedAll(read, cur.pos, v);
    r := Ok(v);
  }

  // ----- Lists, pairs and values

  /** One turn of the loop over pairs. */
  lemma JoinedPair(buf: Bytes, pos: nat, depth: nat, done: seq<Pair>)
    requires depth <= MAX_DEPTH
    ensures Joined(done, PairsAt(buf, pos, depth, |done|)) ==
            var (encoded, p1) :- I32At(buf, pos, "nvpair encoded size");
            var (_, p2) :- I32At(buf, p1, "nvpair decoded size");
            if encoded == 0 then Ok((done, p2))
            else if |done| >= MAX_PAIRS then Err(Malformed("more pairs than MAX_PAIRS", pos))
            else if encoded < 0 then Err(Malformed("negative nvpair size", pos))
            else if pos + encoded > |buf| || encoded < 16 then Err(Malformed("nvpair size beyond buffer", pos))
            else
              var pair :- PairAt(buf[..pos + encoded], p2, depth);
              Joined(done + [pair], PairsAt(buf, pos + encoded, depth, |done| + 1))
  {
    hide PairAt, I32At;
    assert done + [] == done;
    var r := PairsAt(buf, pos, depth, |done|);
    if r.Ok? && r.value.0 != [] {
      assert done + r.value.0 == done + [r.value.0[0]] + r.value.0[1..];
    }
  }

  method ParseList(cur: Cursor, depth: nat) returns (r: Result<NvList, Error>)
    requires depth <= MAX_DEPTH + 1
    modifies cur`pos
    ensures Advanced(ListAt(cur.buf, old(cur.pos), depth), r, cur.pos)
    decreases MAX_DEPTH + 1 - depth, 2
  {
    hide PairsAt, PairAt, I32At, U32At, Joined;
    if depth > MAX_DEPTH {
      return Err(Malformed("nesting deeper than MAX_DEPTH", cur.pos));
    }
    var version :- cur.I32("nvlist version");
    var flags :- cur.U32("nvlist flags");
    var pairs: seq<Pair> := [];
    ghost var all := PairsAt(cur.buf, cur.pos, depth, 0);
    JoinedNone(all);
    while true
      invariant Joined(pairs, PairsAt(cur.buf, cur.pos, depth, |pairs|)) == all
      decreases |cur.buf| - cur.pos
    {
      JoinedPair(cur.buf, cur.pos, depth, pairs);
      var pairStart := cur.pos;
      var encoded :- cur.I32("nvpair encoded size");
      var _ :- cur.I32("nvpair decoded size");
      if encoded == 0 {
        break;
      }
      if |pairs| >= MAX_PAIRS {
        return Err(Malformed("more pairs than MAX_PAIRS", pairStart));
      }
      if encoded < 0 {
        return Err(Malformed("negative nvpair size", pairStart));
      }
      var pairEnd := pairStart + encoded;
      if pairEnd > |cur.buf| || encoded < 16 {
        return Err(Malformed("nvpair size beyond buffer", pairStart));
      }
      var inner := new Cursor(cur.buf[..pairEnd], cur.pos);
      var pair :- ParsePair(inner, depth);
      pairs := pairs + [pair];
      cur.pos := pairEnd;
    }
    r := Ok(NvList(version, flags, pairs));
  }

  method ParsePair(cur: Cursor, depth: nat) returns (r: Result<Pair, Error>)
    requires depth <= MAX_DEPTH
    modifies cur`pos
    ensures r == PairAt(cur.buf, old(cur.pos), depth)
    decreases MAX_DEPTH + 1 - depth, 1
  {
    hide StringAt, I32At, ValueAt;
    var name :- cur.String("nvpair name");
    var code :- cur.I32("nvpair type");
    var nelem :- cur.I32("nvpair nelem");
    var value :- ParseValue(cur, code, nelem, depth);
    r := Ok(Pair(name, value));
  }

  method ParseValue(cur: Cursor, code: I32, nelem: I32, depth: nat) returns (r: Result<Value, Error>)
    requires depth <= MAX_DEPTH
    modifies cur`pos
    ensures Advanced(ValueAt(cur.buf, old(cur.pos), code, nelem, depth), r, cur.pos)
    decreases MAX_DEPTH + 1 - depth, 0
  {
    hide StringAt, I32At, U32At, U64At, OpaqueAt, CountAt, ManyAt, Map, ListAt, ListsAt, NarrowInt, ToI64;
    if code == 1 {
      r := Ok(Boolean);
    } else if code == 21 {
      var w :- cur.U32(VALUE);
      r := Ok(Bool(w != 0));
    } else if 2 <= code <= 6 || 22 <= code <= 23 {
      var raw :- cur.I32(VALUE);
      r := Ok(Int(NarrowInt(code, raw)));
    } else if code == 7 || code == 18 {
      var u :- cur.U64(VALUE);
      r := Ok(Int64(ToI64(u)));
    } else if code == 8 {
      var u :- cur.U64(VALUE);
      r := Ok(Uint64(u));
    } else if code == 27 {
      var u :- cur.U64(VALUE);
      r := Ok(Double(u));
    } else if code == 9 {
      var s :- cur.String(VALUE);
      r := Ok(String(s));
    } else if code == 10 {
      if nelem < 0 {
        return Err(Malformed(VALUE, cur.pos));
      }
      var b :- cur.Opaque(nelem, VALUE);
      r := Ok(ByteArray(b));
    } else if 11 <= code <= 14 || 25 <= code <= 26 {
      var n :- cur.Count(nelem, 4, VALUE);
      var v :- ParseInts(cur, code, n);
      r := Ok(IntArray(v));
    } else if code == 24 {
      var n :- cur.Count(nelem, 4, VALUE);
      var v :- ParseBools(cur, n);
      r := Ok(BoolArray(v));
    } else if code == 15 || code == 16 {
      var n :- cur.Count(nelem, 8, VALUE);
      var v :- ParseWords(cur, n);
      r := Ok(if code == 16 then Uint64Array(v) else Int64Array(Map(ToI64, v)));
    } else if code == 17 {
      if nelem < 0 {
        return Err(Malformed(VALUE, cur.pos));
      }
      var v :- ParseStrings(cur, nelem);
      r := Ok(StringArray(v));
    } else if code == 19 {
      var l :- ParseList(cur, depth + 1);
      r := Ok(List(l));
    } else if code == 20 {
      if nelem < 0 {
        return Err(Malformed(VALUE, cur.pos));
      }
      var v :- ParseLists(cur, nelem, depth + 1);
      r := Ok(ListArray(v));
    } else {
      r := Ok(Unknown(code, nelem));
    }
  }

  lemma JoinedList(buf: Bytes, pos: nat, n: nat, depth: nat, done: seq<NvList>)
    requires depth <= MAX_DEPTH + 1
    ensures Joined(done, ListsAt(buf, pos, n, depth)) ==
            if n == 0 then Ok((done, pos)) else
              var (l, next) :- ListAt(buf, pos, depth);
              Joined(done + [l], ListsAt(buf, next, n - 1, depth))
  {
    hide ListAt;
    assert done + [] == done;
    var r := ListsAt(buf, pos, n, depth);
    if r.Ok? && r.value.0 != [] {
      assert done + r.value.0 == done + [r.value.0[0]] + r.value.0[1..];
    }
  }

  method ParseLists(cur: Cursor, n: nat, depth: nat) returns (r: Result<seq<NvList>, Error>)
    requires depth <= MAX_DEPTH + 1
    modifies cur`pos
    ensures Advanced(ListsAt(cur.buf, old(cur.pos), n, depth), r, cur.pos)
    decreases MAX_DEPTH + 1 - depth, 3
  {
    hide ListsAt, ListAt, Joined;
    ghost var all := ListsAt(cur.buf, cur.pos, n, depth);
    var v: seq<NvList> := [];
    JoinedNone(all);
    for i := 0 to n
      invariant Joined(v, ListsAt(cur.buf, cur.pos, n - i, depth)) == all
    {
      JoinedList(cur.buf, cur.pos, n - i, depth, v);
      var l :- ParseList(cur, depth);
      v := v + [l];
    }
    JoinedList(cur.buf, cur.pos, 0, depth, v);
    r := Ok(v);
  }

  method ParsePacked(buf: Bytes) returns (r: Result<NvList, Error>)
    ensures r == PackedAt(buf)
  {
    hide ListAt;
    if |buf| < 4 {
      return Err(Truncated(4, |buf|));
    }
    if buf[0] != 1 {
      return Err(Malformed("XDR encoding byte", 0));
    }
    var cur := new Cursor(buf, 4);
    r := ParseList(cur, 0);
  }
}
