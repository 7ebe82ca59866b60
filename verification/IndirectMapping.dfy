/** The address translation a removed top-level vdev leaves behind. */
module IndirectMapping {
  import opened Octets
  import opened Wrappers

  /** Bytes [src, src + size) of the removed vdev now lie from dstOffset on in dstVdev. */
  datatype Entry = Entry(src: nat, size: nat, dstVdev: nat, dstOffset: nat) {
    predicate Fits() {
      src <= U64_MAX && size <= U64_MAX && dstOffset <= U64_MAX
    }

    /** Where the source range ends, as far as 64 bits can say: 2^64 becomes 2^64 - 1. */
    function End(): nat {
      if src + size > U64_MAX then U64_MAX else src + size
    }
  }

  datatype Segment = Segment(vdev: nat, offset: nat, size: nat)

  datatype Unmapped = Unmapped(offset: nat, size: nat)

  // ----- The mapping, sorted by source

  predicate Sorted(es: seq<Entry>) {
    forall i, j :: 0 <= i < j < |es| ==> es[i].src <= es[j].src
  }

  predicate AllFit(es: seq<Entry>) {
    forall i :: 0 <= i < |es| ==> es[i].Fits()
  }

  /** No two source ranges overlap, and neither side of an entry runs past the address space, though it may reach its end. */
  predicate Disjoint(es: seq<Entry>) {
    && (forall i, j :: 0 <= i < j < |es| ==> es[i].src + es[i].size <= es[j].src)
    && (forall i :: 0 <= i < |es| ==> es[i].src + es[i].size <= U64_MAX + 1 && es[i].dstOffset + es[i].size <= U64_MAX + 1)
  }

  function Insert(e: Entry, es: seq<Entry>): (r: seq<Entry>)
    ensures multiset(r) == multiset{e} + multiset(es)
  {
    if |es| == 0 then [e]
    else
      assert es == [es[0]] + es[1..];
      if e.src <= es[0].src then [e] + es else [es[0]] + Insert(e, es[1..])
  }

  /** The stable sort by source offset. */
  function SortBySource(es: seq<Entry>): (r: seq<Entry>)
    ensures multiset(r) == multiset(es)
  {
    if |es| == 0 then [] else assert es == [es[0]] + es[1..]; Insert(es[0], SortBySource(es[1..]))
  }

  predicate AllFrom(es: seq<Entry>, low: nat) {
    forall i :: 0 <= i < |es| ==> low <= es[i].src
  }

  lemma {:induction false} InsertSorted(e: Entry, es: seq<Entry>, low: nat)
    requires Sorted(es) && low <= e.src && AllFrom(es, low)
    ensures Sorted(Insert(e, es)) && AllFrom(Insert(e, es), low)
  {
    if |es| > 0 && e.src > es[0].src {
      assert AllFrom(es[1..], es[0].src);
      InsertSorted(e, es[1..], es[0].src);
      hide Insert;
      PrependSorted(es[0], Insert(e, es[1..]));
    }
  }

  lemma PrependSorted(e: Entry, es: seq<Entry>)
    requires Sorted(es) && AllFrom(es, e.src)
    ensures Sorted([e] + es)
  {}

  /** The mapping is searched in source order whatever order it arrived in. */
  lemma {:induction false} SortSorts(es: seq<Entry>)
    ensures Sorted(SortBySource(es))
  {
    if |es| > 0 {
      SortSorts(es[1..]);
      hide Insert;
      InsertSorted(es[0], SortBySource(es[1..]), 0);
    }
  }

  /** The entries that start at src, in order. */
  function StartingAt(es: seq<Entry>, src: nat): seq<Entry> {
    if |es| == 0 then [] else (if es[0].src == src then [es[0]] else []) + StartingAt(es[1..], src)
  }

  lemma StartingAtFirst(e: Entry, es: seq<Entry>, src: nat)
    ensures StartingAt([e] + es, src) == (if e.src == src then [e] else []) + StartingAt(es, src)
  {
    assert ([e] + es)[1..] == es;
  }

  lemma {:induction false} InsertIsStable(e: Entry, es: seq<Entry>, src: nat)
    ensures StartingAt(Insert(e, es), src) == StartingAt([e] + es, src)
  {
    hide StartingAt;
    if |es| > 0 {
      assert es == [es[0]] + es[1..];
      if e.src > es[0].src {
        InsertIsStable(e, es[1..], src);
        StartingAtFirst(es[0], Insert(e, es[1..]), src);
        StartingAtFirst(es[0], es[1..], src);
        StartingAtFirst(e, es[1..], src);
        StartingAtFirst(e, es, src);
      }
    } else {
      assert [e] + es == [e];
    }
  }

  /** Entries that start at the same address keep their order. */
  lemma {:induction false} SortIsStable(es: seq<Entry>, src: nat)
    ensures StartingAt(SortBySource(es), src) == StartingAt(es, src)
  {
    if |es| > 0 {
      SortIsStable(es[1..], src);
      InsertIsStable(es[0], SortBySource(es[1..]), src);
      assert ([es[0]] + SortBySource(es[1..]))[1..] == SortBySource(es[1..]);
    }
  }

  // ----- Translation of one byte

  predicate Contains(e: Entry, x: nat) {
    e.src <= x < e.src + e.size
  }

  ghost predicate Mapped(es: seq<Entry>, x: nat) {
    exists i :: 0 <= i < |es| && Contains(es[i], x)
  }

  /** Byte x goes to (vdev, address): some entry covers it and sends it there. */
  ghost predicate SentTo(es: seq<Entry>, x: nat, vdev: nat, address: int) {
    exists i :: 0 <= i < |es| && Contains(es[i], x) && vdev == es[i].dstVdev && address == es[i].dstOffset + (x - es[i].src)
  }

  /** There is only one place a byte can be sent. */
  lemma SentToUnique(es: seq<Entry>, x: nat, vdev: nat, address: int, vdev': nat, address': int)
    requires Disjoint(es) && SentTo(es, x, vdev, address) && SentTo(es, x, vdev', address')
    ensures vdev == vdev' && address == address'
  {
    var i :| 0 <= i < |es| && Contains(es[i], x) && vdev == es[i].dstVdev && address == es[i].dstOffset + (x - es[i].src);
    var j :| 0 <= j < |es| && Contains(es[j], x) && vdev' == es[j].dstVdev && address' == es[j].dstOffset + (x - es[j].src);
    assert i == j;
  }

  // ----- What a list of segments says

  function TotalSize(segs: seq<Segment>): nat {
    if |segs| == 0 then 0 else segs[0].size + TotalSize(segs[1..])
  }

  /** Where a segment that starts at `start` sends byte x. */
  function Address(seg: Segment, start: nat, x: nat): int {
    seg.offset + x - start
  }

  ghost predicate Sends(es: seq<Entry>, start: nat, seg: Segment) {
    seg.size > 0 && forall x: nat {:trigger Address(seg, start, x)} :: start <= x < start + seg.size ==> SentTo(es, x, seg.vdev, Address(seg, start, x))
  }

  /** Segment by segment from offset: nonempty pieces that send each byte where its entry does. */
  ghost predicate Translates(es: seq<Entry>, offset: nat, segs: seq<Segment>)
    decreases |segs|
  {
    |segs| > 0 ==> Sends(es, offset, segs[0]) && Translates(es, offset + segs[0].size, segs[1..])
  }

  // ----- Which entry answers, overlaps or not

  /** How many entries start at or before x, entries being sorted. */
  function StartedBy(es: seq<Entry>, x: nat): (n: nat)
    ensures n <= |es| && (n > 0 ==> es[n - 1].src <= x)
  {
    if |es| == 0 || es[|es| - 1].src <= x then |es| else StartedBy(es[..|es| - 1], x)
  }

  lemma {:induction false} StartedByIs(es: seq<Entry>, x: nat, n: nat)
    requires n <= |es|
    requires forall i :: 0 <= i < n ==> es[i].src <= x
    requires forall i :: n <= i < |es| ==> es[i].src > x
    ensures StartedBy(es, x) == n
  {
    if n < |es| {
      StartedByIs(es[..|es| - 1], x, n);
    }
  }

  /** The last entry to start at or before x, if it reaches past x. */
  function Holder(es: seq<Entry>, x: nat): (r: Option<Entry>)
    ensures r.Some? ==> r.value in es && r.value.src <= x < r.value.End()
  {
    var n := StartedBy(es, x);
    if n > 0 && x < es[n - 1].End() then Some(es[n - 1]) else None
  }

  /** The translation of `left` bytes from `at` on: piece by piece, each by the entry that holds its first byte. */
  function Remapped(es: seq<Entry>, at: nat, left: nat): Result<seq<Segment>, Unmapped>
    decreases left
  {
    if left == 0 then Ok([]) else
      match Holder(es, at)
      case None => Err(Unmapped(at, left))
      case Some(e) =>
        var within := at - e.src;
        var take := if e.size - within < left then e.size - within else left;
        if e.dstOffset + within > U64_MAX then Err(Unmapped(at, left))
        else if take < left && at + take > U64_MAX then Err(Unmapped(at, left - take))
        else
          var rest :- Remapped(es, at + take, left - take);
          Ok([Segment(e.dstVdev, e.dstOffset + within, take)] + rest)
  }

  /** One piece of the translation. */
  lemma NextPiece(es: seq<Entry>, at: nat, left: nat, done: seq<Segment>)
    requires left > 0
    ensures Prepended(done, Remapped(es, at, left)) ==
            match Holder(es, at)
            case None => Err(Unmapped(at, left))
            case Some(e) =>
              var within := at - e.src;
              var take := if e.size - within < left then e.size - within else left;
              if e.dstOffset + within > U64_MAX then Err(Unmapped(at, left))
              else if take < left && at + take > U64_MAX then Err(Unmapped(at, left - take))
              else Prepended(done + [Segment(e.dstVdev, e.dstOffset + within, take)], Remapped(es, at + take, left - take))
  {
    hide Holder;
    var r := Remapped(es, at, left);
    if r.Ok? {
      assert done + r.value == done + [r.value[0]] + r.value[1..];
    }
  }

  /** The library's partition point: how many entries start at or before x. */
  method PartitionPoint(es: seq<Entry>, x: nat) returns (n: nat)
    requires Sorted(es)
    ensures n <= |es|
    ensures forall i :: 0 <= i < n ==> es[i].src <= x
    ensures forall i :: n <= i < |es| ==> es[i].src > x
  {
    n := 0;
    var hi := |es|;
    while n < hi
      invariant n <= hi <= |es|
      invariant forall i :: 0 <= i < n ==> es[i].src <= x
      invariant forall i :: hi <= i < |es| ==> es[i].src > x
    {
      var mid := n + (hi - n) / 2;
      if es[mid].src <= x {
        n := mid + 1;
      } else {
        hi := mid;
      }
    }
  }

  /** Without overlaps, an entry is found exactly when one covers the byte, but for the last address: no end is past it. */
  lemma HolderIsMapped(es: seq<Entry>, x: nat)
    requires Sorted(es) && Disjoint(es)
    ensures Holder(es, x).Some? <==> Mapped(es, x) && x != U64_MAX
    ensures Holder(es, x).Some? ==> Contains(Holder(es, x).value, x)
    ensures Mapped(es, x) ==> x <= U64_MAX
  {
    var n := PartitionAt(es, x);
    StartedByIs(es, x, n);
    if Holder(es, x).Some? {
      assert Contains(es[n - 1], x);
    } else if x != U64_MAX {
      forall i | 0 <= i < |es| ensures !Contains(es[i], x) {
        if i + 1 < n {
          assert es[i].src + es[i].size <= es[n - 1].src;
        }
      }
    }
  }

  lemma {:induction false} PartitionAt(es: seq<Entry>, x: nat) returns (n: nat)
    requires Sorted(es)
    ensures n <= |es|
    ensures forall i :: 0 <= i < n ==> es[i].src <= x
    ensures forall i :: n <= i < |es| ==> es[i].src > x
  {
    if |es| == 0 || es[|es| - 1].src <= x {
      n := |es|;
    } else {
      n := PartitionAt(es[..|es| - 1], x);
    }
  }

  /** The binary search gives the entry that answers for `offset`, overlaps or not. */
  method EntryFor(es: seq<Entry>, offset: nat) returns (r: Option<Entry>)
    requires Sorted(es)
    ensures r == Holder(es, offset)
  {
    var n := PartitionPoint(es, offset);
    StartedByIs(es, offset, n);
    if n == 0 {
      return None;
    }
    var e := es[n - 1];
    r := if offset < e.End() then Some(e) else None;
  }

  lemma PieceSends(es: seq<Entry>, i: nat, at: nat, take: nat, seg: Segment)
    requires i < |es| && Contains(es[i], at) && 0 < take <= es[i].src + es[i].size - at
    requires seg == Segment(es[i].dstVdev, es[i].dstOffset + (at - es[i].src), take)
    ensures Sends(es, at, seg)
    ensures forall x :: at <= x < at + take ==> Mapped(es, x)
  {
    forall x: nat | at <= x < at + take
      ensures SentTo(es, x, seg.vdev, Address(seg, at, x)) && Mapped(es, x)
    {
      assert Contains(es[i], x);
    }
  }

  method FromEntries(es: seq<Entry>) returns (r: seq<Entry>)
    ensures Sorted(r) && multiset(r) == multiset(es)
    ensures forall src :: StartingAt(r, src) == StartingAt(es, src)
  {
    SortSorts(es);
    forall src ensures StartingAt(SortBySource(es), src) == StartingAt(es, src) {
      SortIsStable(es, src);
    }
    r := SortBySource(es);
  }

  /** The loop computes the piece-by-piece translation, and stops at its first failure. */
  method Remap(es: seq<Entry>, offset: nat, size: nat) returns (r: Result<seq<Segment>, Unmapped>)
    requires Sorted(es) && AllFit(es) && offset <= U64_MAX
    ensures r == Remapped(es, offset, size)
  {
    hide Prepended, Holder;
    var out: seq<Segment> := [];
    var at: nat, left: nat := offset, size;
    PrependedLaws([], [], Remapped(es, at, left));
    while left > 0
      invariant Prepended(out, Remapped(es, at, left)) == Remapped(es, offset, size)
      decreases left
    {
      NextPiece(es, at, left, out);
      var found := EntryFor(es, at);
      if found.None? {
        return Err(Unmapped(at, left));
      }
      var e := found.value;
      var within := at - e.src;
      var take := if e.size - within < left then e.size - within else left;
      if e.dstOffset + within > U64_MAX {
        return Err(Unmapped(at, left));
      }
      out := out + [Segment(e.dstVdev, e.dstOffset + within, take)];
      left := left - take;
      if at + take <= U64_MAX {
        at := at + take;
      } else if left == 0 {
        PrependedLaws<Segment, Unmapped>(out, [], Ok([]));
        break;
      } else {
        return Err(Unmapped(at, left));
      }
    }
    PrependedLaws<Segment, Unmapped>(out, [], Ok([]));
    return Ok(out);
  }

  // ----- What the translation means

  lemma {:induction false} SizeKept(es: seq<Entry>, at: nat, left: nat)
    requires Remapped(es, at, left).Ok?
    ensures TotalSize(Remapped(es, at, left).value) == left
    decreases left
  {
    if left > 0 {
      var seg := Remapped(es, at, left).value[0];
      SizeKept(es, at + seg.size, left - seg.size);
    }
  }

  /** Ok segments translate byte by byte. Err is the first byte without an answer, with what is left from there: one
      that no entry covers, or the last address; or it is the excess of a request that runs past the address space. */
  ghost predicate TranslatesTo(es: seq<Entry>, at: nat, left: nat, r: Result<seq<Segment>, Unmapped>) {
    match r
    case Ok(segs) => Translates(es, at, segs) && AllMapped(es, at, at + left)
    case Err(gap) =>
      at <= gap.offset && gap.size > 0 &&
      if gap.offset + gap.size == at + left then
        (!Mapped(es, gap.offset) || gap.offset == U64_MAX) && AllMapped(es, at, gap.offset)
      else
        gap.offset < U64_MAX && U64_MAX + 1 + gap.size == at + left && AllMapped(es, at, U64_MAX + 1)
  }

  ghost predicate AllMapped(es: seq<Entry>, from: nat, to: nat) {
    forall x :: from <= x < to ==> Mapped(es, x)
  }

  lemma OnePiece(es: seq<Entry>, at: nat, left: nat, e: Entry)
    requires Holder(es, at) == Some(e) && Contains(e, at) && e.src + e.size <= U64_MAX + 1 && e.dstOffset + e.size <= U64_MAX + 1
    requires left > 0
    ensures var take := if e.src + e.size - at < left then e.src + e.size - at else left;
      take > 0 &&
      Remapped(es, at, left) ==
        if take < left && at + take > U64_MAX then Err(Unmapped(at, left - take)) else
          var rest :- Remapped(es, at + take, left - take);
          Ok([Segment(e.dstVdev, e.dstOffset + (at - e.src), take)] + rest)
  {
    hide Holder;
  }

  lemma TranslatesNext(es: seq<Entry>, at: nat, left: nat, seg: Segment, rest: Result<seq<Segment>, Unmapped>)
    requires Sends(es, at, seg) && seg.size <= left && AllMapped(es, at, at + seg.size)
    requires TranslatesTo(es, at + seg.size, left - seg.size, rest)
    ensures TranslatesTo(es, at, left, (var segs :- rest; Ok([seg] + segs)))
  {
    hide Sends, Mapped;
    if rest.Ok? {
      assert ([seg] + rest.value)[1..] == rest.value;
    }
  }

  lemma TranslatesNothing(es: seq<Entry>, at: nat, left: nat)
    ensures TranslatesTo(es, at, 0, Ok([]))
    ensures left > 0 && (!Mapped(es, at) || at == U64_MAX) ==> TranslatesTo(es, at, left, Err(Unmapped(at, left)))
  {}

  lemma TranslatesPast(es: seq<Entry>, at: nat, left: nat)
    requires at < U64_MAX && at + left > U64_MAX + 1 && AllMapped(es, at, U64_MAX + 1)
    ensures TranslatesTo(es, at, left, Err(Unmapped(at, at + left - (U64_MAX + 1))))
  {}

  lemma HolderAt(es: seq<Entry>, x: nat) returns (i: nat)
    requires Holder(es, x).Some?
    ensures i < |es| && es[i] == Holder(es, x).value
  {
    i :| 0 <= i < |es| && es[i] == Holder(es, x).value;
  }

  /** The piece of a mapped byte: where it ends, and what the translation makes of it. */
  lemma PieceOf(es: seq<Entry>, at: nat, left: nat) returns (i: nat, seg: Segment)
    requires Sorted(es) && Disjoint(es) && Mapped(es, at) && at != U64_MAX && left > 0
    ensures i < |es| && Contains(es[i], at) && at + seg.size <= es[i].src + es[i].size <= U64_MAX + 1
    ensures 0 < seg.size <= left && (seg.size < left ==> at + seg.size == es[i].src + es[i].size)
    ensures Sends(es, at, seg) && AllMapped(es, at, at + seg.size)
    ensures Remapped(es, at, left) ==
            if seg.size < left && at + seg.size > U64_MAX then Err(Unmapped(at, left - seg.size)) else
              var rest :- Remapped(es, at + seg.size, left - seg.size);
              Ok([seg] + rest)
  {
    hide Holder, Sorted, Mapped, Sends, Remapped, SentTo;
    HolderIsMapped(es, at);
    i := HolderAt(es, at);
    var e := es[i];
    var take := if e.src + e.size - at < left then e.src + e.size - at else left;
    seg := Segment(e.dstVdev, e.dstOffset + (at - e.src), take);
    OnePiece(es, at, left, e);
    PieceSends(es, i, at, take, seg);
  }

  /** Without overlaps or overflow, the translation is the entries', byte by byte, up to the first byte without an answer. */
  lemma {:induction false} RemapTranslates(es: seq<Entry>, at: nat, left: nat)
    requires Sorted(es) && Disjoint(es)
    ensures TranslatesTo(es, at, left, Remapped(es, at, left))
    decreases left
  {
    hide Holder, Sorted, Disjoint, Mapped, AllMapped, Sends, TranslatesTo, Remapped;
    TranslatesNothing(es, at, left);
    NothingAsked(es, at);
    if left > 0 {
      HolderIsMapped(es, at);
      NoAnswer(es, at, left);
      if Mapped(es, at) && at != U64_MAX {
        var i, seg := PieceOf(es, at, left);
        if seg.size < left && at + seg.size > U64_MAX {
          TranslatesPast(es, at, left);
        } else {
          RemapTranslates(es, at + seg.size, left - seg.size);
          TranslatesNext(es, at, left, seg, Remapped(es, at + seg.size, left - seg.size));
        }
      }
    }
  }

  /** The request ends with the last address, and a piece would have to begin there. */
  ghost predicate LastAddressAlone(es: seq<Entry>, at: nat, left: nat) {
    left > 0 && at + left == U64_MAX + 1 && (at == U64_MAX || exists i :: 0 <= i < |es| && es[i].src == U64_MAX && es[i].size > 0)
  }

  lemma AllMappedSplit(es: seq<Entry>, a: nat, b: nat, c: nat)
    requires a <= b <= c
    ensures AllMapped(es, a, c) <==> AllMapped(es, a, b) && AllMapped(es, b, c)
    ensures a < c && !Mapped(es, a) ==> !AllMapped(es, a, c)
  {
    hide Mapped;
  }

  /** No byte past the last address is mapped. */
  lemma PastTheEnd(es: seq<Entry>, at: nat, left: nat)
    requires Disjoint(es) && left > 0 && at + left > U64_MAX + 1
    ensures !AllMapped(es, at, at + left)
  {
    assert !Mapped(es, at + left - 1);
  }

  /** Whether a piece begins at the last address is decided by the pieces after the first. */
  lemma AloneLater(es: seq<Entry>, at: nat, left: nat, take: nat, i: nat)
    requires Disjoint(es) && at < U64_MAX && 0 < take <= left
    requires i < |es| && Contains(es[i], at) && at + take <= es[i].src + es[i].size
    requires take < left ==> at + take == es[i].src + es[i].size <= U64_MAX
    requires AllMapped(es, at, at + left)
    ensures LastAddressAlone(es, at, left) <==> LastAddressAlone(es, at + take, left - take)
  {
    if at + left == U64_MAX + 1 {
      assert Mapped(es, U64_MAX);
      var f :| 0 <= f < |es| && Contains(es[f], U64_MAX);
      if take == left {
        forall k | 0 <= k < |es| ensures es[k].src != U64_MAX {}
      } else if at + take == U64_MAX {
        assert f > i;
        assert es[f].src == U64_MAX;
      }
    }
  }

  /** Exactly which requests are translated: those with every byte mapped, unless a piece begins at the last address. */
  lemma {:induction false} RemapSucceeds(es: seq<Entry>, at: nat, left: nat)
    requires Sorted(es) && Disjoint(es)
    ensures Remapped(es, at, left).Ok? <==> AllMapped(es, at, at + left) && !LastAddressAlone(es, at, left)
    decreases left
  {
    hide Holder, Sorted, Disjoint, Sends, Mapped, AllMapped, LastAddressAlone, Remapped;
    if left == 0 {
      NothingAsked(es, at);
    } else {
      HolderIsMapped(es, at);
      NoAnswer(es, at, left);
      AllMappedSplit(es, at, at, at + left);
      if Mapped(es, at) && at != U64_MAX {
        var i, seg := PieceOf(es, at, left);
        var next := at + seg.size;
        if seg.size < left && next > U64_MAX {
          PastTheEnd(es, at, left);
        } else {
          RemapSucceeds(es, next, left - seg.size);
          AllMappedSplit(es, at, next, at + left);
          if AllMapped(es, at, at + left) {
            AloneLater(es, at, left, seg.size, i);
          }
        }
      } else if Mapped(es, at) {
        LastAlone(es, left);
      }
    }
  }

  lemma NoAnswer(es: seq<Entry>, at: nat, left: nat)
    requires left > 0
    ensures Holder(es, at).None? ==> Remapped(es, at, left) == Err(Unmapped(at, left))
  {
    hide Holder;
  }

  lemma NothingAsked(es: seq<Entry>, at: nat)
    ensures Remapped(es, at, 0) == Ok([]) && AllMapped(es, at, at) && !LastAddressAlone(es, at, 0)
  {}

  lemma LastAlone(es: seq<Entry>, left: nat)
    requires Disjoint(es) && left > 0
    ensures LastAddressAlone(es, U64_MAX, left) || !AllMapped(es, U64_MAX, U64_MAX + left)
  {
    if left > 1 {
      PastTheEnd(es, U64_MAX, left);
    }
  }
}
