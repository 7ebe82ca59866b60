/** The allocated space of a vdev as a sorted, merged list of byte ranges. */
module SpaceRanges {
  import opened Arith
  import opened Octets
  import opened Wrappers

  type Range = (nat, nat)

  /** u64 addition that stops at the maximum. */
  function SaturatingAdd(a: nat, b: nat): nat {
    if a + b > U64_MAX then U64_MAX else a + b
  }

  // ----- The bytes a list of ranges stands for

  predicate Within(r: Range, x: nat) { r.0 <= x < r.1 }

  predicate Covers(rs: seq<Range>, x: nat) {
    exists i :: 0 <= i < |rs| && Within(rs[i], x)
  }

  /** A range is nonempty, except that one past the last address may be left as (MAX, MAX). */
  predicate RangeOk(r: Range) {
    r.1 <= U64_MAX && (r.0 < r.1 || r.0 == r.1 == U64_MAX)
  }

  /** Sorted, and no two ranges touch. */
  predicate Gapped(rs: seq<Range>) {
    forall i, j :: 0 <= i < j < |rs| ==> rs[i].1 < rs[j].0
  }

  predicate Canonical(rs: seq<Range>) {
    Gapped(rs) && forall i :: 0 <= i < |rs| ==> RangeOk(rs[i])
  }

  predicate Proper(rs: seq<Range>) {
    forall i :: 0 <= i < |rs| ==> rs[i].0 < rs[i].1
  }

  // ----- The library sort, and the merging pass

  predicate Before(a: Range, b: Range) {
    a.0 < b.0 || (a.0 == b.0 && a.1 <= b.1)
  }

  function InsertSorted(r: Range, rs: seq<Range>): (out: seq<Range>)
    ensures multiset(out) == multiset{r} + multiset(rs)
  {
    if |rs| == 0 then [r]
    else if Before(r, rs[0]) then assert rs == [rs[0]] + rs[1..]; [r] + rs
    else assert rs == [rs[0]] + rs[1..]; [rs[0]] + InsertSorted(r, rs[1..])
  }

  function Sort(rs: seq<Range>): (out: seq<Range>)
    ensures multiset(out) == multiset(rs)
  {
    if |rs| == 0 then []
    else assert rs == [rs[0]] + rs[1..]; InsertSorted(rs[0], Sort(rs[1..]))
  }

  /** Sorting a canonical list changes nothing. */
  lemma {:induction false} SortCanonical(rs: seq<Range>)
    requires Canonical(rs)
    ensures Sort(rs) == rs
  {
    hide InsertSorted, Canonical;
    if |rs| > 0 {
      CanonicalTail(rs);
      SortCanonical(rs[1..]);
      InsertFirst(rs[0], rs[1..]);
      assert rs == [rs[0]] + rs[1..];
    }
  }

  lemma InsertFirst(r: Range, rs: seq<Range>)
    requires |rs| > 0 ==> r.0 < rs[0].0
    ensures InsertSorted(r, rs) == [r] + rs
  {}

  // ----- Union and difference, said simply

  /** rs with [from, to) added: swallow every range it overlaps or touches. */
  function AddTo(rs: seq<Range>, from: nat, to: nat): seq<Range> {
    if |rs| == 0 then [(from, to)]
    else if rs[0].1 < from then [rs[0]] + AddTo(rs[1..], from, to)
    else if rs[0].0 > to then [(from, to)] + rs
    else AddTo(rs[1..], Min(from, rs[0].0), Max(to, rs[0].1))
  }

  /** What is left of one range when [from, to) is taken out. */
  function Cut(r: Range, from: nat, to: nat): seq<Range> {
    if r.1 < from || r.0 > to then [r]
    else (if r.0 < from then [(r.0, from)] else []) + (if r.1 > to then [(to, r.1)] else [])
  }

  function RemoveFrom(rs: seq<Range>, from: nat, to: nat): seq<Range> {
    if |rs| == 0 then [] else RemoveFrom(rs[..|rs| - 1], from, to) + Cut(rs[|rs| - 1], from, to)
  }

  lemma CoversCons(r: Range, rs: seq<Range>, x: nat)
    ensures Covers([r] + rs, x) <==> Within(r, x) || Covers(rs, x)
  {
    var all := [r] + rs;
    if Within(r, x) { assert Within(all[0], x); }
    if Covers(rs, x) {
      var i :| 0 <= i < |rs| && Within(rs[i], x);
      assert Within(all[i + 1], x);
    }
    if Covers(all, x) {
      var i :| 0 <= i < |all| && Within(all[i], x);
      if i > 0 { assert Within(rs[i - 1], x); }
    }
  }

  lemma CoversNone(x: nat)
    ensures !Covers([], x)
  {}

  lemma CoversConcat(a: seq<Range>, b: seq<Range>, x: nat)
    ensures Covers(a + b, x) <==> Covers(a, x) || Covers(b, x)
  {
    var all := a + b;
    if Covers(a, x) {
      var i :| 0 <= i < |a| && Within(a[i], x);
      assert Within(all[i], x);
    }
    if Covers(b, x) {
      var i :| 0 <= i < |b| && Within(b[i], x);
      assert Within(all[|a| + i], x);
    }
    if Covers(all, x) {
      var i :| 0 <= i < |all| && Within(all[i], x);
      if i < |a| { assert Within(a[i], x); } else { assert Within(b[i - |a|], x); }
    }
  }

  /** The first range ends before the others, which end no later than the last address. */
  lemma CanonicalTail(rs: seq<Range>)
    requires Canonical(rs) && |rs| > 0
    ensures Canonical(rs[1..]) && RangeOk(rs[0])
    ensures |rs| > 1 ==> rs[0].0 < rs[1].0 && rs[0].1 < U64_MAX && rs[|rs| - 1].1 <= U64_MAX
  {
    if |rs| > 1 {
      assert rs[0].1 < rs[1].0 <= rs[1].1 <= U64_MAX;
    }
  }

  lemma AddStep(rs: seq<Range>, from: nat, to: nat)
    ensures AddTo(rs, from, to) ==
              if |rs| == 0 then [(from, to)]
              else if rs[0].1 < from then [rs[0]] + AddTo(rs[1..], from, to)
              else if rs[0].0 > to then [(from, to)] + rs
              else AddTo(rs[1..], Min(from, rs[0].0), Max(to, rs[0].1))
  {}

  /** Adding is set union. */
  lemma {:induction false} AddCovers(rs: seq<Range>, from: nat, to: nat, x: nat)
    requires Canonical(rs) && from <= to
    ensures Covers(AddTo(rs, from, to), x) <==> Covers(rs, x) || from <= x < to
  {
    hide AddTo, Covers, Canonical;
    AddStep(rs, from, to);
    if |rs| == 0 {
      CoversCons((from, to), [], x);
      assert [(from, to)] + [] == [(from, to)];
      CoversNone(x);
    } else {
      CanonicalTail(rs);
      assert rs == [rs[0]] + rs[1..];
      CoversCons(rs[0], rs[1..], x);
      if rs[0].1 < from {
        AddCovers(rs[1..], from, to, x);
        CoversCons(rs[0], AddTo(rs[1..], from, to), x);
      } else if rs[0].0 > to {
        CoversCons((from, to), rs, x);
      } else {
        AddCovers(rs[1..], Min(from, rs[0].0), Max(to, rs[0].1), x);
      }
    }
  }

  predicate StartsFrom(rs: seq<Range>, x: nat) {
    forall i :: 0 <= i < |rs| ==> x <= rs[i].0
  }

  /** Adding keeps the list canonical. */
  lemma {:induction false} AddCanonical(rs: seq<Range>, from: nat, to: nat)
    requires Canonical(rs) && RangeOk((from, to))
    ensures Canonical(AddTo(rs, from, to))
    ensures forall y: nat :: y <= from && StartsFrom(rs, y) ==> StartsFrom(AddTo(rs, from, to), y)
  {
    AddStep(rs, from, to);
    hide AddTo;
    if |rs| > 0 {
      var rest := rs[1..];
      CanonicalTail(rs);
      if rs[0].1 < from {
        AddCanonical(rest, from, to);
        assert StartsFrom(rest, rs[0].1 + 1);
        assert StartsFrom(AddTo(rest, from, to), rs[0].1 + 1);
      } else if rs[0].0 > to {
      } else {
        AddCanonical(rest, Min(from, rs[0].0), Max(to, rs[0].1));
      }
    }
  }

  predicate ReachesEnd(rs: seq<Range>) {
    |rs| > 0 && rs[|rs| - 1].1 == U64_MAX
  }

  /** An empty range is left exactly when the added range is the empty one at the end of the address space and no range reaches there. */
  lemma {:induction false} AddProper(rs: seq<Range>, from: nat, to: nat)
    requires Canonical(rs) && Proper(rs) && RangeOk((from, to))
    ensures Proper(AddTo(rs, from, to)) <==> from < to || ReachesEnd(rs)
  {
    if |rs| > 0 {
      var rest := rs[1..];
      assert Canonical(rest);
      if rs[0].1 < from {
        AddProper(rest, from, to);
        assert AddTo(rs, from, to)[1..] == AddTo(rest, from, to);
        ProperTail(AddTo(rs, from, to));
      } else if rs[0].0 > to {
        assert AddTo(rs, from, to)[1..] == rs;
      } else {
        AddProper(rest, Min(from, rs[0].0), Max(to, rs[0].1));
        assert from == to ==> rs[0].1 == U64_MAX && |rs| == 1;
      }
    } else {
      assert AddTo(rs, from, to)[0] == (from, to);
    }
  }

  /** The failing family in one input: a byte added at the last address leaves an empty range behind. */
  lemma EmptyRangeAtTheEnd()
    ensures AddTo([], U64_MAX, SaturatingAdd(U64_MAX, 1)) == [(U64_MAX, U64_MAX)]
    ensures !Proper(AddTo([], U64_MAX, SaturatingAdd(U64_MAX, 1)))
  {
    assert AddTo([], U64_MAX, SaturatingAdd(U64_MAX, 1))[0].0 == U64_MAX;
  }

  lemma ProperTail(rs: seq<Range>)
    requires |rs| > 0 && rs[0].0 < rs[0].1
    ensures Proper(rs) <==> Proper(rs[1..])
  {
    assert forall i :: 0 < i < |rs| ==> rs[i] == rs[1..][i - 1];
  }

  lemma CutCovers(r: Range, from: nat, to: nat, x: nat)
    requires RangeOk(r) && from <= to
    ensures Covers(Cut(r, from, to), x) <==> Within(r, x) && !(from <= x < to)
  {
    var a := if r.0 < from then [(r.0, from)] else [];
    var b := if r.1 > to then [(to, r.1)] else [];
    CoversConcat(a, b, x);
    if r.0 < from { assert a[0] == (r.0, from); }
    if r.1 > to { assert b[0] == (to, r.1); }
    assert [r][0] == r;
  }

  lemma RemoveNone(from: nat, to: nat)
    ensures RemoveFrom([], from, to) == []
  {}

  lemma RemoveNext(rs: seq<Range>, i: nat, from: nat, to: nat)
    requires i < |rs|
    ensures RemoveFrom(rs[..i + 1], from, to) == RemoveFrom(rs[..i], from, to) + Cut(rs[i], from, to)
  {
    hide Cut;
    assert rs[..i + 1][..i] == rs[..i];
  }

  /** Removing is set difference. */
  lemma {:induction false} RemoveCovers(rs: seq<Range>, from: nat, to: nat, x: nat)
    requires Canonical(rs) && from <= to
    ensures Covers(RemoveFrom(rs, from, to), x) <==> Covers(rs, x) && !(from <= x < to)
  {
    if |rs| > 0 {
      var n := |rs| - 1;
      assert rs == rs[..n] + [rs[n]];
      RemoveCovers(rs[..n], from, to, x);
      CoversConcat(rs[..n], [rs[n]], x);
      assert [rs[n]][0] == rs[n];
      CutCovers(rs[n], from, to, x);
      CoversConcat(RemoveFrom(rs[..n], from, to), Cut(rs[n], from, to), x);
    }
  }

  lemma {:induction false} RemoveCanonical(rs: seq<Range>, from: nat, to: nat)
    requires Canonical(rs) && RangeOk((from, to))
    ensures Canonical(RemoveFrom(rs, from, to))
    ensures Proper(rs) ==> Proper(RemoveFrom(rs, from, to))
    ensures |rs| > 0 ==> forall i :: 0 <= i < |RemoveFrom(rs, from, to)| ==> RemoveFrom(rs, from, to)[i].1 <= rs[|rs| - 1].1
    ensures |rs| == 0 ==> RemoveFrom(rs, from, to) == []
  {
    if |rs| > 0 {
      var n := |rs| - 1;
      RemoveCanonical(rs[..n], from, to);
      CutWithin(rs[n], from, to);
      hide Cut;
      GappedConcat(RemoveFrom(rs[..n], from, to), Cut(rs[n], from, to), rs[n].0);
    }
  }

  lemma CutWithin(r: Range, from: nat, to: nat)
    requires RangeOk(r) && RangeOk((from, to))
    ensures Canonical(Cut(r, from, to)) && (r.0 < r.1 ==> Proper(Cut(r, from, to)))
    ensures forall i :: 0 <= i < |Cut(r, from, to)| ==> r.0 <= Cut(r, from, to)[i].0 && Cut(r, from, to)[i].1 <= r.1
  {}

  lemma GappedConcat(a: seq<Range>, b: seq<Range>, start: nat)
    requires Canonical(a) && Canonical(b)
    requires forall i :: 0 <= i < |a| ==> a[i].1 < start
    requires forall i :: 0 <= i < |b| ==> start <= b[i].0
    ensures Canonical(a + b)
  {}

  /** What the adding pass will return, given its state: out so far and the rest of the list. */
  function Pending(out: seq<Range>, rest: seq<Range>, from: nat, to: nat, inserted: bool, passed: bool): seq<Range> {
    if passed then out + rest
    else if inserted && |out| > 0 then out[..|out| - 1] + AddTo(rest, out[|out| - 1].0, out[|out| - 1].1)
    else out + AddTo(rest, from, to)
  }

  lemma PassBelow(out: seq<Range>, rest: seq<Range>, from: nat, to: nat)
    requires |rest| > 0 && rest[0].1 < from
    ensures Pending(out, rest, from, to, false, false) == Pending(out + [rest[0]], rest[1..], from, to, false, false)
  {
    hide AddTo;
    AddStep(rest, from, to);
  }

  lemma PassBeyond(out: seq<Range>, rest: seq<Range>, from: nat, to: nat, inserted: bool, passed: bool)
    requires |rest| > 0 && rest[0].0 > to && rest[0].1 >= from && (passed ==> inserted)
    requires inserted && !passed ==> |out| > 0 && out[|out| - 1].1 < rest[0].0 && out[|out| - 1].0 <= rest[0].1
    ensures Pending(out, rest, from, to, inserted, passed)
         == Pending((if inserted then out else out + [(from, to)]) + [rest[0]], rest[1..], from, to, true, true)
  {
    hide AddTo;
    assert rest == [rest[0]] + rest[1..];
    if inserted && !passed {
      AddStep(rest, out[|out| - 1].0, out[|out| - 1].1);
      assert out == out[..|out| - 1] + [out[|out| - 1]];
    }
    AddStep(rest, from, to);
  }

  lemma PassFirstTouch(out: seq<Range>, rest: seq<Range>, from: nat, to: nat)
    requires |rest| > 0 && from <= rest[0].1 && rest[0].0 <= to
    ensures Pending(out, rest, from, to, false, false)
         == Pending(out + [(Min(rest[0].0, from), Max(rest[0].1, to))], rest[1..], from, to, true, false)
  {
    hide AddTo;
    AddStep(rest, from, to);
  }

  lemma PassNextTouch(out: seq<Range>, rest: seq<Range>, from: nat, to: nat)
    requires |rest| > 0 && |out| > 0 && rest[0].0 <= to
    requires var last := out[|out| - 1]; last.0 <= rest[0].0 && last.0 <= rest[0].1 && to <= last.1
    ensures Pending(out, rest, from, to, true, false)
         == Pending(out[|out| - 1 := (out[|out| - 1].0, Max(out[|out| - 1].1, Max(rest[0].1, to)))], rest[1..], from, to, true, false)
  {
    hide AddTo;
    AddStep(rest, out[|out| - 1].0, out[|out| - 1].1);
  }

  lemma PassDone(out: seq<Range>, from: nat, to: nat, inserted: bool, passed: bool)
    requires (passed ==> inserted) && (inserted ==> |out| > 0)
    ensures Pending(out, [], from, to, inserted, passed) == if inserted then out else out + [(from, to)]
  {}

  // ----- Size, canonicity, intersection

  ghost function Interval(a: nat, b: nat): (s: set<nat>)
    requires a <= b
    ensures |s| == b - a && forall x :: x in s <==> a <= x < b
    decreases b
  {
    if a == b then {} else Interval(a, b - 1) + {b - 1}
  }

  /** The bytes a list stands for, as a set. */
  ghost function ByteSet(rs: seq<Range>): (s: set<nat>)
    requires Canonical(rs)
  {
    if |rs| == 0 then {} else ByteSet(rs[..|rs| - 1]) + Interval(rs[|rs| - 1].0, rs[|rs| - 1].1)
  }

  lemma {:induction false} InByteSet(rs: seq<Range>, x: nat)
    requires Canonical(rs)
    ensures x in ByteSet(rs) <==> Covers(rs, x)
  {
    if |rs| > 0 {
      var n := |rs| - 1;
      assert rs == rs[..n] + [rs[n]];
      InByteSet(rs[..n], x);
      CoversConcat(rs[..n], [rs[n]], x);
      assert [rs[n]][0] == rs[n];
    }
  }

  function TotalBytes(rs: seq<Range>): int {
    if |rs| == 0 then 0 else TotalBytes(rs[..|rs| - 1]) + (rs[|rs| - 1].1 as int - rs[|rs| - 1].0 as int)
  }

  /** The sum of the lengths is the number of bytes. */
  lemma {:induction false} TotalIsSize(rs: seq<Range>)
    requires Canonical(rs)
    ensures TotalBytes(rs) == |ByteSet(rs)|
  {
    if |rs| > 0 {
      var n := |rs| - 1;
      TotalIsSize(rs[..n]);
      var before, last := ByteSet(rs[..n]), Interval(rs[n].0, rs[n].1);
      forall x | x in before ensures x !in last {
        InByteSet(rs[..n], x);
        var i :| 0 <= i < n && Within(rs[..n][i], x);
        assert rs[i].1 < rs[n].0;
      }
      DisjointUnion(before, last);
    }
  }

  lemma DisjointUnion(a: set<nat>, b: set<nat>)
    requires forall x :: x in a ==> x !in b
    ensures |a + b| == |a| + |b|
  {
    assert a * b == {};
  }

  /** Two proper canonical lists of the same bytes are the same list. */
  lemma {:induction false} CanonicalUnique(a: seq<Range>, b: seq<Range>)
    requires Canonical(a) && Canonical(b) && Proper(a) && Proper(b)
    requires forall x: nat :: Covers(a, x) <==> Covers(b, x)
    ensures a == b
  {
    if |a| == 0 || |b| == 0 {
      if |a| > 0 { assert Within(a[0], a[0].0); assert Covers(a, a[0].0); }
      if |b| > 0 { assert Within(b[0], b[0].0); assert Covers(b, b[0].0); }
    } else {
      FirstAgrees(a, b);
      FirstAgrees(b, a);
      assert a[0] == b[0];
      assert a == [a[0]] + a[1..] && b == [b[0]] + b[1..];
      forall x: nat ensures Covers(a[1..], x) <==> Covers(b[1..], x) {
        CoversCons(a[0], a[1..], x);
        CoversCons(b[0], b[1..], x);
        if Covers(a[1..], x) { TailApart(a, x); }
        if Covers(b[1..], x) { TailApart(b, x); }
      }
      CanonicalUnique(a[1..], b[1..]);
    }
  }

  lemma TailApart(a: seq<Range>, x: nat)
    requires Canonical(a) && |a| > 0 && Covers(a[1..], x)
    ensures !Within(a[0], x)
  {
    var i :| 0 <= i < |a| - 1 && Within(a[1..][i], x);
    assert a[0].1 < a[i + 1].0;
  }

  lemma FirstAgrees(a: seq<Range>, b: seq<Range>)
    requires Canonical(a) && Canonical(b) && Proper(a) && Proper(b) && |a| > 0 && |b| > 0
    requires forall x: nat :: Covers(a, x) <==> Covers(b, x)
    ensures a[0].0 >= b[0].0 && (a[0].0 == b[0].0 ==> a[0].1 <= b[0].1)
  {
    assert Within(a[0], a[0].0);
    assert Covers(b, a[0].0);
    var i :| 0 <= i < |b| && Within(b[i], a[0].0);
    if a[0].0 == b[0].0 && b[0].1 < a[0].1 {
      assert Within(a[0], b[0].1);
      EndNotCovered(b);
      assert false;
    }
  }

  lemma EndNotCovered(b: seq<Range>)
    requires Canonical(b) && |b| > 0
    ensures !Covers(b, b[0].1)
  {
    forall i | 0 <= i < |b| ensures !Within(b[i], b[0].1) {}
  }

  // ----- Entries

  datatype MapType = Alloc | Free

  datatype Entry = Entry(kind: MapType, offset: nat, run: nat, vdev: Option<nat>)

  /** Does the log leave byte x allocated, if it was so before? */
  ghost predicate Replayed(before: bool, entries: seq<Entry>, base: nat, x: nat) {
    if |entries| == 0 then before
    else
      var e := entries[|entries| - 1];
      var start := SaturatingAdd(base, e.offset);
      var rest := Replayed(before, entries[..|entries| - 1], base, x);
      if start <= x < SaturatingAdd(start, e.run) then e.kind.Alloc? else rest
  }

  // ----- The end of the address space

  /** Whether the list stops short of the last address, reaches it, or holds an empty range there. */
  datatype End = Short | Reached | Empty

  function EndOf(rs: seq<Range>): End {
    if |rs| == 0 || rs[|rs| - 1].1 < U64_MAX then Short
    else if rs[|rs| - 1].0 < U64_MAX then Reached
    else Empty
  }

  /** Only the end can hold an empty range. */
  lemma ProperByEnd(rs: seq<Range>)
    requires Canonical(rs)
    ensures Proper(rs) <==> EndOf(rs) != Empty
  {
    forall i | 0 <= i < |rs| - 1 ensures rs[i].0 < rs[i].1 {
      assert rs[i].1 < rs[|rs| - 1].0;
    }
  }

  function EndAdded(end: End, from: nat, to: nat): End {
    if to < U64_MAX then end
    else if from < U64_MAX then Reached
    else if end.Short? then Empty
    else end
  }

  function EndRemoved(end: End, from: nat, to: nat): End {
    if to < U64_MAX || (from == U64_MAX && end.Reached?) then end else Short
  }

  lemma AddNonempty(rs: seq<Range>, from: nat, to: nat)
    ensures |AddTo(rs, from, to)| > 0
  {}

  lemma {:induction false} AddEnd(rs: seq<Range>, from: nat, to: nat)
    requires Canonical(rs) && RangeOk((from, to))
    ensures EndOf(AddTo(rs, from, to)) == EndAdded(EndOf(rs), from, to)
  {
    hide Canonical;
    if |rs| > 0 {
      var rest := rs[1..];
      CanonicalTail(rs);
      if rs[0].1 < from {
        AddEnd(rest, from, to);
        AddNonempty(rest, from, to);
      } else if rs[0].0 <= to {
        AddEnd(rest, Min(from, rs[0].0), Max(to, rs[0].1));
      }
    }
  }

  lemma EndConcat(a: seq<Range>, b: seq<Range>)
    ensures EndOf(a + b) == if |b| > 0 then EndOf(b) else EndOf(a)
  {
    if |b| == 0 {
      assert a + b == a;
    }
  }

  lemma CutEnd(r: Range, from: nat, to: nat)
    requires RangeOk(r) && RangeOk((from, to))
    ensures EndOf(Cut(r, from, to)) == EndRemoved(EndOf([r]), from, to)
  {}

  /** What is left of the ranges before the last one stops short of the end. */
  lemma EarlierShort(rs: seq<Range>, from: nat, to: nat)
    requires Canonical(rs) && RangeOk((from, to)) && |rs| > 0
    ensures EndOf(RemoveFrom(rs[..|rs| - 1], from, to)) == Short
    ensures Canonical(rs[..|rs| - 1]) && RangeOk(rs[|rs| - 1])
  {
    var n := |rs| - 1;
    RemoveCanonical(rs[..n], from, to);
    assert n > 0 ==> rs[n - 1].1 < rs[n].0;
  }

  lemma RemoveEnd(rs: seq<Range>, from: nat, to: nat)
    requires Canonical(rs) && RangeOk((from, to))
    ensures EndOf(RemoveFrom(rs, from, to)) == EndRemoved(EndOf(rs), from, to)
  {
    hide Canonical, Cut;
    if |rs| > 0 {
      var n := |rs| - 1;
      EarlierShort(rs, from, to);
      EndConcat(RemoveFrom(rs[..n], from, to), Cut(rs[n], from, to));
      CutEnd(rs[n], from, to);
    }
  }

  /** A list without its empty range at the end, if it has one. */
  lemma DropEmpty(rs: seq<Range>) returns (kept: seq<Range>)
    requires Canonical(rs)
    ensures Canonical(kept) && Proper(kept)
    ensures forall x: nat :: Covers(kept, x) <==> Covers(rs, x)
    ensures rs == if EndOf(rs).Empty? then kept + [(U64_MAX, U64_MAX)] else kept
  {
    ProperByEnd(rs);
    kept := rs;
    if EndOf(rs).Empty? {
      var n := |rs| - 1;
      assert RangeOk(rs[n]);
      kept := rs[..n];
      assert rs == kept + [rs[n]];
      forall i | 0 <= i < n ensures kept[i].0 < kept[i].1 {
        assert rs[i].1 < rs[n].0;
      }
      forall x: nat ensures Covers(kept, x) <==> Covers(rs, x) {
        CoversConcat(kept, [rs[n]], x);
      }
    }
  }

  /** A canonical list is determined by its bytes and by what it holds at the last address, and determines them. */
  lemma CanonicalExact(a: seq<Range>, b: seq<Range>)
    requires Canonical(a) && Canonical(b)
    ensures a == b <==> (forall x: nat :: Covers(a, x) <==> Covers(b, x)) && EndOf(a) == EndOf(b)
  {
    hide Canonical, Covers, Proper, EndOf;
    if (forall x: nat :: Covers(a, x) <==> Covers(b, x)) && EndOf(a) == EndOf(b) {
      var a' := DropEmpty(a);
      var b' := DropEmpty(b);
      CanonicalUnique(a', b');
    }
  }

  // ----- A log replayed, as a list

  function Added(rs: seq<Range>, start: nat, len: nat): seq<Range> {
    if len == 0 then rs else AddTo(rs, start, SaturatingAdd(start, len))
  }

  function Removed(rs: seq<Range>, start: nat, len: nat): seq<Range> {
    if len == 0 then rs else RemoveFrom(rs, start, SaturatingAdd(start, len))
  }

  /** The list after a log: one union or difference for each entry. */
  function ReplayedList(rs: seq<Range>, entries: seq<Entry>, base: nat): seq<Range> {
    if |entries| == 0 then rs else
      var e := entries[|entries| - 1];
      var before := ReplayedList(rs, entries[..|entries| - 1], base);
      var at := SaturatingAdd(base, e.offset);
      if e.kind.Alloc? then Added(before, at, e.run) else Removed(before, at, e.run)
  }

  /** What a log does at the end of the address space: only its entries that reach the last address matter. */
  function EndReplayed(end: End, entries: seq<Entry>, base: nat): End {
    if |entries| == 0 then end else
      var e := entries[|entries| - 1];
      var before := EndReplayed(end, entries[..|entries| - 1], base);
      var at := SaturatingAdd(base, e.offset);
      if e.run == 0 then before
      else if e.kind.Alloc? then EndAdded(before, at, SaturatingAdd(at, e.run))
      else EndRemoved(before, at, SaturatingAdd(at, e.run))
  }

  /** The list stays canonical, and holds an empty range exactly when the log leaves one at the end. */
  lemma {:induction false} ReplayCanonical(rs: seq<Range>, entries: seq<Entry>, base: nat)
    requires Canonical(rs)
    ensures Canonical(ReplayedList(rs, entries, base))
    ensures EndOf(ReplayedList(rs, entries, base)) == EndReplayed(EndOf(rs), entries, base)
    ensures Proper(ReplayedList(rs, entries, base)) <==> EndReplayed(EndOf(rs), entries, base) != Empty
  {
    hide Canonical, AddTo, RemoveFrom, EndOf, EndAdded, EndRemoved, Proper;
    if |entries| > 0 {
      var e := entries[|entries| - 1];
      ReplayCanonical(rs, entries[..|entries| - 1], base);
      EntryKeeps(ReplayedList(rs, entries[..|entries| - 1], base), SaturatingAdd(base, e.offset), e.run);
    }
    ProperByEnd(ReplayedList(rs, entries, base));
  }

  lemma EntryKeeps(rs: seq<Range>, at: nat, run: nat)
    requires Canonical(rs) && at <= U64_MAX
    ensures Canonical(Added(rs, at, run)) && Canonical(Removed(rs, at, run))
    ensures run > 0 ==> EndOf(Added(rs, at, run)) == EndAdded(EndOf(rs), at, SaturatingAdd(at, run))
    ensures run > 0 ==> EndOf(Removed(rs, at, run)) == EndRemoved(EndOf(rs), at, SaturatingAdd(at, run))
  {
    hide Canonical, AddTo, RemoveFrom, EndOf, EndAdded, EndRemoved;
    if run > 0 {
      AddCanonical(rs, at, SaturatingAdd(at, run));
      AddEnd(rs, at, SaturatingAdd(at, run));
      RemoveCanonical(rs, at, SaturatingAdd(at, run));
      RemoveEnd(rs, at, SaturatingAdd(at, run));
    }
  }

  /** A byte is in the list exactly when the last entry that covers it allocated it, or none does and it was before. */
  lemma {:induction false} ReplayCovers(rs: seq<Range>, entries: seq<Entry>, base: nat, x: nat)
    requires Canonical(rs)
    ensures Covers(ReplayedList(rs, entries, base), x) <==> Replayed(Covers(rs, x), entries, base, x)
  {
    if |entries| > 0 {
      var e := entries[|entries| - 1];
      ReplayCovers(rs, entries[..|entries| - 1], base, x);
      ReplayCanonical(rs, entries[..|entries| - 1], base);
      hide Canonical, AddTo, RemoveFrom, Covers;
      var before := ReplayedList(rs, entries[..|entries| - 1], base);
      var at := SaturatingAdd(base, e.offset);
      AddCovers(before, at, SaturatingAdd(at, e.run), x);
      RemoveCovers(before, at, SaturatingAdd(at, e.run), x);
    }
  }

  /** No allocation starts at the last address. */
  predicate StartsBelowEnd(entries: seq<Entry>, base: nat) {
    forall e :: e in entries && e.kind.Alloc? && e.run > 0 ==> base + e.offset < U64_MAX
  }

  /** Then no log brings an empty range. */
  lemma {:induction false} ReplayStaysProper(end: End, entries: seq<Entry>, base: nat)
    requires end != Empty && StartsBelowEnd(entries, base)
    ensures EndReplayed(end, entries, base) != Empty
  {
    if |entries| > 0 {
      ReplayStaysProper(end, entries[..|entries| - 1], base);
      assert entries[|entries| - 1] in entries;
    }
  }

  /** Two logs leave the same list exactly when they leave the same bytes and the same at the last address. */
  lemma ReplayUnique(rs: seq<Range>, entries: seq<Entry>, base: nat, rs': seq<Range>, entries': seq<Entry>, base': nat)
    requires Canonical(rs) && Canonical(rs')
    ensures ReplayedList(rs, entries, base) == ReplayedList(rs', entries', base') <==>
            (forall x: nat :: Replayed(Covers(rs, x), entries, base, x) <==> Replayed(Covers(rs', x), entries', base', x))
            && EndReplayed(EndOf(rs), entries, base) == EndReplayed(EndOf(rs'), entries', base')
  {
    hide Canonical, Covers, ReplayedList, Replayed, Proper, EndOf, EndReplayed;
    var list, list' := ReplayedList(rs, entries, base), ReplayedList(rs', entries', base');
    ReplayCanonical(rs, entries, base);
    ReplayCanonical(rs', entries', base');
    forall x: nat
      ensures Covers(list, x) <==> Replayed(Covers(rs, x), entries, base, x)
      ensures Covers(list', x) <==> Replayed(Covers(rs', x), entries', base', x)
    {
      ReplayCovers(rs, entries, base, x);
      ReplayCovers(rs', entries', base', x);
    }
    CanonicalExact(list, list');
  }

  class Ranges {
    var ranges: seq<Range>

    constructor ()
      ensures ranges == [] && Valid()
    {
      ranges := [];
    }

    predicate Valid()
      reads this
    {
      Canonical(ranges)
    }

    /** Total bytes covered. */
    method CountBytes() returns (n: int)
      requires Valid()
      ensures n == |ByteSet(ranges)|
    {
      n := 0;
      for i := 0 to |ranges|
        invariant n == TotalBytes(ranges[..i])
      {
        assert ranges[..i + 1][..i] == ranges[..i];
        n := n + (ranges[i].1 as int - ranges[i].0 as int);
      }
      assert ranges[..|ranges|] == ranges;
      TotalIsSize(ranges);
    }

    /** The pass that adds [from, to). */
    method AddPass(from: nat, to: nat) returns (out: seq<Range>)
      requires Valid() && from <= to
      ensures out == AddTo(ranges, from, to)
    {
      hide AddTo, Pending;
      out := [];
      var inserted := false;
      ghost var passed := false;  // a range beyond [from, to) has been copied
      PendingStart(ranges, from, to);
      for i := 0 to |ranges|
        invariant Pending(out, ranges[i..], from, to, inserted, passed) == AddTo(ranges, from, to)
        invariant passed ==> inserted && |out| > 0 && i > 0 && to < ranges[i - 1].0
        invariant !inserted ==> |out| == i && (i > 0 ==> out[i - 1] == ranges[i - 1] && ranges[i - 1].1 < from)
        invariant inserted && !passed ==>
                    |out| > 0 && i > 0 && from <= ranges[i - 1].1 && out[|out| - 1].0 <= from && out[|out| - 1].1 == Max(to, ranges[i - 1].1)
      {
        var (a, b) := ranges[i];
        ghost var rest := ranges[i..];
        assert rest[0] == (a, b) && rest[1..] == ranges[i + 1..];
        if b < from || a > to {
          if b < from {
            PassBelow(out, rest, from, to);
            out := out + [(a, b)];
          } else {
            PassBeyond(out, rest, from, to, inserted, passed);
            passed := true;
            if !inserted {
              out := out + [(from, to)];
              inserted := true;
            }
            out := out + [(a, b)];
          }
        } else {
          var lo, hi := Min(a, from), Max(b, to);
          if |out| > 0 && out[|out| - 1].1 >= lo {
            var last := out[|out| - 1];
            PassNextTouch(out, rest, from, to);
            out := out[|out| - 1 := (last.0, Max(last.1, hi))];
          } else {
            PassFirstTouch(out, rest, from, to);
            out := out + [(lo, hi)];
            inserted := true;
          }
        }
      }
      assert ranges[|ranges|..] == [];
      PassDone(out, from, to, inserted, passed);
      if !inserted {
        out := out + [(from, to)];
      }
    }
  
    /** The pass that takes [from, to) out. */
    method RemovePass(from: nat, to: nat) returns (out: seq<Range>)
      requires Valid() && from <= to
      ensures out == RemoveFrom(ranges, from, to)
    {
      hide RemoveFrom;
      out := [];
      RemoveNone(from, to);
      for i := 0 to |ranges|
        invariant out == RemoveFrom(ranges[..i], from, to)
      {
        RemoveNext(ranges, i, from, to);
        ghost var done := out;
        var (a, b) := ranges[i];
        if b < from || a > to {
          out := out + [(a, b)];
        } else {
          if a < from {
            out := out + [(a, from)];
          }
          if b > to {
            out := out + [(to, b)];
          }
        }
        assert out == done + Cut(ranges[i], from, to);
      }
      assert ranges[..|ranges|] == ranges;
    }

    /** Union with, or difference from, [from, to): the pass, then a sort, then a merge of adjacent ranges. */
    method Apply(from: nat, to: nat, add: bool)
      requires Valid() && RangeOk((from, to))
      modifies this
      ensures Valid()
      ensures ranges == if add then AddTo(old(ranges), from, to) else RemoveFrom(old(ranges), from, to)
    {
      hide AddTo, RemoveFrom, Sort;
      var out;
      if add {
        out := AddPass(from, to);
        AddCanonical(ranges, from, to);
      } else {
        out := RemovePass(from, to);
        RemoveCanonical(ranges, from, to);
      }
      SortCanonical(out);
      ghost var before := out;
      out := Sort(out);
      assert out == before;
      var merged: seq<Range> := [];
      for i := 0 to |out|
        invariant merged == out[..i]
      {
        var (a, b) := out[i];
        if |merged| > 0 && merged[|merged| - 1].1 >= a {
          var last := merged[|merged| - 1];
          merged := merged[|merged| - 1 := (last.0, Max(last.1, b))];
        } else {
          merged := merged + [(a, b)];
        }
      }
      assert out[..|out|] == out;
      ranges := merged;
    }

    /** Add [start, start + len). */
    method Add(start: nat, len: nat)
      requires Valid() && start <= U64_MAX
      modifies this
      ensures Valid()
      ensures ranges == Added(old(ranges), start, len)
      ensures forall x: nat :: Covers(ranges, x) <==> Covers(old(ranges), x) || start <= x < SaturatingAdd(start, len)
      // The list stays free of empty ranges exactly when the range added is not cut to nothing at the end of the address space.
      ensures Proper(old(ranges)) ==> (Proper(ranges) <==> len == 0 || start < U64_MAX || ReachesEnd(old(ranges)))
    {
      if len == 0 {
        return;
      }
      var from, to := start, SaturatingAdd(start, len);
      forall x: nat ensures Covers(AddTo(ranges, from, to), x) <==> Covers(ranges, x) || from <= x < to {
        AddCovers(ranges, from, to, x);
      }
      if Proper(ranges) { AddProper(ranges, from, to); }
      hide AddTo, Covers;
      Apply(from, to, true);
    }

    /** Take [start, start + len) out. */
    method Remove(start: nat, len: nat)
      requires Valid() && start <= U64_MAX
      modifies this
      ensures Valid()
      ensures ranges == Removed(old(ranges), start, len)
      ensures forall x: nat :: Covers(ranges, x) <==> Covers(old(ranges), x) && !(start <= x < SaturatingAdd(start, len))
      ensures Proper(old(ranges)) ==> Proper(ranges)
    {
      if len == 0 {
        return;
      }
      var from, to := start, SaturatingAdd(start, len);
      forall x: nat ensures Covers(RemoveFrom(ranges, from, to), x) <==> Covers(ranges, x) && !(from <= x < to) {
        RemoveCovers(ranges, from, to, x);
      }
      RemoveCanonical(ranges, from, to);
      hide RemoveFrom, Covers;
      Apply(from, to, false);
    }

    /** True exactly when a nonempty query meets the set; an empty query has an answer of its own. */
    method Intersects(start: nat, len: nat) returns (r: bool)
      requires Valid() && start <= U64_MAX
      ensures len > 0 ==> (r <==> exists x: nat :: start <= x < SaturatingAdd(start, len) && Covers(ranges, x))
      // An empty query answers whether start is strictly inside a range.
      ensures len == 0 ==> (r <==> exists i :: 0 <= i < |ranges| && ranges[i].0 < start < ranges[i].1)
    {
      var end := SaturatingAdd(start, len);
      r := false;
      for i := 0 to |ranges|
        invariant !r && forall j :: 0 <= j < i ==> !(ranges[j].0 < end && start < ranges[j].1)
      {
        if ranges[i].0 < end && start < ranges[i].1 {
          ghost var x := Max(start, ranges[i].0);
          if len > 0 {
            assert Within(ranges[i], x);
            assert Covers(ranges, x);
          }
          return true;
        }
      }
    }

    /** Entry by entry, allocations are united with the set and frees taken from it. */
    method Replay(entries: seq<Entry>, base: nat)
      requires Valid()
      modifies this
      ensures Valid()
      ensures ranges == ReplayedList(old(ranges), entries, base)
      ensures forall x: nat :: Covers(ranges, x) <==> Replayed(Covers(old(ranges), x), entries, base, x)
      // An empty range is left exactly when the log leaves one at the end of the address space, ...
      ensures Proper(ranges) <==> EndReplayed(EndOf(old(ranges)), entries, base) != Empty
      // ... so none when no allocation starts at the last address.
      ensures Proper(old(ranges)) && StartsBelowEnd(entries, base) ==> Proper(ranges)
    {
      hide Covers, Proper, EndOf, EndReplayed, Replayed, Added, Removed;
      for i := 0 to |entries|
        invariant Valid()
        invariant ranges == ReplayedList(old(ranges), entries[..i], base)
      {
        assert entries[..i + 1][..i] == entries[..i];
        var e := entries[i];
        var at := SaturatingAdd(base, e.offset);
        match e.kind
        case Alloc => Add(at, e.run);
        case Free => Remove(at, e.run);
      }
      assert entries[..|entries|] == entries;
      ReplayCanonical(old(ranges), entries, base);
      ProperByEnd(old(ranges));
      if EndOf(old(ranges)) != Empty && StartsBelowEnd(entries, base) {
        ReplayStaysProper(EndOf(old(ranges)), entries, base);
      }
      forall x: nat ensures Covers(ranges, x) <==> Replayed(Covers(old(ranges), x), entries, base, x) {
        ReplayCovers(old(ranges), entries, base, x);
      }
    }
  }

  lemma PendingStart(rs: seq<Range>, from: nat, to: nat)
    ensures Pending([], rs[0..], from, to, false, false) == AddTo(rs, from, to)
  {
    assert rs[0..] == rs;
  }
}
