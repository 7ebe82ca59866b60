/** The log a space map is: 64-bit words that are markers, one-word entries and two-word entries. */
module SpaceLog {
  import opened Wrappers
  import opened Octets
  import opened Arith
  import opened SpaceRanges

  datatype Step = Mapped(entry: Entry) | Debug(txg: nat, syncPass: nat)

  /** A multiple of 2^shift, as 64 bits keep it. */
  function Scaled(n: nat, shift: nat): nat {
    n * Pow2(shift) % 0x1_0000_0000_0000_0000
  }

  function KindOf(bit: nat): MapType {
    if bit == 0 then Alloc else Free
  }

  /** The step at word `at` and the words it takes; none when a two-word entry is cut short. */
  function Decode(words: seq<U64>, at: nat, shift: nat): (r: Option<(Step, nat)>)
    requires shift < 64
    ensures r.Some? ==> 1 <= r.value.1 <= 2 && at + r.value.1 <= |words|
  {
    if at >= |words| then None else
      var w := words[at];
      var prefix := w / 0x4000_0000_0000_0000;
      if prefix == 2 then
        Some((Debug(w % 0x4_0000_0000_0000, w / 0x4_0000_0000_0000 % 0x400), 1))
      else if prefix == 3 then
        if at + 1 >= |words| then None else
          var second := words[at + 1];
          var run := w / 0x100_0000 % 0x10_0000_0000 + 1;
          var vdev := w % 0x100_0000;
          var kind := KindOf(second / 0x8000_0000_0000_0000);
          var offset := second % 0x8000_0000_0000_0000;
          Some((Mapped(Entry(kind, Scaled(offset, shift), Scaled(run, shift), Some(vdev))), 2))
      else
        var offset := w / 0x1_0000 % 0x8000_0000_0000;
        var kind := KindOf(w / 0x8000 % 2);
        var run := w % 0x8000 + 1;
        Some((Mapped(Entry(kind, Scaled(offset, shift), Scaled(run, shift), None)), 1))
  }

  /** The entries from word `at` on, markers dropped. */
  function EntriesFrom(words: seq<U64>, at: nat, shift: nat): seq<Entry>
    requires shift < 64
    decreases |words| - at
  {
    match Decode(words, at, shift)
    case None => []
    case Some((Mapped(e), n)) => [e] + EntriesFrom(words, at + n, shift)
    case Some((Debug(_, _), n)) => EntriesFrom(words, at + n, shift)
  }

  /** The whole words in b. */
  function WordsIn(b: Bytes, endian: Endian): (ws: seq<U64>)
    ensures |ws| == |b| / 8
  {
    if |b| < 8 then [] else
      Pow256Is();
      [Read(endian, b[..8])] + WordsIn(b[8..], endian)
  }

  method Entries(bytes: Bytes, shift: nat, endian: Endian) returns (out: seq<Entry>)
    requires shift < 64
    ensures out == EntriesFrom(WordsIn(bytes, endian), 0, shift)
  {
    hide Decode;
    var words := WordsIn(bytes, endian);
    out := [];
    var at := 0;
    while at < |words|
      invariant at <= |words|
      invariant out + EntriesFrom(words, at, shift) == EntriesFrom(words, 0, shift)
    {
      var step := Decode(words, at, shift);
      if step.None? {
        assert out + [] == out;
        return;
      }
      var (s, n) := step.value;
      match s {
        case Mapped(e) =>
          assert out + ([e] + EntriesFrom(words, at + n, shift)) == out + [e] + EntriesFrom(words, at + n, shift);
          out := out + [e];
        case Debug(_, _) =>
      }
      at := at + n;
    }
    assert Decode(words, at, shift).None?;
    assert out + [] == out;
  }

  // ----- What is in a log

  /** A record of the log, in units of 2^shift bytes. */
  datatype Record =
    | Marker(txg: nat, syncPass: nat)
    | Short(kind: MapType, offset: nat, run: nat)
    | Long(kind: MapType, vdev: nat, offset: nat, run: nat)
  {
    /** The fields fit the bits they have. */
    predicate Valid() {
      match this
      case Marker(txg, pass) => txg < 0x4_0000_0000_0000 && pass < 0x400
      case Short(_, offset, run) => offset < 0x8000_0000_0000 && 1 <= run <= 0x8000
      case Long(_, vdev, offset, run) => vdev < 0x100_0000 && offset < 0x8000_0000_0000_0000 && 1 <= run <= 0x10_0000_0000
    }

    function Words(): (ws: seq<U64>)
      requires Valid()
      ensures 1 <= |ws| <= 2
    {
      match this
      case Marker(txg, pass) => [2 * 0x4000_0000_0000_0000 + pass * 0x4_0000_0000_0000 + txg]
      case Short(kind, offset, run) => [offset * 0x1_0000 + Bit(kind) * 0x8000 + (run - 1)]
      case Long(kind, vdev, offset, run) =>
        [3 * 0x4000_0000_0000_0000 + (run - 1) * 0x100_0000 + vdev, Bit(kind) * 0x8000_0000_0000_0000 + offset]
    }

    function Step(shift: nat): Step {
      match this
      case Marker(txg, pass) => Debug(txg, pass)
      case Short(kind, offset, run) => Mapped(Entry(kind, Scaled(offset, shift), Scaled(run, shift), None))
      case Long(kind, vdev, offset, run) => Mapped(Entry(kind, Scaled(offset, shift), Scaled(run, shift), Some(vdev)))
    }
  }

  function Bit(kind: MapType): (b: nat)
    ensures b <= 1
  {
    if kind.Alloc? then 0 else 1
  }

  predicate Recorded(rs: seq<Record>) {
    forall r :: r in rs ==> r.Valid()
  }

  function LogWords(rs: seq<Record>): seq<U64>
    requires Recorded(rs)
  {
    if rs == [] then [] else rs[0].Words() + LogWords(rs[1..])
  }

  /** The entries a log records, in order. */
  function LogEntries(rs: seq<Record>, shift: nat): seq<Entry> {
    if rs == [] then [] else
      match rs[0].Step(shift)
      case Mapped(e) => [e] + LogEntries(rs[1..], shift)
      case Debug(_, _) => LogEntries(rs[1..], shift)
  }

  lemma MarkerBits(txg: nat, pass: nat, w: nat)
    requires txg < 0x4_0000_0000_0000 && pass < 0x400
    requires w == 2 * 0x4000_0000_0000_0000 + pass * 0x4_0000_0000_0000 + txg
    ensures w / 0x4000_0000_0000_0000 == 2
    ensures w % 0x4_0000_0000_0000 == txg && w / 0x4_0000_0000_0000 % 0x400 == pass
  {
    DivIs(w, 0x4_0000_0000_0000, 0x2000 + pass, txg);
  }

  lemma ShortBits(bit: nat, offset: nat, run: nat, w: nat)
    requires bit <= 1 && offset < 0x8000_0000_0000 && 1 <= run <= 0x8000
    requires w == offset * 0x1_0000 + bit * 0x8000 + (run - 1)
    ensures w / 0x4000_0000_0000_0000 < 2
    ensures w / 0x1_0000 % 0x8000_0000_0000 == offset && w / 0x8000 % 2 == bit && w % 0x8000 + 1 == run
  {
    DivIs(w, 0x1_0000, offset, bit * 0x8000 + (run - 1));
    DivIs(w, 0x8000, 2 * offset + bit, run - 1);
  }

  lemma LongBits(vdev: nat, run: nat, w: nat)
    requires vdev < 0x100_0000 && 1 <= run <= 0x10_0000_0000
    requires w == 3 * 0x4000_0000_0000_0000 + (run - 1) * 0x100_0000 + vdev
    ensures w / 0x4000_0000_0000_0000 == 3
    ensures w / 0x100_0000 % 0x10_0000_0000 + 1 == run && w % 0x100_0000 == vdev
  {
    DivIs(w, 0x100_0000, 3 * 0x40_0000_0000 + (run - 1), vdev);
  }

  lemma LongOffset(bit: nat, offset: nat, w: nat)
    requires bit <= 1 && offset < 0x8000_0000_0000_0000 && w == bit * 0x8000_0000_0000_0000 + offset
    ensures w / 0x8000_0000_0000_0000 == bit && w % 0x8000_0000_0000_0000 == offset
  {}

  lemma FirstWord(words: seq<U64>, at: nat, ws: seq<U64>)
    requires ws != [] && at + |ws| <= |words| && words[at..at + |ws|] == ws
    ensures forall i :: 0 <= i < |ws| ==> words[at + i] == ws[i]
  {
    forall i | 0 <= i < |ws| ensures words[at + i] == ws[i] {
      assert words[at..at + |ws|][i] == words[at + i];
    }
  }

  lemma MarkerDecodes(words: seq<U64>, at: nat, r: Record, shift: nat)
    requires shift < 64 && r.Valid() && r.Marker? && at < |words| && words[at] == r.Words()[0]
    ensures Decode(words, at, shift) == Some((r.Step(shift), 1))
  {
    MarkerBits(r.txg, r.syncPass, words[at]);
  }

  lemma ShortDecodes(words: seq<U64>, at: nat, r: Record, shift: nat)
    requires shift < 64 && r.Valid() && r.Short? && at < |words| && words[at] == r.Words()[0]
    ensures Decode(words, at, shift) == Some((r.Step(shift), 1))
  {
    hide Scaled;
    ShortBits(Bit(r.kind), r.offset, r.run, words[at]);
  }

  lemma LongDecodes(words: seq<U64>, at: nat, r: Record, shift: nat)
    requires shift < 64 && r.Valid() && r.Long? && at + 1 < |words|
    requires words[at] == r.Words()[0] && words[at + 1] == r.Words()[1]
    ensures Decode(words, at, shift) == Some((r.Step(shift), 2))
  {
    hide Scaled;
    LongBits(r.vdev, r.run, words[at]);
    LongOffset(Bit(r.kind), r.offset, words[at + 1]);
  }

  /** A record's words say the record, wherever they are. */
  lemma RecordDecodes(words: seq<U64>, at: nat, r: Record, shift: nat)
    requires shift < 64 && r.Valid()
    requires at + |r.Words()| <= |words| && words[at..at + |r.Words()|] == r.Words()
    ensures Decode(words, at, shift) == Some((r.Step(shift), |r.Words()|))
  {
    hide Decode, Record.Step;
    FirstWord(words, at, r.Words());
    assert words[at] == words[at + 0];
    match r
    case Marker(_, _) => MarkerDecodes(words, at, r, shift);
    case Short(_, _, _) => ShortDecodes(words, at, r, shift);
    case Long(_, _, _, _) => LongDecodes(words, at, r, shift);
  }

  /** Reading from a word is reading what is left. */
  lemma {:induction false} EntriesAt(words: seq<U64>, more: seq<U64>, at: nat, shift: nat)
    requires shift < 64
    ensures EntriesFrom(words + more, |words| + at, shift) == EntriesFrom(more, at, shift)
    decreases |more| - at
  {
    hide Decode;
    DecodeAt(words, more, at, shift);
    match Decode(more, at, shift)
    case None =>
    case Some((_, n)) => EntriesAt(words, more, at + n, shift);
  }

  lemma DecodeAt(words: seq<U64>, more: seq<U64>, at: nat, shift: nat)
    requires shift < 64
    ensures Decode(words + more, |words| + at, shift) == Decode(more, at, shift)
  {
    hide Scaled;
    if at < |more| {
      assert (words + more)[|words| + at] == more[at];
    }
    if at + 1 < |more| {
      assert (words + more)[|words| + at + 1] == more[at + 1];
    }
  }

  /** The words of a log give its entries, and reading goes on with the words after them. */
  lemma {:induction false} LogDecodes(rs: seq<Record>, tail: seq<U64>, shift: nat)
    requires shift < 64 && Recorded(rs)
    ensures EntriesFrom(LogWords(rs) + tail, 0, shift) == LogEntries(rs, shift) + EntriesFrom(tail, 0, shift)
  {
    hide Decode, Record.Words, Record.Step;
    if rs == [] {
      assert LogWords(rs) + tail == tail;
      assert [] + EntriesFrom(tail, 0, shift) == EntriesFrom(tail, 0, shift);
    } else {
      var ws, more := rs[0].Words(), LogWords(rs[1..]) + tail;
      assert LogWords(rs) + tail == ws + more;
      RecordDecodes(ws + more, 0, rs[0], shift);
      EntriesAt(ws, more, 0, shift);
      LogDecodes(rs[1..], tail, shift);
      if rs[0].Step(shift).Mapped? {
        var e := rs[0].Step(shift).entry;
        assert [e] + (LogEntries(rs[1..], shift) + EntriesFrom(tail, 0, shift)) == LogEntries(rs, shift) + EntriesFrom(tail, 0, shift);
      }
    }
  }

  /** A two-word entry cut after its first word gives nothing. */
  lemma CutShort(r: Record, shift: nat)
    requires shift < 64 && r.Valid() && r.Long?
    ensures EntriesFrom(r.Words()[..1], 0, shift) == []
  {
    var w := r.Words()[..1][0];
    LongBits(r.vdev, r.run, w);
  }

  function Write(endian: Endian, w: U64): (b: Bytes)
    ensures |b| == 8
  {
    if endian.Little? then ToLe(w, 8) else ToBe(w, 8)
  }

  function LogBytes(ws: seq<U64>, endian: Endian): Bytes {
    if ws == [] then [] else Write(endian, ws[0]) + LogBytes(ws[1..], endian)
  }

  lemma WordBack(w: U64, endian: Endian, more: Bytes)
    ensures WordsIn(Write(endian, w) + more, endian) == [w] + WordsIn(more, endian)
  {
    Pow256Is();
    BeRoundTrip(w, 8);
    LeRoundTrip(w, 8);
    hide ToLe, ToBe, FromLe, FromBe;
    var b := Write(endian, w) + more;
    assert b[..8] == Write(endian, w) && b[8..] == more;
  }

  lemma {:induction false} WordsBack(ws: seq<U64>, endian: Endian, rest: Bytes)
    ensures WordsIn(LogBytes(ws, endian) + rest, endian) == ws + WordsIn(rest, endian)
  {
    hide Write, WordsIn;
    if ws == [] {
      assert [] + rest == rest;
      assert [] + WordsIn(rest, endian) == WordsIn(rest, endian);
    } else {
      var more := LogBytes(ws[1..], endian) + rest;
      assert LogBytes(ws, endian) + rest == Write(endian, ws[0]) + more;
      WordBack(ws[0], endian, more);
      WordsBack(ws[1..], endian, rest);
      assert [ws[0]] + (ws[1..] + WordsIn(rest, endian)) == ws + WordsIn(rest, endian);
    }
  }

  /** A log in bytes of either order, with a cut word or entry after it, gives exactly its entries. */
  lemma LogRoundTrip(rs: seq<Record>, cut: seq<U64>, rest: Bytes, shift: nat, endian: Endian)
    requires shift < 64 && Recorded(rs) && |rest| < 8
    requires cut == [] || exists r: Record :: r.Valid() && r.Long? && cut == r.Words()[..1]
    ensures EntriesFrom(WordsIn(LogBytes(LogWords(rs) + cut, endian) + rest, endian), 0, shift) == LogEntries(rs, shift)
  {
    hide Decode, LogBytes, LogEntries, LogWords;
    WordsBack(LogWords(rs) + cut, endian, rest);
    assert LogWords(rs) + cut + [] == LogWords(rs) + cut;
    LogDecodes(rs, cut, shift);
    NoEntries(cut, shift);
    assert LogEntries(rs, shift) + [] == LogEntries(rs, shift);
  }

  lemma NoEntries(cut: seq<U64>, shift: nat)
    requires shift < 64
    requires cut == [] || exists r: Record :: r.Valid() && r.Long? && cut == r.Words()[..1]
    ensures EntriesFrom(cut, 0, shift) == []
  {
    if cut != [] {
      var r: Record :| r.Valid() && r.Long? && cut == r.Words()[..1];
      CutShort(r, shift);
    }
  }
}
