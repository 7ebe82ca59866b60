/** Reading an object: the walk down its indirect blocks, and byte ranges across its data blocks. */
module ObjectReader {
  import opened Wrappers
  import opened Arith
  import opened Octets

  const POINTER_SIZE: nat := 128

  type Data = seq<nat>

  /** What the walk needs of a block pointer: whether it is a hole, its byte order, and which block it names. */
  datatype BlkPtr = BlkPtr(hole: bool, endian: Endian, id: nat)

  datatype ReadError = Unreadable(bp: BlkPtr) | IndirectTooSmall(index: nat) | BadPointer | ZeroBlockSize

  datatype Dnode = Dnode(indblkshift: nat, nlevels: nat, blkptr: seq<BlkPtr>, datablksz: nat)

  /** The pool: reading a block and decoding a pointer may both fail. */
  datatype Pool = Pool(read: BlkPtr -> Option<Data>, parse: (Data, Endian) -> Option<BlkPtr>)

  datatype Reader = Reader(pool: Pool, dnode: Dnode, endian: Endian) {

    /** An indirect block holds 2^Epbs pointers; blocks smaller than one pointer count as one. */
    function Epbs(): nat {
      if dnode.indblkshift < 7 then 0 else dnode.indblkshift - 7
    }

    /** Every shift the walk makes is below the word size. */
    predicate ShiftsFit() {
      dnode.nlevels < 2 || (Epbs() < 64 && Times(Epbs(), dnode.nlevels - 2) < 64)
    }

    /** The child pointer number `index` of an indirect block. */
    function Child(bp: BlkPtr, index: nat): Result<BlkPtr, ReadError> {
      match pool.read(bp)
      case None => Err(Unreadable(bp))
      case Some(data) =>
        var at := index * POINTER_SIZE;
        if at + POINTER_SIZE > |data| then Err(IndirectTooSmall(index))
        else
          match pool.parse(data[at..at + POINTER_SIZE], bp.endian)
          case None => Err(BadPointer)
          case Some(child) => Ok(child)
    }

    /** The digit of blkid that selects the child at this level. */
    function Digit(blkid: nat, level: nat): nat
      requires level > 0
    {
      Rem(Quot(blkid, Pow2(Times(Epbs(), level - 1))), Pow2(Epbs()))
    }

    /** The walk from bp down to level 0. */
    function Walk(bp: BlkPtr, level: nat, blkid: nat): Result<Option<BlkPtr>, ReadError>
      decreases level
    {
      if bp.hole then Ok(None)
      else if level == 0 then Ok(Some(bp))
      else
        match Child(bp, Digit(blkid, level))
        case Err(e) => Err(e)
        case Ok(child) => Walk(child, level - 1, blkid)
    }

    /** The level-0 pointer of block blkid, or none when the path runs through a hole or past the dnode. */
    function Located(blkid: nat): Result<Option<BlkPtr>, ReadError> {
      if dnode.nlevels == 0 then Ok(None)
      else
        var top := Quot(blkid, Pow2(Times(Epbs(), dnode.nlevels - 1)));
        if top >= |dnode.blkptr| then Ok(None) else Walk(dnode.blkptr[top], dnode.nlevels - 1, blkid)
    }

    /** The loop over levels computes the walk, whatever the shifts. */
    method Locate(blkid: nat) returns (r: Result<Option<BlkPtr>, ReadError>)
      requires blkid <= U64_MAX && ShiftsFit()
      ensures r == Located(blkid)
    {
      hide Times, Quot, Rem, Pow2;
      var levels := dnode.nlevels;
      if levels == 0 {
        return Ok(None);
      }
      var topShift := Times(Epbs(), levels - 1);
      var topIndex := if topShift >= 64 then 0 else Quot(blkid, Pow2(topShift));
      TopShift(blkid, topShift);
      if topIndex >= |dnode.blkptr| {
        return Ok(None);
      }
      var bp := dnode.blkptr[topIndex];
      var level := levels - 1;
      while level > 0
        invariant 0 <= level < levels
        invariant Walk(bp, level, blkid) == Located(blkid)
      {
        if bp.hole {
          return Ok(None);
        }
        var block := pool.read(bp);
        if block.None? {
          return Err(Unreadable(bp));
        }
        var shift := Times(Epbs(), level - 1);
        var index := Rem(Quot(blkid, Pow2(shift)), Pow2(Epbs()));
        var at := index * POINTER_SIZE;
        if at + POINTER_SIZE > |block.value| {
          return Err(IndirectTooSmall(index));
        }
        var child := pool.parse(block.value[at..at + POINTER_SIZE], bp.endian);
        if child.None? {
          return Err(BadPointer);
        }
        bp := child.value;
        level := level - 1;
      }
      return Ok(if bp.hole then None else Some(bp));
    }

    // ----- Blocks and ranges

    /** Data cut or zero-filled to the block size. */
    static function Resized(data: Data, size: nat): (r: Data)
      ensures |r| == size
    {
      if size <= |data| then data[..size] else data + seq(size - |data|, i => 0)
    }

    /** Block blkid: exactly datablksz bytes, zeros for a hole, with the byte order it was written in. */
    function Block(blkid: nat): (r: Result<(Data, Endian), ReadError>)
      ensures r.Ok? ==> |r.value.0| == dnode.datablksz
    {
      match Located(blkid)
      case Err(e) => Err(e)
      case Ok(None) => Ok((Resized([], dnode.datablksz), endian))
      case Ok(Some(bp)) =>
        match pool.read(bp)
        case None => Err(Unreadable(bp))
        case Some(data) => Ok((Resized(data, dnode.datablksz), bp.endian))
    }

    method ReadBlkid(blkid: nat) returns (r: Result<(Data, Endian), ReadError>)
      requires blkid <= U64_MAX && ShiftsFit()
      ensures r == Block(blkid)
    {
      var found := Locate(blkid);
      match found
      case Err(e) => r := Err(e);
      case Ok(None) => r := Ok((Resized([], dnode.datablksz), endian));
      case Ok(Some(bp)) =>
        var data := pool.read(bp);
        if data.None? {
          r := Err(Unreadable(bp));
        } else {
          r := Ok((Resized(data.value, dnode.datablksz), bp.endian));
        }
    }

    /** Byte x of the object, which lies in block x / datablksz. */
    function ByteAt(x: nat): nat
      requires dnode.datablksz > 0
    {
      var b := Block(Quot(x, dnode.datablksz));
      if b.Ok? then b.value.0[Rem(x, dnode.datablksz)] else 0
    }

    /** The object as a flat array of bytes, from offset on. */
    function FlatBytes(offset: nat, len: nat): (d: Data)
      requires dnode.datablksz > 0
      ensures |d| == len && forall j :: 0 <= j < len ==> d[j] == ByteAt(offset + j)
    {
      seq<nat>(len, j requires 0 <= j < len => ByteAt(offset + j))
    }

    predicate FailsAt(x: nat, e: ReadError)
      requires dnode.datablksz > 0
    {
      Block(Quot(x, dnode.datablksz)) == Err(e)
    }

    predicate ReadableAt(x: nat)
      requires dnode.datablksz > 0
    {
      Block(Quot(x, dnode.datablksz)).Ok?
    }

    /** Read len bytes at byte `offset` of the object. */
    method ReadRange(offset: nat, len: nat) returns (r: Result<Data, ReadError>)
      requires offset + len <= U64_MAX && ShiftsFit()
      ensures dnode.datablksz == 0 ==> r == Err(ZeroBlockSize)
      ensures dnode.datablksz > 0 && r.Ok? ==>
                r.value == FlatBytes(offset, len) && forall x :: offset <= x < offset + len ==> ReadableAt(x)
      // It fails only with the error of the first unreadable block of the range.
      ensures dnode.datablksz > 0 && r.Err? ==>
                exists x :: offset <= x < offset + len && FailsAt(x, r.error) && forall y :: offset <= y < x ==> ReadableAt(y)
    {
      hide Quot, Rem, Times, Reader.Block, Reader.ByteAt, Reader.FlatBytes;
      var bs := dnode.datablksz;
      if bs == 0 {
        return Err(ZeroBlockSize);
      }
      var out: Data := [];
      var pos, end := offset, offset + len;
      while pos < end
        invariant offset <= pos <= end
        invariant out == FlatBytes(offset, pos - offset)
        invariant forall x :: offset <= x < pos ==> ReadableAt(x)
      {
        var blkid, within := Quot(pos, bs), Rem(pos, bs);
        var take := if bs - within < end - pos then bs - within else end - pos;
        QuotRem(pos, bs);
        QuotSmall(pos, bs);
        var block := ReadBlkid(blkid);
        if block.Err? {
          assert FailsAt(pos, block.error);
          return Err(block.error);
        }
        SliceIsFlat(pos, take);
        forall x | pos <= x < pos + take ensures ReadableAt(x) {
          QuotRemIs(blkid, bs, within + (x - pos));
        }
        assert FlatBytes(offset, pos - offset) + FlatBytes(pos, take) == FlatBytes(offset, pos - offset + take);
        out := out + block.value.0[within..within + take];
        pos := pos + take;
      }
      return Ok(out);
    }

    /** Inside one block, the flat bytes are a slice of it. */
    lemma SliceIsFlat(pos: nat, take: nat)
      requires dnode.datablksz > 0 && ReadableAt(pos) && Rem(pos, dnode.datablksz) + take <= dnode.datablksz
      ensures FlatBytes(pos, take) == Block(Quot(pos, dnode.datablksz)).value.0[Rem(pos, dnode.datablksz)..Rem(pos, dnode.datablksz) + take]
    {
      hide Quot, Rem, Times, Reader.Block;
      var bs := dnode.datablksz;
      QuotRem(pos, bs);
      forall j | 0 <= j < take
        ensures FlatBytes(pos, take)[j] == Block(Quot(pos, bs)).value.0[Rem(pos, bs) + j]
      {
        QuotRemIs(Quot(pos, bs), bs, Rem(pos, bs) + j);
      }
    }
  }

  lemma QuotSmall(a: nat, d: nat)
    requires d > 0
    ensures Quot(a, d) <= a
  {
    QuotRem(a, d);
    TimesGrows(Quot(a, d), d);
  }

  lemma TimesGrows(a: nat, d: nat)
    requires d > 0
    ensures a <= Times(a, d)
  {}

  /** A 64-bit block number shifted by 64 or more is zero, whatever branch computes it. */
  lemma TopShift(blkid: nat, shift: nat)
    requires blkid <= U64_MAX
    ensures shift >= 64 ==> Quot(blkid, Pow2(shift)) == 0
  {
    if shift >= 64 {
      Pow2Add(64, shift - 64);
      Pow2Of64();
      TimesGrows(Pow2(64), Pow2(shift - 64));
      TimesAdd(0, 0, Pow2(shift));
      QuotRemIs(0, Pow2(shift), blkid);
    }
  }

  lemma Pow2Of64()
    ensures Pow2(64) == U64_MAX + 1
  {
    Pow2Of16();
    hide Pow2;
    Pow2Add(16, 16);
    Pow2Add(32, 32);
  }

  lemma Pow2Of16()
    ensures Pow2(16) == 0x1_0000
  {
    Pow2Add(8, 8);
  }

  // ----- The tree the pointers describe

  /** A subtree of block pointers: a hole at any level, a data block, or an indirect block with its children. */
  datatype Tree = Absent | Leaf(bp: BlkPtr) | Node(bp: BlkPtr, kids: seq<Tree>)

  /** Data blocks below one pointer at `level`. */
  function Leaves(r: Reader, level: nat): (n: nat)
    ensures n > 0
  {
    Pow2(Times(r.Epbs(), level))
  }

  lemma LeavesStep(r: Reader, level: nat)
    ensures Leaves(r, level + 1) == Times(Pow2(r.Epbs()), Leaves(r, level))
    ensures Leaves(r, 0) == 1
  {
    TimesComm(r.Epbs(), level);
    TimesComm(r.Epbs(), level + 1);
    TimesAdd(level, 1, r.Epbs());
    Pow2Add(r.Epbs(), Times(r.Epbs(), level));
    assert Times(r.Epbs(), 0) == 0;
  }

  /** t is what the pool holds under bp, read as a pointer of the given level. */
  ghost predicate Represents(r: Reader, bp: BlkPtr, t: Tree, level: nat)
    decreases level
  {
    if bp.hole then t == Absent
    else if level == 0 then t == Leaf(bp)
    else
      && t.Node? && t.bp == bp && |t.kids| == Pow2(r.Epbs())
      && forall i :: 0 <= i < |t.kids| ==> r.Child(bp, i).Ok? && Represents(r, r.Child(bp, i).value, t.kids[i], level - 1)
  }

  /** The subtree's leaves from left to right; a hole stands for all the leaves it covers. */
  function Flatten(r: Reader, t: Tree, level: nat): seq<Option<BlkPtr>>
    decreases t
  {
    match t
    case Absent => seq(Leaves(r, level), i => None)
    case Leaf(bp) => [Some(bp)]
    case Node(bp, kids) => FlattenAll(r, kids, if level > 0 then level - 1 else 0)
  }

  function FlattenAll(r: Reader, ts: seq<Tree>, level: nat): seq<Option<BlkPtr>>
    decreases ts
  {
    if |ts| == 0 then [] else Flatten(r, ts[0], level) + FlattenAll(r, ts[1..], level)
  }

  lemma {:induction false} FlattenAllIndex(r: Reader, ts: seq<Tree>, level: nat, idx: nat)
    requires forall i :: 0 <= i < |ts| ==> |Flatten(r, ts[i], level)| == Leaves(r, level)
    ensures |FlattenAll(r, ts, level)| == Times(|ts|, Leaves(r, level))
    ensures idx < |FlattenAll(r, ts, level)| ==>
              Quot(idx, Leaves(r, level)) < |ts| && FlattenAll(r, ts, level)[idx] == Flatten(r, ts[Quot(idx, Leaves(r, level))], level)[Rem(idx, Leaves(r, level))]
    decreases |ts|
  {
    hide Times, Quot, Rem, Flatten;
    var w := Leaves(r, level);
    hide Leaves;
    TimesAdd(0, 0, w);
    if |ts| > 0 {
      TimesAdd(1, |ts| - 1, w);
      var later := if idx < w then 0 else idx - w;
      FlattenAllIndex(r, ts[1..], level, later);
      if idx < w {
        QuotRemIs(0, w, idx);
      } else {
        QuotAdd(1, later, w);
      }
    }
  }

  lemma {:induction false} FlattenSize(r: Reader, bp: BlkPtr, t: Tree, level: nat)
    requires Represents(r, bp, t, level)
    ensures |Flatten(r, t, level)| == Leaves(r, level)
    decreases level
  {
    hide Times;
    if bp.hole {
    } else if level == 0 {
      LeavesStep(r, 0);
    } else {
      hide Leaves;
      forall i | 0 <= i < |t.kids| ensures |Flatten(r, t.kids[i], level - 1)| == Leaves(r, level - 1) {
        FlattenSize(r, r.Child(bp, i).value, t.kids[i], level - 1);
      }
      FlattenAllIndex(r, t.kids, level - 1, 0);
      LeavesStep(r, level - 1);
    }
  }

  /** The walk finds leaf number blkid (modulo the subtree's size) of the flattened subtree. */
  lemma {:induction false} WalkIsIndexing(r: Reader, bp: BlkPtr, t: Tree, level: nat, blkid: nat)
    requires Represents(r, bp, t, level)
    ensures |Flatten(r, t, level)| == Leaves(r, level)
    ensures r.Walk(bp, level, blkid) == Ok(Flatten(r, t, level)[Rem(blkid, Leaves(r, level))])
    decreases level
  {
    hide Times, Quot, Rem, Leaves;
    FlattenSize(r, bp, t, level);
    if bp.hole {
    } else if level == 0 {
      LeavesStep(r, 0);
      TimesAdd(0, 1, 1);
    } else {
      var w, b := Leaves(r, level - 1), Pow2(r.Epbs());
      var digit := r.Digit(blkid, level);
      LeavesStep(r, level - 1);
      QuotQuot(blkid, w, b);
      var idx := Rem(blkid, Times(b, w));
      DigitIs(r, blkid, level);
      RemRem(blkid, w, b);
      WalkIsIndexing(r, r.Child(bp, digit).value, t.kids[digit], level - 1, blkid);
      forall i | 0 <= i < |t.kids| ensures |Flatten(r, t.kids[i], level - 1)| == Leaves(r, level - 1) {
        FlattenSize(r, r.Child(bp, i).value, t.kids[i], level - 1);
      }
      FlattenAllIndex(r, t.kids, level - 1, idx);
    }
  }

  lemma DigitIs(r: Reader, blkid: nat, level: nat)
    requires level > 0
    ensures r.Digit(blkid, level) == Rem(Quot(blkid, Leaves(r, level - 1)), Pow2(r.Epbs()))
  {}

  lemma RemRem(a: nat, b: nat, c: nat)
    requires b > 0 && c > 0
    ensures Times(c, b) > 0 && Rem(Rem(a, Times(c, b)), b) == Rem(a, b)
  {
    hide Times, Quot, Rem;
    TimesPositive(c, b);
    var m := Rem(a, Times(c, b));
    QuotRem(a, Times(c, b));
    TimesAssoc(Quot(a, Times(c, b)), c, b);
    QuotAdd(Times(Quot(a, Times(c, b)), c), m, b);
  }

  /** The dnode's pointers describe the trees. */
  ghost predicate DescribesObject(r: Reader, trees: seq<Tree>) {
    && r.dnode.nlevels > 0 && |trees| == |r.dnode.blkptr|
    && forall i :: 0 <= i < |trees| ==> Represents(r, r.dnode.blkptr[i], trees[i], r.dnode.nlevels - 1)
  }

  /** The object's data block pointers, left to right. */
  function AllLeaves(r: Reader, trees: seq<Tree>): seq<Option<BlkPtr>>
    requires r.dnode.nlevels > 0
  {
    FlattenAll(r, trees, r.dnode.nlevels - 1)
  }

  /** locate is array indexing into the leaves, and none past their end. */
  lemma LocateIsIndexing(r: Reader, trees: seq<Tree>, blkid: nat)
    requires DescribesObject(r, trees)
    ensures r.Located(blkid) == Ok(if blkid < |AllLeaves(r, trees)| then AllLeaves(r, trees)[blkid] else None)
  {
    hide Times, Quot, Rem, Pow2, Flatten;
    var level := r.dnode.nlevels - 1;
    var w := Leaves(r, level);
    var top := Quot(blkid, w);
    forall i | 0 <= i < |trees| ensures |Flatten(r, trees[i], level)| == w {
      FlattenSize(r, r.dnode.blkptr[i], trees[i], level);
    }
    FlattenAllIndex(r, trees, level, blkid);
    QuotRem(blkid, w);
    if top < |trees| {
      BelowTimes(top, |trees|, w, Rem(blkid, w));
      WalkIsIndexing(r, r.dnode.blkptr[top], trees[top], level, blkid);
    }
  }

  /** With every data block readable, the object is the concatenation of its zero-filled blocks. */
  lemma ObjectByte(r: Reader, trees: seq<Tree>, x: nat)
    requires DescribesObject(r, trees) && r.dnode.datablksz > 0
    requires forall bp :: Some(bp) in AllLeaves(r, trees) ==> r.pool.read(bp).Some?
    ensures r.ReadableAt(x)
    ensures var b := Quot(x, r.dnode.datablksz); var within := Rem(x, r.dnode.datablksz); var all := AllLeaves(r, trees);
      r.ByteAt(x) == if b < |all| && all[b].Some? && within < |r.pool.read(all[b].value).value|
                     then r.pool.read(all[b].value).value[within] else 0
  {
    hide Times, Quot, Rem;
    LocateIsIndexing(r, trees, Quot(x, r.dnode.datablksz));
  }
}
