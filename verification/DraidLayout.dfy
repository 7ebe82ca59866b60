/** dRAID layout: which sectors of which children hold a block, and why none is used twice. */
module DraidLayout {
  import opened Arith
  import opened DraidPerms
  import opened DraidGeometry
  import opened RaidzMap

  // ----- The place of a logical sector

  /** Position of a logical sector: its group, its row of the group, its lane in the row. */
  datatype Coordinates = Coordinates(group: nat, slot: nat, lane: nat)

  function Locate(c: Config, height: nat, sector: nat): (x: Coordinates)
    requires c.groupwidth > 0 && height > 0
    ensures x.slot < height && x.lane < c.groupwidth
  {
    var row := Quot(sector, c.groupwidth);
    Coordinates(Quot(row, height), Rem(row, height), Rem(sector, c.groupwidth))
  }

  /** Groups lie side by side, row by row, over the ndisks logical columns. */
  function Position(c: Config, x: Coordinates): nat {
    Times(x.group, c.groupwidth) + x.lane
  }

  /** The child under logical column t mod ndisks in the permutation of the group. */
  function ChildAt(c: Config, group: nat, t: nat): nat
    requires c.TableSized() && 0 < c.ndisks <= c.children && 0 < c.ngroups
  {
    c.Permute(Quot(group, c.ngroups), Rem(t, c.ndisks))
  }

  function SectorAt(c: Config, height: nat, t: nat, slot: nat): nat
    requires 0 < c.ndisks
  {
    Times(Quot(t, c.ndisks), height) + slot
  }

  /** Child and child-relative sector of a logical sector. */
  function Place(c: Config, height: nat, sector: nat): (nat, nat)
    requires c.Shaped() && height > 0
  {
    var x := Locate(c, height, sector);
    (ChildAt(c, x.group, Position(c, x)), SectorAt(c, height, Position(c, x), x.slot))
  }

  lemma LocateIs(c: Config, height: nat, sector: nat, x: Coordinates)
    requires c.groupwidth > 0 && height > 0 && x.slot < height && x.lane < c.groupwidth
    ensures Locate(c, height, sector) == x <==> sector == Times(Times(x.group, height) + x.slot, c.groupwidth) + x.lane
  {
    hide Times, Quot, Rem;
    QuotRemIs(Times(x.group, height) + x.slot, c.groupwidth, x.lane);
    QuotRemIs(x.group, height, x.slot);
    QuotRem(sector, c.groupwidth);
    QuotRem(Quot(sector, c.groupwidth), height);
  }

  /** A slice holds whole groups in whole rows. */
  lemma SliceIsWhole(c: Config)
    requires c.Valid()
    ensures Times(c.SliceRows(), c.ndisks) == Times(c.groupwidth, c.ngroups) && c.SliceRows() > 0
  {
    hide Times, Quot, Rem;
    QuotRem(Times(c.groupwidth, c.ngroups), c.ndisks);
    TimesPositive(c.groupwidth, c.ngroups);
    TimesAdd(0, 0, c.ndisks);
  }

  lemma Regroup(p: nat, g: nat, ng: nat, gw: nat, rows: nat, nd: nat)
    requires Times(rows, nd) == Times(gw, ng)
    ensures Times(Times(p, ng) + g, gw) == Times(Times(p, rows), nd) + Times(g, gw)
  {
    hide Times;
    TimesAdd(Times(p, ng), g, gw);
    TimesAssoc(p, ng, gw);
    TimesComm(ng, gw);
    TimesAssoc(p, rows, nd);
  }

  /** Group g of slice p, row by row: all its lanes lie in rows of slice p. */
  lemma SliceOfLane(p: nat, g: nat, lane: nat, ng: nat, gw: nat, rows: nat, nd: nat)
    requires g < ng && lane < gw && rows > 0 && nd > 0 && Times(rows, nd) == Times(gw, ng)
    ensures Quot(Quot(Times(Times(p, ng) + g, gw) + lane, nd), rows) == p
  {
    hide Times, Quot, Rem;
    var u := Times(g, gw) + lane;
    Regroup(p, g, ng, gw, rows, nd);
    BelowTimes(g, ng, gw, lane);
    TimesComm(ng, gw);
    QuotBelow(u, rows, nd);
    QuotAdd(Times(p, rows), u, nd);
    QuotRemIs(p, rows, Quot(u, nd));
  }

  /** The rows a group occupies all lie in the slice of its permutation. */
  lemma SliceOfRow(c: Config, x: Coordinates)
    requires c.Valid() && x.lane < c.groupwidth
    ensures c.SliceRows() > 0
    ensures Quot(Quot(Position(c, x), c.ndisks), c.SliceRows()) == Quot(x.group, c.ngroups)
  {
    SliceIsWhole(c);
    hide Times, Quot, Rem, Config.SliceRows;
    QuotRem(x.group, c.ngroups);
    SliceOfLane(Quot(x.group, c.ngroups), Rem(x.group, c.ngroups), x.lane,
                c.ngroups, c.groupwidth, c.SliceRows(), c.ndisks);
  }

  lemma SamePosition(c: Config, height: nat, s: nat, s': nat)
    requires c.groupwidth > 0 && height > 0
    requires Locate(c, height, s).slot == Locate(c, height, s').slot
    requires Position(c, Locate(c, height, s)) == Position(c, Locate(c, height, s'))
    ensures s == s'
  {
    hide Times, Quot, Rem;
    var x, x' := Locate(c, height, s), Locate(c, height, s');
    QuotRemUnique(x.group, x.lane, x'.group, x'.lane, c.groupwidth);
    LocateIs(c, height, s, x);
    LocateIs(c, height, s', x');
  }

  /** No two logical sectors share a sector of a child. */
  lemma PlaceInjective(c: Config, height: nat, s: nat, s': nat)
    requires c.Valid() && height > 0
    requires Place(c, height, s) == Place(c, height, s')
    ensures s == s'
  {
    hide Times, Quot, Rem, Config.Permute;
    var x, x' := Locate(c, height, s), Locate(c, height, s');
    var t, t' := Position(c, x), Position(c, x');
    QuotRemUnique(Quot(t, c.ndisks), x.slot, Quot(t', c.ndisks), x'.slot, height);
    SliceOfRow(c, x);
    SliceOfRow(c, x');
    PermuteInjective(c, Quot(x.group, c.ngroups), Rem(t, c.ndisks), Rem(t', c.ndisks));
    QuotRem(t, c.ndisks);
    QuotRem(t', c.ndisks);
    SamePosition(c, height, s, s');
  }

  // ----- Rows

  /** Sectors per child in one row of ROWHEIGHT bytes. */
  function RowSectors(ashift: nat): (h: nat)
    requires ashift <= 24
    ensures h > 0 && Times(h, Pow2(ashift)) == ROWHEIGHT
  {
    Pow2Add(24 - ashift, ashift);
    Pow2Of24();
    Pow2(24 - ashift)
  }

  lemma Pow2Of24()
    ensures Pow2(24) == ROWHEIGHT
  {
    Pow2Of12();
    hide Pow2;
    Pow2Add(12, 12);
  }

  lemma Pow2Of12()
    ensures Pow2(12) == 0x1000
  {
    Pow2Add(6, 6);
  }

  /** Row of the group on the children: whole slices first, then the group's place in its slice. */
  function PhysicalRow(c: Config, group: nat): nat
    requires 0 < c.ndisks && 0 < c.ngroups
  {
    Times(Quot(group, c.ngroups), c.SliceRows()) + Quot(Times(Rem(group, c.ngroups), c.groupwidth), c.ndisks)
  }

  /** Child-relative byte offset of the row holding `logical`, its permutation, and the first column's position. */
  function LogicalToPhysical(c: Config, logical: nat, ashift: nat): (nat, nat, nat)
    requires 0 < c.ndisks && 0 < c.ngroups && 0 < c.groupwidth && 0 < c.groupsz && ashift <= 24
  {
    var h := RowSectors(ashift);
    var group := Quot(logical, c.groupsz);
    TimesPositive(h, c.groupwidth);
    var bOffset := Rem(Quot(logical, Pow2(ashift)), Times(h, c.groupwidth));
    (Times(Times(h, PhysicalRow(c, group)) + Quot(bOffset, c.groupwidth), Pow2(ashift)),
     Quot(group, c.ngroups), Rem(Times(group, c.groupwidth), c.ndisks))
  }

  lemma RowOfGroup(p: nat, g: nat, ng: nat, gw: nat, rows: nat, nd: nat)
    requires nd > 0 && Times(rows, nd) == Times(gw, ng)
    ensures Quot(Times(Times(p, ng) + g, gw), nd) == Times(p, rows) + Quot(Times(g, gw), nd)
  {
    hide Times, Quot;
    Regroup(p, g, ng, gw, rows, nd);
    QuotAdd(Times(p, rows), Times(g, gw), nd);
  }

  /** The code's formula: the row and the first column are quotient and remainder of group * groupwidth. */
  lemma RowFormula(c: Config, group: nat)
    requires c.Valid()
    ensures PhysicalRow(c, group) == Quot(Times(group, c.groupwidth), c.ndisks)
  {
    hide Times, Quot, Rem, Config.TableValid, Config.SliceRows;
    SliceIsWhole(c);
    QuotRem(group, c.ngroups);
    RowOfGroup(Quot(group, c.ngroups), Rem(group, c.ngroups), c.ngroups, c.groupwidth, c.SliceRows(), c.ndisks);
  }

  lemma ValidSizes(c: Config, ashift: nat)
    requires c.Valid() && ashift <= 24
    ensures 0 < c.ndisks && 0 < c.ngroups && 0 < c.groupwidth && 0 < c.groupsz
    ensures c.groupsz == Times(Times(RowSectors(ashift), c.groupwidth), Pow2(ashift))
  {
    hide Times, Quot, Rem;
    TimesPositive(c.groupwidth, ROWHEIGHT);
    TimesAssoc(c.groupwidth, RowSectors(ashift), Pow2(ashift));
    TimesComm(c.groupwidth, RowSectors(ashift));
  }

  /** On whole sectors, logical-to-physical is the place of the row's first lane. */
  lemma LogicalIsPlace(c: Config, sector: nat, ashift: nat)
    requires c.Valid() && ashift <= 24
    ensures 0 < c.ndisks && 0 < c.ngroups && 0 < c.groupwidth && 0 < c.groupsz
    ensures var h := RowSectors(ashift); var x := Locate(c, h, sector); var t := Times(x.group, c.groupwidth);
      LogicalToPhysical(c, Times(sector, Pow2(ashift)), ashift)
        == (Times(SectorAt(c, h, t, x.slot), Pow2(ashift)), Quot(x.group, c.ngroups), Rem(t, c.ndisks))
  {
    hide Times, Quot, Rem, PhysicalRow;
    var h, unit := RowSectors(ashift), Pow2(ashift);
    ValidSizes(c, ashift);
    QuotQuot(sector, c.groupwidth, h);
    QuotCancel(sector, Times(h, c.groupwidth), unit);
    RowFormula(c, Quot(Quot(sector, c.groupwidth), h));
    TimesComm(h, PhysicalRow(c, Quot(Quot(sector, c.groupwidth), h)));
  }

  /** The stripe of `sectors` data sectors over a group's columns. */
  function RowShape(c: Config, sectors: nat): (h: Shape)
    requires c.ndata > 0
    ensures c.groupwidth == c.ndata + c.nparity ==> h.Valid()
    ensures h.s == sectors && h.dcols == c.groupwidth && h.nparity == c.nparity
  {
    QuotRem(sectors, c.ndata);
    Shape(c.groupwidth, c.nparity, sectors, Quot(sectors, c.ndata), Rem(sectors, c.ndata))
  }

  /** Rows of the group that `sectors` data sectors need. */
  function RowsFor(c: Config, sectors: nat): nat
    requires c.ndata > 0
  {
    Quot(sectors, c.ndata) + if Rem(sectors, c.ndata) > 0 then 1 else 0
  }

  /** m holds h at logical sector `start`: column i sits where the layout places sector start + i. */
  ghost predicate IsRow(c: Config, m: Map, start: nat, h: Shape, ashift: nat) {
    && c.Shaped() && ashift <= 24 && h.Valid() && h.dcols == c.groupwidth
    && |m.cols| == c.groupwidth && m.acols == c.groupwidth && m.nparity == h.nparity && m.bigcols == h.Big()
    && m.asize == Times(h.Total(), Pow2(ashift)) && m.nskip == RoundUp(h.Total(), c.groupwidth) - h.Total()
    && forall i :: 0 <= i < c.groupwidth ==> RowColumn(c, m.cols[i], start + i, h.Height(i), ashift)
  }

  predicate RowColumn(c: Config, col: Column, sector: nat, height: nat, ashift: nat)
    requires c.Shaped() && ashift <= 24
  {
    var (child, at) := Place(c, RowSectors(ashift), sector);
    col.devidx == child && col.offset == Times(at, Pow2(ashift)) && col.size == Times(height, Pow2(ashift))
  }

  /** Lane i of an aligned row. */
  lemma LaneOf(c: Config, height: nat, start: nat, i: nat)
    requires c.groupwidth > 0 && height > 0 && Rem(start, c.groupwidth) == 0 && i < c.groupwidth
    ensures Locate(c, height, start).lane == 0
    ensures Locate(c, height, start + i) == Locate(c, height, start).(lane := i)
  {
    hide Times, Quot, Rem;
    QuotRem(start, c.groupwidth);
    QuotRemIs(Quot(start, c.groupwidth), c.groupwidth, i);
  }

  /** The code wraps the column twice over: first start, then start + i. */
  lemma MoveRight(t: nat, d: nat, i: nat)
    requires i < d
    ensures Rem(t + i, d) == Rem(Rem(t, d) + i, d)
    ensures Quot(t + i, d) == Quot(t, d) + if Rem(t, d) + i >= d then 1 else 0
  {
    hide Times, Quot, Rem;
    NextColumn(t, d, i);
    NextColumn(Rem(t, d), d, i);
    TimesAdd(0, 0, d);
    QuotRemIs(0, d, Rem(t, d));
  }

  lemma ColumnPlace(c: Config, start: nat, i: nat, ashift: nat, x: Coordinates, t: nat)
    requires c.Shaped() && ashift <= 24 && Rem(start, c.groupwidth) == 0 && i < c.groupwidth
    requires x == Locate(c, RowSectors(ashift), start) && t == Times(x.group, c.groupwidth)
    ensures var h := RowSectors(ashift); var wrapped := Rem(t, c.ndisks) + i >= c.ndisks;
      Place(c, h, start + i) == (c.Permute(Quot(x.group, c.ngroups), Rem(Rem(t, c.ndisks) + i, c.ndisks)),
                                 SectorAt(c, h, t, x.slot) + if wrapped then h else 0)
  {
    hide Times, Quot, Rem, Config.Permute, RowSectors;
    LaneOf(c, RowSectors(ashift), start, i);
    MoveRight(t, c.ndisks, i);
    TimesAdd(Quot(t, c.ndisks), 1, RowSectors(ashift));
  }

  /** One row for ioSize bytes at logical ioOffset, which must not cross a group boundary. */
  method Row(c: Config, ioOffset: nat, ioSize: nat, ashift: nat, ghost start: nat, ghost sectors: nat) returns (m: Map)
    requires c.Valid() && ashift <= 24
    requires ioOffset == Times(start, Pow2(ashift)) && Rem(start, c.groupwidth) == 0
    requires ioSize == Times(sectors, Pow2(ashift))
    ensures IsRow(c, m, start, RowShape(c, sectors), ashift)
  {
    hide Times, Quot, Rem, Config.Permute, RowSectors;
    var unit := Pow2(ashift);
    ghost var h := RowShape(c, sectors);
    ValidSizes(c, ashift);
    LogicalIsPlace(c, start, ashift);
    var (first, perm, groupstart) := LogicalToPhysical(c, ioOffset, ashift);
    var physical := first;
    var wrap := if groupstart + c.groupwidth > c.ndisks then c.ndisks - groupstart else c.groupwidth;
    QuotCancel(sectors, 1, unit);
    var psize := Quot(ioSize, unit);
    var q, r := Quot(psize, c.ndata), Rem(psize, c.ndata);
    var bc := if r == 0 then 0 else r + c.nparity;
    var tot := psize + Times(c.nparity, q + if r != 0 then 1 else 0);
    ghost var x := Locate(c, RowSectors(ashift), start);
    ghost var t := Times(x.group, c.groupwidth);
    var cols: seq<Column> := [];
    for i := 0 to c.groupwidth
      invariant |cols| == i
      invariant physical == first + if i > wrap then ROWHEIGHT else 0
      invariant forall j :: 0 <= j < i ==> RowColumn(c, cols[j], start + j, h.Height(j), ashift)
    {
      var col := Rem(groupstart + i, c.ndisks);
      if i == wrap {
        physical := physical + ROWHEIGHT;
      }
      var size := if q == 0 && i >= bc then 0 else if i < bc then Times(q + 1, unit) else Times(q, unit);
      ColumnPlace(c, start, i, ashift, x, t);
      TimesAdd(SectorAt(c, RowSectors(ashift), t, x.slot), RowSectors(ashift), unit);
      TimesAdd(0, 0, unit);
      cols := cols + [Column(c.Permute(perm, col), physical, size)];
      assert RowColumn(c, cols[i], start + i, h.Height(i), ashift);
    }
    m := Map(cols, c.nparity, c.groupwidth, bc, Times(tot, unit), RoundUp(tot, c.groupwidth) - tot);
  }

  // ----- Blocks

  /** Bytes allocated for psize bytes of data. */
  function Asize(c: Config, psize: nat, ashift: nat): nat
    requires psize > 0 && c.ndata > 0
  {
    TimesPositive(c.ndata, Pow2(ashift));
    Times(Times(Quot(psize - 1, Times(c.ndata, Pow2(ashift))) + 1, c.groupwidth), Pow2(ashift))
  }

  function AsizeToPsize(c: Config, asize: nat): nat
    requires c.groupwidth > 0
  {
    Times(Quot(asize, c.groupwidth), c.ndata)
  }

  lemma RowsForBounds(c: Config, sectors: nat)
    requires c.ndata > 0
    ensures sectors <= Times(RowsFor(c, sectors), c.ndata) < sectors + c.ndata
    ensures sectors > 0 ==> RowsFor(c, sectors) > 0
  {
    hide Times, Quot, Rem;
    QuotRem(sectors, c.ndata);
    TimesAdd(Quot(sectors, c.ndata), 1, c.ndata);
    TimesAdd(0, 0, c.ndata);
  }

  /** RowsFor is the least number of rows that hold the sectors. */
  lemma RowsForLeast(c: Config, sectors: nat, n: nat)
    requires c.ndata > 0
    ensures RowsFor(c, sectors) <= n <==> sectors <= Times(n, c.ndata)
  {
    RowsForBounds(c, sectors);
    hide Times, RowsFor;
    var rows := RowsFor(c, sectors);
    TimesOrder(rows, n, c.ndata);
    TimesOrder(n, rows, c.ndata);
    if n < rows {
      TimesAdd(n, 1, c.ndata);
      TimesOrder(n + 1, rows, c.ndata);
      TimesOrder(rows, n + 1, c.ndata);
    }
  }

  /** In sectors: asize is whole rows of groupwidth sectors. */
  lemma AsizeIs(c: Config, sectors: nat, ashift: nat)
    requires c.ndata > 0 && sectors > 0
    ensures Times(sectors, Pow2(ashift)) > 0
    ensures Asize(c, Times(sectors, Pow2(ashift)), ashift) == Times(Times(RowsFor(c, sectors), c.groupwidth), Pow2(ashift))
  {
    hide Times, Quot, Rem;
    var unit, nd := Pow2(ashift), c.ndata;
    TimesPositive(sectors, unit);
    TimesPositive(nd, unit);
    // (sectors * unit - 1) / (nd * unit) == (sectors - 1) / nd
    var q, r := Quot(sectors - 1, nd), Rem(sectors - 1, nd);
    QuotRem(sectors - 1, nd);
    TimesAdd(sectors - 1, 1, unit);
    TimesAdd(Times(q, nd), r, unit);
    TimesAssoc(q, nd, unit);
    BelowTimes(r, nd, unit, unit - 1);
    QuotRemIs(q, Times(nd, unit), Times(r, unit) + (unit - 1));
    // (sectors - 1) / nd + 1 is the number of rows
    if r + 1 == nd {
      TimesAdd(q, 1, nd);
      QuotRemIs(q + 1, nd, 0);
    } else {
      QuotRemIs(q, nd, r + 1);
    }
  }

  /** A block as pieces (first sector, data sectors), one per group it touches. */
  function Pieces(c: Config, height: nat, start: nat, sectors: nat): seq<(nat, nat)>
    requires c.groupwidth > 0 && c.ndata > 0 && height > 0
  {
    var left := height - Locate(c, height, start).slot;
    if RowsFor(c, sectors) <= left then [(start, sectors)]
    else
      RowsForLeast(c, sectors, left);
      [(start, Times(left, c.ndata)), (start + Times(left, c.groupwidth), sectors - Times(left, c.ndata))]
  }

  /** What the code demands of a block: an aligned offset, whole sectors, and no more than a group holds. */
  ghost predicate Allocated(c: Config, offset: nat, psize: nat, ashift: nat, start: nat, sectors: nat) {
    && c.Valid() && ashift <= 24
    && offset == Times(start, Pow2(ashift)) && Rem(start, c.groupwidth) == 0
    && psize == Times(sectors, Pow2(ashift)) && sectors > 0
    && sectors <= Times(RowSectors(ashift), c.ndata)
  }

  lemma GroupEnd(c: Config, start: nat, ashift: nat)
    requires c.Valid() && ashift <= 24 && Rem(start, c.groupwidth) == 0
    ensures c.groupsz > 0
    ensures var left := RowSectors(ashift) - Locate(c, RowSectors(ashift), start).slot;
      Times(Quot(Times(start, Pow2(ashift)), c.groupsz) + 1, c.groupsz) == Times(start + Times(left, c.groupwidth), Pow2(ashift))
  {
    hide Times, Quot, Rem, RowSectors;
    var h, unit, gw := RowSectors(ashift), Pow2(ashift), c.groupwidth;
    ValidSizes(c, ashift);
    var x := Locate(c, h, start);
    LocateIs(c, h, start, x);
    QuotQuot(start, gw, h);
    TimesPositive(h, gw);
    QuotCancel(start, Times(h, gw), unit);
    assert x.lane == 0;
    // start = (group * h + slot) * gw, and slot + left = h
    TimesAdd(Times(x.group, h), x.slot, gw);
    TimesAdd(x.slot, h - x.slot, gw);
    TimesAssoc(x.group, h, gw);
    TimesAdd(x.group, 1, Times(h, gw));
    TimesAssoc(x.group + 1, Times(h, gw), unit);
  }

  /** The one or two rows holding psize bytes at top-level offset `offset`. */
  method MapBlocks(c: Config, offset: nat, psize: nat, ashift: nat, ghost start: nat, ghost sectors: nat) returns (rows: seq<Map>)
    requires Allocated(c, offset, psize, ashift, start, sectors)
    ensures c.groupwidth > 0 && c.ndata > 0
    ensures var pieces := Pieces(c, RowSectors(ashift), start, sectors);
      |rows| == |pieces| && forall j :: 0 <= j < |rows| ==> IsRow(c, rows[j], pieces[j].0, RowShape(c, pieces[j].1), ashift)
  {
    hide Times, Quot, Rem, RowSectors, Locate, RowsFor, Asize, IsRow, RowShape;
    ValidSizes(c, ashift);
    ghost var unit := Pow2(ashift);
    ghost var left := RowSectors(ashift) - Locate(c, RowSectors(ashift), start).slot;
    var ioSize := psize;
    var group := Quot(offset, c.groupsz);
    var nextGroup := Times(group + 1, c.groupsz);
    GroupEnd(c, start, ashift);
    AsizeIs(c, sectors, ashift);
    RowsForLeast(c, sectors, left);
    Crossing(c, start, RowsFor(c, sectors), left, unit);
    ghost var s1 := sectors;
    if offset + Asize(c, psize, ashift) > nextGroup {
      TimesAdd(start, Times(left, c.groupwidth), unit);
      ioSize := AsizeToPsize(c, nextGroup - offset);
      s1 := Times(left, c.ndata);
      ShareOfGroup(c, left, unit);
      TimesOrder(s1, sectors, unit);
    }
    var first := Row(c, offset, ioSize, ashift, start, s1);
    rows := [first];
    if ioSize < psize {
      TimesPositive(left, c.ndata);
      FullRows2(c, left);
      AsizeIs(c, s1, ashift);
      TimesAdd(start, Times(left, c.groupwidth), unit);
      TimesAdd(s1, sectors - s1, unit);
      NextStart(c, start, left);
      var second := Row(c, offset + Asize(c, ioSize, ashift), psize - ioSize, ashift, start + Times(left, c.groupwidth), sectors - s1);
      rows := rows + [second];
    }
  }

  lemma Crossing(c: Config, start: nat, rows: nat, left: nat, unit: nat)
    requires c.groupwidth > 0 && unit > 0
    ensures Times(start, unit) + Times(Times(rows, c.groupwidth), unit) > Times(start + Times(left, c.groupwidth), unit) <==> rows > left
  {
    hide Times;
    TimesAdd(start, Times(rows, c.groupwidth), unit);
    TimesOrder(start + Times(left, c.groupwidth), start + Times(rows, c.groupwidth), unit);
    TimesOrder(left, rows, c.groupwidth);
  }

  lemma ShareOfGroup(c: Config, left: nat, unit: nat)
    requires c.groupwidth > 0 && unit > 0
    ensures AsizeToPsize(c, Times(Times(left, c.groupwidth), unit)) == Times(Times(left, c.ndata), unit)
  {
    hide Times, Quot;
    TimesAssoc(left, c.groupwidth, unit);
    TimesComm(c.groupwidth, unit);
    TimesAssoc(left, unit, c.groupwidth);
    QuotCancel(Times(left, unit), 1, c.groupwidth);
    TimesAssoc(left, unit, c.ndata);
    TimesComm(c.ndata, unit);
    TimesAssoc(left, c.ndata, unit);
  }

  /** Whole rows need no more rows. */
  lemma FullRows2(c: Config, n: nat)
    requires c.ndata > 0
    ensures RowsFor(c, Times(n, c.ndata)) == n
  {
    hide Times, Quot, Rem;
    QuotRemIs(n, c.ndata, 0);
  }

  lemma NextStart(c: Config, start: nat, left: nat)
    requires c.groupwidth > 0 && Rem(start, c.groupwidth) == 0
    ensures Rem(start + Times(left, c.groupwidth), c.groupwidth) == 0
  {
    hide Times, Quot, Rem;
    QuotAdd(left, start, c.groupwidth);
  }

  predicate PieceInGroup(c: Config, height: nat, start: nat, sectors: nat)
    requires c.groupwidth > 0 && c.ndata > 0 && height > 0
  {
    sectors > 0 && Rem(start, c.groupwidth) == 0 && Locate(c, height, start).slot + RowsFor(c, sectors) <= height
  }

  /** A second piece (start', rest) takes up exactly where the first left off, at the head of the next group. */
  predicate Continues(c: Config, height: nat, start: nat, sectors: nat, first: nat, start': nat, rest: nat)
    requires c.groupwidth > 0 && c.ndata > 0 && height > 0
  {
    && first + rest == sectors
    && start' == start + Times(RowsFor(c, first), c.groupwidth)
    && Locate(c, height, start') == Coordinates(Locate(c, height, start).group + 1, 0, 0)
    && RowsFor(c, first) + RowsFor(c, rest) == RowsFor(c, sectors)
  }

  /** The pieces lose nothing, follow each other, and each stays inside its group; the second starts a group. */
  lemma PiecesFit(c: Config, height: nat, start: nat, sectors: nat)
    requires c.groupwidth > 0 && c.ndata > 0 && height > 0
    requires Rem(start, c.groupwidth) == 0 && 0 < sectors <= Times(height, c.ndata)
    ensures var pieces := Pieces(c, height, start, sectors);
      && 1 <= |pieces| <= 2 && pieces[0].0 == start
      && (forall j :: 0 <= j < |pieces| ==> PieceInGroup(c, height, pieces[j].0, pieces[j].1))
      && (|pieces| == 1 ==> pieces[0].1 == sectors)
      && (|pieces| == 2 ==> Continues(c, height, start, sectors, pieces[0].1, pieces[1].0, pieces[1].1))
  {
    var x := Locate(c, height, start);
    var left := height - x.slot;
    hide Times, Quot, Rem, RowsFor, Locate;
    RowsForLeast(c, sectors, left);
    if RowsFor(c, sectors) > left {
      var n := Times(left, c.ndata);
      FullRows2(c, left);
      TimesPositive(left, c.ndata);
      NextStart(c, start, left);
      NextGroup(c, height, start);
      MoreRows(c, sectors - n, left);
      TimesAdd(left, x.slot, c.ndata);
      RowsForLeast(c, sectors - n, height);
    }
  }

  lemma MoreRows(c: Config, sectors: nat, n: nat)
    requires c.ndata > 0
    ensures RowsFor(c, Times(n, c.ndata) + sectors) == n + RowsFor(c, sectors)
  {
    QuotAdd(n, sectors, c.ndata);
  }

  lemma NextGroup(c: Config, height: nat, start: nat)
    requires c.groupwidth > 0 && height > 0 && Rem(start, c.groupwidth) == 0
    ensures var x := Locate(c, height, start);
      Locate(c, height, start + Times(height - x.slot, c.groupwidth)) == Coordinates(x.group + 1, 0, 0)
  {
    hide Times, Quot, Rem;
    var x, gw := Locate(c, height, start), c.groupwidth;
    LocateIs(c, height, start, x);
    assert x.lane == 0;
    TimesAdd(Times(x.group, height) + x.slot, height - x.slot, gw);
    TimesAdd(x.group, 1, height);
    LocateIs(c, height, start + Times(height - x.slot, gw), Coordinates(x.group + 1, 0, 0));
  }

  /** Going down k rows of the group stays on the child. */
  lemma MoveDown(c: Config, height: nat, sector: nat, k: nat)
    requires c.Shaped() && height > 0 && Locate(c, height, sector).slot + k < height
    ensures var (child, at) := Place(c, height, sector);
      Place(c, height, sector + Times(k, c.groupwidth)) == (child, at + k)
  {
    hide Times, Quot, Rem, Config.Permute;
    var x := Locate(c, height, sector);
    var x' := x.(slot := x.slot + k);
    LocateIs(c, height, sector, x);
    TimesAdd(Times(x.group, height) + x.slot, k, c.groupwidth);
    LocateIs(c, height, sector + Times(k, c.groupwidth), x');
  }

  lemma HeightBelowRows(c: Config, sectors: nat, i: nat)
    requires c.Shaped() && i < c.groupwidth
    ensures RowShape(c, sectors).Height(i) <= RowsFor(c, sectors)
  {
    hide Times, Quot, Rem;
  }

  lemma RowColumnOf(c: Config, m: Map, start: nat, h: Shape, ashift: nat, i: nat)
    requires IsRow(c, m, start, h, ashift) && i < c.groupwidth
    ensures i < |m.cols| && RowColumn(c, m.cols[i], start + i, h.Height(i), ashift)
  {}

  lemma ColumnSector(c: Config, col: Column, sector: nat, height: nat, ashift: nat)
    requires c.Shaped() && ashift <= 24 && RowColumn(c, col, sector, height, ashift)
    ensures Place(c, RowSectors(ashift), sector) == (col.devidx, Quot(col.offset, Pow2(ashift)))
  {
    hide Times, Quot, Place, RowSectors;
    QuotCancel(Place(c, RowSectors(ashift), sector).1, 1, Pow2(ashift));
  }

  /** The k-th sector of column i of a row is the place of one logical sector of the row. */
  lemma RowSectorPlace(c: Config, m: Map, start: nat, sectors: nat, ashift: nat, i: nat, k: nat)
    requires c.Shaped() && ashift <= 24 && Rem(start, c.groupwidth) == 0
    requires IsRow(c, m, start, RowShape(c, sectors), ashift)
    requires i < c.groupwidth && k < RowShape(c, sectors).Height(i)
    requires Locate(c, RowSectors(ashift), start).slot + RowsFor(c, sectors) <= RowSectors(ashift)
    ensures i < |m.cols|
    ensures Place(c, RowSectors(ashift), start + i + Times(k, c.groupwidth))
         == (m.cols[i].devidx, Quot(m.cols[i].offset, Pow2(ashift)) + k)
  {
    hide Times, Quot, Rem, RowSectors, RowsFor, RowShape, IsRow, Place, Locate, RowColumn;
    RowColumnOf(c, m, start, RowShape(c, sectors), ashift, i);
    ColumnSector(c, m.cols[i], start + i, RowShape(c, sectors).Height(i), ashift);
    HeightBelowRows(c, sectors, i);
    LaneOf(c, RowSectors(ashift), start, i);
    MoveDown(c, RowSectors(ashift), start + i, k);
  }

  /** Logical sector (j, i, k) of a block: piece j, column i, k rows down. */
  function BlockSector(c: Config, height: nat, start: nat, sectors: nat, j: nat, i: nat, k: nat): nat
    requires c.groupwidth > 0 && c.ndata > 0 && height > 0 && j < |Pieces(c, height, start, sectors)|
  {
    Pieces(c, height, start, sectors)[j].0 + i + Times(k, c.groupwidth)
  }

  /** rows is a correct map of the block. */
  ghost predicate IsBlock(c: Config, rows: seq<Map>, offset: nat, psize: nat, ashift: nat, start: nat, sectors: nat) {
    Allocated(c, offset, psize, ashift, start, sectors) &&
    var pieces := Pieces(c, RowSectors(ashift), start, sectors);
    |rows| == |pieces| && forall j :: 0 <= j < |rows| ==> IsRow(c, rows[j], pieces[j].0, RowShape(c, pieces[j].1), ashift)
  }

  /** Sector k of column i of row j is one the block uses. */
  ghost predicate Uses(c: Config, ashift: nat, start: nat, sectors: nat, j: nat, i: nat, k: nat) {
    && c.Shaped() && ashift <= 24 && i < c.groupwidth
    && var pieces := Pieces(c, RowSectors(ashift), start, sectors);
       j < |pieces| && k < RowShape(c, pieces[j].1).Height(i)
  }

  /** Every sector a block uses is the place of a logical sector inside [offset, offset + asize). */
  lemma BlockWithinExtent(c: Config, rows: seq<Map>, offset: nat, psize: nat, ashift: nat, start: nat, sectors: nat, j: nat, i: nat, k: nat)
    requires IsBlock(c, rows, offset, psize, ashift, start, sectors) && Uses(c, ashift, start, sectors, j, i, k)
    ensures var s := BlockSector(c, RowSectors(ashift), start, sectors, j, i, k);
      && Place(c, RowSectors(ashift), s) == (rows[j].cols[i].devidx, Quot(rows[j].cols[i].offset, Pow2(ashift)) + k)
      && start <= s < start + Times(RowsFor(c, sectors), c.groupwidth)
    ensures psize > 0 && Asize(c, psize, ashift) == Times(Times(RowsFor(c, sectors), c.groupwidth), Pow2(ashift))
  {
    hide Times, Quot, Rem, RowSectors, RowsFor, RowShape, IsRow, Place, Locate, Pieces, Asize;
    var h := RowSectors(ashift);
    var piece := Pieces(c, h, start, sectors)[j];
    BlockSectorExtent(c, h, start, sectors, j, i, k);
    AsizeIs(c, sectors, ashift);
    RowSectorPlace(c, rows[j], piece.0, piece.1, ashift, i, k);
  }

  lemma BlockSectorExtent(c: Config, height: nat, start: nat, sectors: nat, j: nat, i: nat, k: nat)
    requires c.Shaped() && height > 0 && Rem(start, c.groupwidth) == 0 && 0 < sectors <= Times(height, c.ndata)
    requires j < |Pieces(c, height, start, sectors)| && i < c.groupwidth
    requires k < RowShape(c, Pieces(c, height, start, sectors)[j].1).Height(i)
    ensures start <= BlockSector(c, height, start, sectors, j, i, k) < start + Times(RowsFor(c, sectors), c.groupwidth)
    ensures var piece := Pieces(c, height, start, sectors)[j]; PieceInGroup(c, height, piece.0, piece.1)
  {
    hide Times, Quot, Rem, RowsFor, RowShape, Locate, Pieces;
    var pieces := Pieces(c, height, start, sectors);
    PiecesFit(c, height, start, sectors);
    HeightBelowRows(c, pieces[j].1, i);
    PieceExtent(c, if j == 0 then 0 else RowsFor(c, pieces[0].1), RowsFor(c, pieces[j].1), k, i);
    TimesAdd(0, 0, c.groupwidth);
    TimesAdd(RowsFor(c, pieces[0].1), if |pieces| == 1 then 0 else RowsFor(c, pieces[1].1), c.groupwidth);
  }

  lemma PieceExtent(c: Config, before: nat, rows: nat, k: nat, i: nat)
    requires i < c.groupwidth && k < rows
    ensures Times(before, c.groupwidth) + i + Times(k, c.groupwidth) < Times(before + rows, c.groupwidth)
  {
    hide Times;
    BelowTimes(k, rows, c.groupwidth, i);
    TimesAdd(before, rows, c.groupwidth);
  }

  /** The logical sector behind a used one, with its extent in bytes. */
  lemma UsedSector(c: Config, ashift: nat, rows: seq<Map>, offset: nat, psize: nat, start: nat, sectors: nat, j: nat, i: nat, k: nat)
    returns (s: nat)
    requires IsBlock(c, rows, offset, psize, ashift, start, sectors) && Uses(c, ashift, start, sectors, j, i, k)
    ensures c.Valid() && c.Shaped() && ashift <= 24 && j < |rows| && i < |rows[j].cols|
    ensures c.groupwidth > 0 && c.ndata > 0 && j < |Pieces(c, RowSectors(ashift), start, sectors)|
    ensures s == BlockSector(c, RowSectors(ashift), start, sectors, j, i, k)
    ensures Place(c, RowSectors(ashift), s) == (rows[j].cols[i].devidx, Quot(rows[j].cols[i].offset, Pow2(ashift)) + k)
    ensures psize > 0 && offset <= Times(s, Pow2(ashift)) < offset + Asize(c, psize, ashift)
  {
    BlockWithinExtent(c, rows, offset, psize, ashift, start, sectors, j, i, k);
    hide Times, Quot, Rem, RowSectors, RowsFor, RowShape, Place, Pieces, Asize, BlockSector;
    s := BlockSector(c, RowSectors(ashift), start, sectors, j, i, k);
    ExtentsInSectors(start, Times(RowsFor(c, sectors), c.groupwidth), s, 0, Pow2(ashift));
    TimesOrder(start, s, Pow2(ashift));
  }

  /** Blocks with disjoint extents [offset, offset + asize) share no sector of any child. */
  lemma NoAliasing(c: Config, ashift: nat,
                   rows: seq<Map>, offset: nat, psize: nat, start: nat, sectors: nat, j: nat, i: nat, k: nat,
                   rows': seq<Map>, offset': nat, psize': nat, start': nat, sectors': nat, j': nat, i': nat, k': nat)
    requires IsBlock(c, rows, offset, psize, ashift, start, sectors) && Uses(c, ashift, start, sectors, j, i, k)
    requires IsBlock(c, rows', offset', psize', ashift, start', sectors') && Uses(c, ashift, start', sectors', j', i', k')
    requires psize > 0 && psize' > 0
    requires offset + Asize(c, psize, ashift) <= offset' || offset' + Asize(c, psize', ashift) <= offset
    ensures rows[j].cols[i].devidx != rows'[j'].cols[i'].devidx
         || Quot(rows[j].cols[i].offset, Pow2(ashift)) + k != Quot(rows'[j'].cols[i'].offset, Pow2(ashift)) + k'
  {
    hide Times, Quot, Rem, RowSectors, IsBlock, Uses, Place, Pieces, Asize, BlockSector, Config.Valid, Config.Shaped;
    var s := UsedSector(c, ashift, rows, offset, psize, start, sectors, j, i, k);
    var s' := UsedSector(c, ashift, rows', offset', psize', start', sectors', j', i', k');
    if Place(c, RowSectors(ashift), s) == Place(c, RowSectors(ashift), s') {
      PlaceInjective(c, RowSectors(ashift), s, s');
    }
  }

  /** Sector (j, i, k) of a block determines its piece, column and row, so no logical sector is used twice. */
  lemma BlockSectorUnique(c: Config, height: nat, start: nat, sectors: nat, j: nat, i: nat, k: nat, j': nat, i': nat, k': nat)
    requires c.Shaped() && height > 0 && Rem(start, c.groupwidth) == 0 && 0 < sectors <= Times(height, c.ndata)
    requires j <= j' < |Pieces(c, height, start, sectors)| && i < c.groupwidth && i' < c.groupwidth
    requires k < RowShape(c, Pieces(c, height, start, sectors)[j].1).Height(i)
    requires BlockSector(c, height, start, sectors, j, i, k) == BlockSector(c, height, start, sectors, j', i', k')
    ensures (j, i, k) == (j', i', k')
  {
    hide Times, Quot, Rem, RowsFor, RowShape, Locate, Pieces;
    var pieces := Pieces(c, height, start, sectors);
    PiecesFit(c, height, start, sectors);
    if j == j' {
      QuotRemUnique(k, i, k', i', c.groupwidth);
    } else {
      HeightBelowRows(c, pieces[0].1, i);
      BelowTimes(k, RowsFor(c, pieces[0].1), c.groupwidth, i);
      assert false;
    }
  }

  lemma UsedOnce(c: Config, ashift: nat, start: nat, sectors: nat, j: nat, i: nat, k: nat, j': nat, i': nat, k': nat)
    requires c.Shaped() && ashift <= 24 && Rem(start, c.groupwidth) == 0 && 0 < sectors <= Times(RowSectors(ashift), c.ndata)
    requires Uses(c, ashift, start, sectors, j, i, k) && Uses(c, ashift, start, sectors, j', i', k')
    requires BlockSector(c, RowSectors(ashift), start, sectors, j, i, k) == BlockSector(c, RowSectors(ashift), start, sectors, j', i', k')
    ensures (j, i, k) == (j', i', k')
  {
    hide Times, Quot, Rem, RowSectors, RowShape, Pieces, BlockSector;
    if j <= j' {
      BlockSectorUnique(c, RowSectors(ashift), start, sectors, j, i, k, j', i', k');
    } else {
      BlockSectorUnique(c, RowSectors(ashift), start, sectors, j', i', k', j, i, k);
    }
  }

  /** A block's own sectors are on different children or at different places, across its two rows as well. */
  lemma OwnSectorsDiffer(c: Config, ashift: nat, rows: seq<Map>, offset: nat, psize: nat, start: nat, sectors: nat,
                         j: nat, i: nat, k: nat, j': nat, i': nat, k': nat)
    requires IsBlock(c, rows, offset, psize, ashift, start, sectors)
    requires Uses(c, ashift, start, sectors, j, i, k) && Uses(c, ashift, start, sectors, j', i', k')
    requires (j, i, k) != (j', i', k')
    ensures rows[j].cols[i].devidx != rows[j'].cols[i'].devidx
         || Quot(rows[j].cols[i].offset, Pow2(ashift)) + k != Quot(rows[j'].cols[i'].offset, Pow2(ashift)) + k'
  {
    hide Times, Quot, Rem, RowSectors, Uses, IsRow, Place, Pieces, Asize, BlockSector, Config.Valid, Config.Shaped;
    var s := UsedSector(c, ashift, rows, offset, psize, start, sectors, j, i, k);
    var s' := UsedSector(c, ashift, rows, offset, psize, start, sectors, j', i', k');
    if Place(c, RowSectors(ashift), s) == Place(c, RowSectors(ashift), s') {
      PlaceInjective(c, RowSectors(ashift), s, s');
      UsedOnce(c, ashift, start, sectors, j, i, k, j', i', k');
    }
  }

  lemma ExtentsInSectors(s: nat, n: nat, s': nat, n': nat, unit: nat)
    requires unit > 0
    ensures Times(s, unit) + Times(n, unit) <= Times(s', unit) <==> s + n <= s'
    ensures Times(s', unit) + Times(n', unit) <= Times(s, unit) <==> s' + n' <= s
  {
    hide Times;
    TimesAdd(s, n, unit);
    TimesAdd(s', n', unit);
    TimesOrder(s', s + n, unit);
    TimesOrder(s, s' + n', unit);
  }

  /** The columns of a row are on different children, so losing a child loses at most one of them. */
  lemma OneColumnPerChild(c: Config, m: Map, start: nat, h: Shape, ashift: nat, i: nat, j: nat)
    requires IsRow(c, m, start, h, ashift) && Rem(start, c.groupwidth) == 0
    requires i < j < c.groupwidth
    ensures |m.cols| == c.groupwidth && m.cols[i].devidx != m.cols[j].devidx
  {
    RowColumnOf(c, m, start, h, ashift, i);
    RowColumnOf(c, m, start, h, ashift, j);
    hide Times, Quot, Rem, RowSectors, Config.Permute;
    var x := Locate(c, RowSectors(ashift), start);
    var t := Times(x.group, c.groupwidth);
    ColumnPlace(c, start, i, ashift, x, t);
    ColumnPlace(c, start, j, ashift, x, t);
    MoveRight(t, c.ndisks, i);
    MoveRight(t, c.ndisks, j);
    RemDiffers(t + i, t + j, c.ndisks);
    PermuteInjective(c, Quot(x.group, c.ngroups), Rem(t + i, c.ndisks), Rem(t + j, c.ndisks));
  }

  // ----- What each row accounts for

  /** A row's bytes plus its skip sectors are the allocation of its share: tot + nskip is asize. */
  lemma RowFillsAllocation(c: Config, m: Map, start: nat, sectors: nat, ashift: nat)
    requires c.Shaped() && sectors > 0 && IsRow(c, m, start, RowShape(c, sectors), ashift)
    ensures Times(sectors, Pow2(ashift)) > 0
    ensures m.asize + Times(m.nskip, Pow2(ashift)) == Asize(c, Times(sectors, Pow2(ashift)), ashift)
  {
    hide Times, Quot, Rem, Shape.Total, RoundUp, Asize, RowColumn, Config.TableValid;
    var h := RowShape(c, sectors);
    TotalRounded(h, RowsFor(c, sectors));
    AsizeIs(c, sectors, ashift);
    TimesAdd(h.Total(), m.nskip, Pow2(ashift));
  }

  lemma TotalRounded(h: Shape, rows: nat)
    requires h.Valid() && rows == h.q + if h.r > 0 then 1 else 0
    ensures RoundUp(h.Total(), h.dcols) == Times(rows, h.dcols)
  {
    TotalIsRows(h);
    TimesAdd(h.q, 1, h.dcols);
    hide Shape.Total, Shape.Columns;
    CeilDivIs(h.Total(), h.dcols, rows);
  }

  /** The data columns of a row hold its share exactly. */
  lemma RowDataBytes(c: Config, m: Map, start: nat, sectors: nat, ashift: nat)
    requires c.Shaped() && sectors > 0 && IsRow(c, m, start, RowShape(c, sectors), ashift)
    ensures c.nparity <= |m.cols|
    ensures SumSizes(m.cols[c.nparity..]) == Times(sectors, Pow2(ashift))
  {
    var h := RowShape(c, sectors);
    DataHeights(h);
    RowSizes(c, m, start, h, ashift);
    assert |m.cols| == c.groupwidth;
    hide Times, Quot, Rem, IsRow, RowShape, SumSizes, SumHeights, Shape.Height, Shape.Big, Shape.Active;
    SumSizesIs(m.cols, h, Pow2(ashift), c.nparity, c.groupwidth);
    assert m.cols[c.nparity..c.groupwidth] == m.cols[c.nparity..];
  }

  lemma RowSizes(c: Config, m: Map, start: nat, h: Shape, ashift: nat)
    requires IsRow(c, m, start, h, ashift)
    ensures forall i :: 0 <= i < |m.cols| ==> m.cols[i].size == Times(h.Height(i), Pow2(ashift))
  {
    hide Times, Place, RowSectors;
    forall i | 0 <= i < |m.cols| ensures m.cols[i].size == Times(h.Height(i), Pow2(ashift)) {
      RowColumnOf(c, m, start, h, ashift, i);
    }
  }

  ghost function BlockDataBytes(c: Config, rows: seq<Map>): nat
    requires forall j :: 0 <= j < |rows| ==> c.nparity <= |rows[j].cols|
  {
    if |rows| == 0 then 0 else SumSizes(rows[0].cols[c.nparity..]) + BlockDataBytes(c, rows[1..])
  }

  /** The data columns of the one or two rows hold the block's psize bytes. */
  lemma BlockHoldsData(c: Config, rows: seq<Map>, offset: nat, psize: nat, ashift: nat, start: nat, sectors: nat)
    requires IsBlock(c, rows, offset, psize, ashift, start, sectors)
    ensures forall j :: 0 <= j < |rows| ==> c.nparity <= |rows[j].cols|
    ensures BlockDataBytes(c, rows) == psize
  {
    hide Times, Quot, Rem, RowSectors, RowShape, IsRow, Pieces, SumSizes, RowsFor, Locate;
    var pieces := Pieces(c, RowSectors(ashift), start, sectors);
    PiecesFit(c, RowSectors(ashift), start, sectors);
    forall j | 0 <= j < |rows|
      ensures c.nparity <= |rows[j].cols| && SumSizes(rows[j].cols[c.nparity..]) == Times(pieces[j].1, Pow2(ashift))
    {
      RowDataBytes(c, rows[j], pieces[j].0, pieces[j].1, ashift);
    }
    if |pieces| == 2 {
      TimesAdd(pieces[0].1, pieces[1].1, Pow2(ashift));
      TwoRows(c, rows);
    } else {
      OneRow(c, rows);
    }
  }

  lemma OneRow(c: Config, rows: seq<Map>)
    requires |rows| == 1 && c.nparity <= |rows[0].cols|
    ensures BlockDataBytes(c, rows) == SumSizes(rows[0].cols[c.nparity..])
  {
    hide SumSizes;
  }

  lemma TwoRows(c: Config, rows: seq<Map>)
    requires |rows| == 2 && c.nparity <= |rows[0].cols| && c.nparity <= |rows[1].cols|
    ensures BlockDataBytes(c, rows) == SumSizes(rows[0].cols[c.nparity..]) + SumSizes(rows[1].cols[c.nparity..])
  {
    hide SumSizes;
    OneRow(c, rows[1..]);
  }

  // ----- Distributed spares

  /** Spares take the columns after the disks', the first spare the last column, in the permutation of p's slice. */
  function SpareChild(c: Config, spareId: nat, p: nat): nat
    requires c.TableSized() && spareId < c.children && c.devslicesz > 0
  {
    c.Permute(Quot(p, c.devslicesz), c.children - 1 - spareId)
  }

  /** A slice is SliceRows rows of ROWHEIGHT bytes on each child. */
  lemma SliceBytes(c: Config, ashift: nat)
    requires c.Valid() && ashift <= 24
    ensures c.SliceRows() > 0
    ensures c.devslicesz == Times(Times(c.SliceRows(), RowSectors(ashift)), Pow2(ashift)) > 0
  {
    SliceIsWhole(c);
    hide Times, Quot, Rem, RowSectors;
    var r, h, unit := c.SliceRows(), RowSectors(ashift), Pow2(ashift);
    TimesAssoc(c.groupwidth, ROWHEIGHT, c.ngroups);
    TimesComm(ROWHEIGHT, c.ngroups);
    TimesAssoc(c.groupwidth, c.ngroups, ROWHEIGHT);
    TimesAssoc(r, c.ndisks, ROWHEIGHT);
    TimesComm(c.ndisks, ROWHEIGHT);
    TimesAssoc(r, ROWHEIGHT, c.ndisks);
    QuotRemIs(Times(r, ROWHEIGHT), c.ndisks, 0);
    TimesAssoc(r, h, unit);
    TimesPositive(r, h);
    TimesPositive(Times(r, h), unit);
  }

  /** The permutation spare_child computes at an offset is the one the sector there was placed with. */
  lemma SliceOfOffset(c: Config, ashift: nat, sector: nat, p: nat)
    requires c.Valid() && ashift <= 24
    requires Quot(p, Pow2(ashift)) == Place(c, RowSectors(ashift), sector).1
    ensures c.devslicesz > 0
    ensures Quot(p, c.devslicesz) == Quot(Locate(c, RowSectors(ashift), sector).group, c.ngroups)
  {
    hide Times, Quot, Rem, RowSectors, Config.Permute;
    var h, unit := RowSectors(ashift), Pow2(ashift);
    var x := Locate(c, h, sector);
    var t := Position(c, x);
    SliceBytes(c, ashift);
    SliceOfRow(c, x);
    TimesPositive(c.SliceRows(), h);
    QuotQuot(p, unit, Times(c.SliceRows(), h));
    QuotQuot(Quot(p, unit), h, c.SliceRows());
    QuotRemIs(Quot(t, c.ndisks), h, x.slot);
  }

  /** A spare never stands for a child that holds a column of a block at that offset, ... */
  lemma SpareIsFree(c: Config, ashift: nat, sector: nat, p: nat, spareId: nat)
    requires c.Valid() && ashift <= 24 && spareId < c.nspares
    requires Quot(p, Pow2(ashift)) == Place(c, RowSectors(ashift), sector).1
    ensures c.devslicesz > 0 && SpareChild(c, spareId, p) < c.children
    ensures SpareChild(c, spareId, p) != Place(c, RowSectors(ashift), sector).0
  {
    hide Times, Quot, Rem, RowSectors, Config.Permute, Config.SliceRows, RowOf, IsPermutation, Place, Locate, SpareChild;
    SliceOfOffset(c, ashift, sector, p);
    SpareChildIs(c, spareId, p);
    var perm, col := PlaceChild(c, RowSectors(ashift), sector);
    SpareColumn(c, perm, spareId, col);
  }

  /** Spare columns come after the disks' columns in every permutation. */
  lemma SpareColumn(c: Config, perm: nat, spareId: nat, col: nat)
    requires c.TableValid() && c.ndisks + c.nspares == c.children && spareId < c.nspares && col < c.ndisks
    ensures c.Permute(perm, c.children - 1 - spareId) < c.children
    ensures c.Permute(perm, c.children - 1 - spareId) != c.Permute(perm, col)
  {
    hide Config.Permute;
    PermuteInjective(c, perm, c.children - 1 - spareId, col);
  }

  /** ... and two spares never stand for the same child. */
  lemma SparesDiffer(c: Config, p: nat, spareId: nat, other: nat)
    requires c.Valid() && c.devslicesz > 0 && spareId < other < c.nspares
    ensures SpareChild(c, spareId, p) != SpareChild(c, other, p)
  {
    hide Times, Quot, Rem, Config.Permute;
    PermuteInjective(c, Quot(p, c.devslicesz), c.children - 1 - spareId, c.children - 1 - other);
  }

  lemma SpareChildIs(c: Config, spareId: nat, p: nat)
    requires c.TableSized() && spareId < c.children && c.devslicesz > 0
    ensures SpareChild(c, spareId, p) == c.Permute(Quot(p, c.devslicesz), c.children - 1 - spareId)
  {}

  lemma PlaceChild(c: Config, height: nat, sector: nat) returns (perm: nat, col: nat)
    requires c.Shaped() && height > 0
    ensures perm == Quot(Locate(c, height, sector).group, c.ngroups) && col < c.ndisks
    ensures Place(c, height, sector).0 == c.Permute(perm, col)
  {
    hide Times, Quot, Rem, Config.Permute;
    var x := Locate(c, height, sector);
    perm, col := Quot(x.group, c.ngroups), Rem(Position(c, x), c.ndisks);
  }

  /** The logical sector of a logical column, a row of the children and a slot of the row. */
  lemma SectorOf(c: Config, height: nat, col: nat, row: nat, slot: nat) returns (sector: nat)
    requires c.Valid() && height > 0 && col < c.ndisks && slot < height
    ensures c.SliceRows() > 0
    ensures Place(c, height, sector) == (c.Permute(Quot(row, c.SliceRows()), col), Times(row, height) + slot)
  {
    SliceIsWhole(c);
    hide Times, Quot, Rem, Config.Permute, Config.SliceRows;
    var t := Times(row, c.ndisks) + col;
    var x := Coordinates(Quot(t, c.groupwidth), slot, Rem(t, c.groupwidth));
    QuotRemIs(row, c.ndisks, col);
    QuotRem(t, c.groupwidth);
    sector := Times(Times(x.group, height) + x.slot, c.groupwidth) + x.lane;
    LocateIs(c, height, sector, x);
    SliceOfRow(c, x);
  }

  /** The places of logical sectors are exactly those that no spare stands for: with PlaceInjective, the layout is a
      bijection onto the space outside the spares. */
  lemma PlacedOrSpare(c: Config, ashift: nat, child: nat, at: nat)
    requires c.Valid() && ashift <= 24 && child < c.children
    ensures c.devslicesz > 0
    ensures (exists sector :: Place(c, RowSectors(ashift), sector) == (child, at)) <==>
            forall spareId :: 0 <= spareId < c.nspares ==> SpareChild(c, spareId, Times(at, Pow2(ashift))) != child
  {
    SliceBytes(c, ashift);
    hide Times, Quot, Rem, RowSectors, Pow2, Config.Permute, Config.SliceRows, Config.Valid, Config.Shaped, Place, SpareChild, TableOffset, RowOf, IsPermutation;
    var p := Times(at, Pow2(ashift));
    QuotCancel(at, 1, Pow2(ashift));
    if sector: nat :| Place(c, RowSectors(ashift), sector) == (child, at) {
      forall spareId | 0 <= spareId < c.nspares ensures SpareChild(c, spareId, p) != child {
        SpareIsFree(c, ashift, sector, p, spareId);
      }
    } else {
      var spareId := SpareOf(c, ashift, child, at);
    }
  }

  lemma SpareOf(c: Config, ashift: nat, child: nat, at: nat) returns (spareId: nat)
    requires c.Valid() && ashift <= 24 && child < c.children
    requires forall sector :: Place(c, RowSectors(ashift), sector) != (child, at)
    ensures c.devslicesz > 0 && spareId < c.nspares && SpareChild(c, spareId, Times(at, Pow2(ashift))) == child
  {
    var h, unit := RowSectors(ashift), Pow2(ashift);
    SliceBytes(c, ashift);
    var row, slot := Quot(at, h), Rem(at, h);
    var perm := Quot(row, c.SliceRows());
    SliceOfSector(c, ashift, at);
    var col := PermuteOnto(c, perm, child);
    assert c.ndisks + c.nspares == c.children;
    hide Times, Quot, Rem, RowSectors, Pow2, Config.Permute, Config.SliceRows, Place, SpareChild, TableOffset, RowOf, IsPermutation;
    QuotRem(at, h);
    if col < c.ndisks {
      var sector := SectorOf(c, h, col, row, slot);
      assert false;
    }
    spareId := c.children - 1 - col;
    SpareChildIs(c, spareId, Times(at, unit));
  }

  /** The slice of the permutation that spares use at a sector. */
  lemma SliceOfSector(c: Config, ashift: nat, at: nat)
    requires c.Valid() && ashift <= 24
    ensures c.devslicesz > 0 && c.SliceRows() > 0
    ensures Quot(Times(at, Pow2(ashift)), c.devslicesz) == Quot(Quot(at, RowSectors(ashift)), c.SliceRows())
  {
    SliceBytes(c, ashift);
    hide Times, Quot, Rem, RowSectors, Pow2, Config.SliceRows;
    var h, unit := RowSectors(ashift), Pow2(ashift);
    TimesPositive(c.SliceRows(), h);
    QuotCancel(at, Times(c.SliceRows(), h), unit);
    QuotQuot(at, h, c.SliceRows());
  }

  /** So, for a mapped block: at every offset inside a column, no spare is that column's child. */
  lemma SparesAvoidBlock(c: Config, rows: seq<Map>, offset: nat, psize: nat, ashift: nat, start: nat, sectors: nat,
                         j: nat, i: nat, k: nat, p: nat, spareId: nat)
    requires IsBlock(c, rows, offset, psize, ashift, start, sectors) && Uses(c, ashift, start, sectors, j, i, k)
    requires spareId < c.nspares && Quot(p, Pow2(ashift)) == Quot(rows[j].cols[i].offset, Pow2(ashift)) + k
    ensures c.devslicesz > 0 && SpareChild(c, spareId, p) != rows[j].cols[i].devidx
  {
    BlockWithinExtent(c, rows, offset, psize, ashift, start, sectors, j, i, k);
    hide Times, Quot, Rem, RowSectors, RowsFor, RowShape, IsRow, Place, Pieces, Asize, BlockSector, SpareChild;
    SpareIsFree(c, ashift, BlockSector(c, RowSectors(ashift), start, sectors, j, i, k), p, spareId);
  }
}
