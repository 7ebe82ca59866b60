/** RAIDZ layout: which sectors of which children hold a block. */
module RaidzMap {
  import opened Arith

  /** One column of a stripe: child, byte offset on that child, bytes. */
  datatype Column = Column(devidx: nat, offset: nat, size: nat)

  datatype Map = Map(cols: seq<Column>, nparity: nat, acols: nat, bigcols: nat, asize: nat, nskip: nat)

  // ----- The shape of a stripe, in sectors

  /** A stripe of s data sectors over dcols children: q full rows and r sectors more. */
  datatype Shape = Shape(dcols: nat, nparity: nat, s: nat, q: nat, r: nat) {
    ghost predicate Valid() {
      nparity < dcols && r < dcols - nparity && s == Times(q, dcols - nparity) + r
    }

    function Big(): nat { if r == 0 then 0 else r + nparity }

    function Total(): nat { s + Times(nparity, q + if r != 0 then 1 else 0) }

    function Active(): nat { if q == 0 then Big() else dcols }

    function Columns(): nat {
      if q == 0 then Min(dcols, RoundUp(Big(), nparity + 1)) else dcols
    }

    /** Sectors in column c. */
    function Height(c: nat): nat { HeightOf(q, Big(), Active(), c) }

    function Skip(): nat { RoundUp(Total(), nparity + 1) - Total() }
  }

  function RoundUp(a: nat, d: nat): (r: nat)
    requires d > 0
    ensures a <= r < a + d
  {
    CeilDivBounds(a, d);
    Times(CeilDiv(a, d), d)
  }

  /** The sectors fill q full rows and Big columns of one more. */
  lemma TotalIsRows(h: Shape)
    requires h.Valid()
    ensures h.Total() == Times(h.q, h.dcols) + h.Big() && h.Big() < h.dcols && h.Big() <= h.Active() <= h.Columns() <= h.dcols
  {
    hide Times;
    TimesComm(h.nparity, h.q);
    TimesComm(h.nparity, h.q + 1);
    TimesComm(h.q, h.dcols - h.nparity);
    TimesComm(h.q, h.dcols);
    TimesAdd(h.dcols - h.nparity, h.nparity, h.q);
    TimesComm(h.q + 1, h.nparity);
    TimesAdd(h.q, 1, h.nparity);
  }

  function HeightOf(q: nat, big: nat, active: nat, c: nat): nat {
    if c >= active then 0 else if c < big then q + 1 else q
  }

  ghost function SumHeights(q: nat, big: nat, active: nat, lo: nat, hi: nat): nat
    requires lo <= hi
    decreases hi
  {
    if lo == hi then 0 else SumHeights(q, big, active, lo, hi - 1) + HeightOf(q, big, active, hi - 1)
  }

  lemma {:induction false} SumHeightsIs(q: nat, big: nat, active: nat, lo: nat, hi: nat)
    requires lo <= hi && big <= active
    ensures SumHeights(q, big, active, lo, hi) == Times(Min(hi, active) - Min(lo, active), q) + (Min(hi, big) - Min(lo, big))
    decreases hi
  {
    if lo < hi {
      SumHeightsIs(q, big, active, lo, hi - 1);
      hide Times;
      TimesAdd(Min(hi - 1, active) - Min(lo, active), 1, q);
    } else {
      TimesAdd(0, 0, q);
    }
  }

  /** All columns together hold Total sectors; the data columns hold exactly the block's s sectors. */
  lemma HeightsAddUp(h: Shape)
    requires h.Valid()
    ensures SumHeights(h.q, h.Big(), h.Active(), 0, h.Columns()) == h.Total()
    ensures h.s > 0 ==> h.nparity <= h.Active() && SumHeights(h.q, h.Big(), h.Active(), h.nparity, h.Active()) == h.s
  {
    TotalIsRows(h);
    hide Shape.Total, Times, Shape.Columns, SumHeights;
    var q, big, active := h.q, h.Big(), h.Active();
    TimesZero(active);
    TimesZero(h.dcols);
    TimesZero(h.dcols - h.nparity);
    TimesComm(active, q);
    TimesComm(active - Min(h.nparity, active), q);
    TimesZero(active - Min(h.nparity, active));
    SumHeightsIs(q, big, active, 0, h.Columns());
    if h.s > 0 {
      SumHeightsIs(q, big, active, h.nparity, active);
    }
  }

  lemma TimesZero(a: nat)
    ensures Times(0, a) == 0 && Times(a, 0) == 0
  {}

  /** The same with the unused trailing columns counted in. */
  lemma DataHeights(h: Shape)
    requires h.Valid() && h.s > 0
    ensures SumHeights(h.q, h.Big(), h.Active(), h.nparity, h.dcols) == h.s
  {
    TotalIsRows(h);
    HeightsAddUp(h);
    hide Shape.Total, Times, SumHeights, Shape.Columns;
    SumHeightsIs(h.q, h.Big(), h.Active(), h.nparity, h.Active());
    SumHeightsIs(h.q, h.Big(), h.Active(), h.nparity, h.dcols);
  }

  // ----- Columns on disk

  /** The column starts at top-level sector `start` (child start mod dcols, row start div dcols) and is `height` sectors tall. */
  predicate ColumnAt(col: Column, unit: nat, dcols: nat, start: nat, height: nat)
    requires dcols > 0
  {
    col.devidx == Rem(start, dcols) && col.offset == Times(Quot(start, dcols), unit) && col.size == Times(height, unit)
  }

  /** Single-parity blocks on odd MiB boundaries trade the places of columns 0 and 1. */
  predicate Swaps(offset: nat, nparity: nat, columns: nat) {
    nparity == 1 && offset / 0x10_0000 % 2 == 1 && columns >= 2
  }

  function Place(swapped: bool, c: nat): nat {
    if swapped && c < 2 then 1 - c else c
  }

  function ShapeOf(psize: nat, unit: nat, dcols: nat, nparity: nat): (h: Shape)
    requires nparity < dcols && unit > 0
    ensures h.Valid() && h.s == CeilDiv(psize, unit) && h.dcols == dcols && h.nparity == nparity
  {
    var s := CeilDiv(psize, unit);
    QuotRem(s, dcols - nparity);
    var q := Quot(s, dcols - nparity);
    Shape(dcols, nparity, s, q, s - Times(q, dcols - nparity))
  }

  /** m lays out h at sector b: column c has its height and sits Place(c) sectors after the first. */
  ghost predicate IsLayout(m: Map, h: Shape, unit: nat, b: nat, swapped: bool) {
    && h.Valid()
    && |m.cols| == h.Columns() && m.nparity == h.nparity && m.acols == h.Active() && m.bigcols == h.Big()
    && m.nskip == h.Skip() && m.asize == Times(h.Total() + h.Skip(), unit)
    && forall c :: 0 <= c < |m.cols| ==> ColumnAt(m.cols[c], unit, h.dcols, b + Place(swapped, c), h.Height(c))
  }

  /** Moving right by c columns wraps to the next row at most once. */
  lemma NextColumn(b: nat, dcols: nat, c: nat)
    requires c < dcols
    ensures Rem(b + c, dcols) == if Rem(b, dcols) + c >= dcols then Rem(b, dcols) + c - dcols else Rem(b, dcols) + c
    ensures Quot(b + c, dcols) == Quot(b, dcols) + if Rem(b, dcols) + c >= dcols then 1 else 0
  {
    hide Times, Quot, Rem;
    var o, f := Quot(b, dcols), Rem(b, dcols);
    QuotRem(b, dcols);
    TimesAdd(o, 1, dcols);
    if f + c >= dcols {
      QuotRemIs(o + 1, dcols, f + c - dcols);
    } else {
      QuotRemIs(o, dcols, f + c);
    }
  }

  /** The column loop: place scols columns from sector b on and total their bytes. */
  method FillColumns(b: nat, unit: nat, dcols: nat, q: nat, bc: nat, acols: nat, scols: nat) returns (cols: seq<Column>, asize: nat)
    requires 0 < unit && scols <= dcols && 0 < dcols
    ensures |cols| == scols && asize == Times(SumHeights(q, bc, acols, 0, scols), unit)
    ensures forall c :: 0 <= c < scols ==> ColumnAt(cols[c], unit, dcols, b + c, HeightOf(q, bc, acols, c))
  {
    hide Times, Quot, Rem, ColumnAt;
    var f := Rem(b, dcols);
    var o := Times(Quot(b, dcols), unit);
    cols, asize := [], 0;
    TimesAdd(0, 0, unit);
    for c := 0 to scols
      invariant |cols| == c && asize == Times(SumHeights(q, bc, acols, 0, c), unit)
      invariant forall i :: 0 <= i < c ==> ColumnAt(cols[i], unit, dcols, b + i, HeightOf(q, bc, acols, i))
    {
      var col, coff := f + c, o;
      if col >= dcols {
        col := col - dcols;
        coff := coff + unit;
      }
      var size := if c >= acols then 0 else if c < bc then Times(q + 1, unit) else Times(q, unit);
      NextColumnAt(b, dcols, c, unit, col, coff, HeightOf(q, bc, acols, c));
      TimesAdd(SumHeights(q, bc, acols, 0, c), HeightOf(q, bc, acols, c), unit);
      asize := asize + size;
      cols := cols + [Column(col, coff, size)];
    }
  }

  lemma NextColumnAt(b: nat, dcols: nat, c: nat, unit: nat, col: nat, coff: nat, height: nat)
    requires c < dcols
    requires if Rem(b, dcols) + c >= dcols then col == Rem(b, dcols) + c - dcols && coff == Times(Quot(b, dcols), unit) + unit
             else col == Rem(b, dcols) + c && coff == Times(Quot(b, dcols), unit)
    ensures ColumnAt(Column(col, coff, Times(height, unit)), unit, dcols, b + c, height)
  {
    hide Times, Quot, Rem;
    NextColumn(b, dcols, c);
    TimesAdd(Quot(b, dcols), 1, unit);
  }

  lemma RoundedSize(tot: nat, d: nat, unit: nat)
    requires d > 0 && unit > 0
    ensures Times(d, unit) > 0 && Times(CeilDiv(Times(tot, unit), Times(d, unit)), Times(d, unit)) == Times(RoundUp(tot, d), unit)
  {
    CeilDivScaled(tot, d, unit);
    hide Times, CeilDiv;
    TimesPositive(d, unit);
    TimesAssoc(CeilDiv(tot, d), d, unit);
  }

  /** The stripe's numbers: big columns, total sectors, columns accessed, columns allocated. */
  method MeasureStripe(psize: nat, unit: nat, dcols: nat, nparity: nat)
    returns (q: nat, bc: nat, tot: nat, acols: nat, scols: nat)
    requires nparity < dcols && unit > 0
    ensures var h := ShapeOf(psize, unit, dcols, nparity);
      q == h.q && bc == h.Big() && tot == h.Total() && acols == h.Active() && scols == h.Columns()
  {
    var s := CeilDiv(psize, unit);
    var ndata := dcols - nparity;
    QuotRem(s, ndata);
    q := Quot(s, ndata);
    var r := s - Times(q, ndata);
    assert ShapeOf(psize, unit, dcols, nparity) == Shape(dcols, nparity, s, q, r);
    hide CeilDiv, ShapeOf, Times, Quot;
    bc := if r == 0 then 0 else r + nparity;
    tot := s + Times(nparity, q + if r != 0 then 1 else 0);
    acols, scols := dcols, dcols;
    if q == 0 {
      acols := bc;
      scols := Min(dcols, RoundUp(bc, nparity + 1));
    }
  }

  /** m is the map of psize bytes at byte `offset`. */
  ghost predicate IsMap(m: Map, offset: nat, psize: nat, unit: nat, dcols: nat, nparity: nat) {
    nparity < dcols && unit > 0 &&
    IsLayout(m, ShapeOf(psize, unit, dcols, nparity), unit, Quot(offset, unit), Swaps(offset, nparity, |m.cols|))
  }

  /** cols is placed, with the places of the first two columns exchanged when `swapped`. */
  predicate Rearranged(placed: seq<Column>, cols: seq<Column>, swapped: bool) {
    && |cols| == |placed| && (swapped ==> |placed| >= 2)
    && forall c :: 0 <= c < |placed| ==>
         var p := Place(swapped, c);
         p < |placed| && cols[c] == Column(placed[p].devidx, placed[p].offset, placed[c].size)
  }

  /** Single parity alternates between the first two children, every MiB. */
  method SwapFirst(placed: seq<Column>, offset: nat, nparity: nat) returns (cols: seq<Column>)
    ensures Rearranged(placed, cols, Swaps(offset, nparity, |placed|))
  {
    cols := placed;
    if nparity == 1 && offset / 0x10_0000 % 2 != 0 && |cols| >= 2 {
      var d0, o0 := cols[0].devidx, cols[0].offset;
      cols := cols[0 := cols[0].(devidx := cols[1].devidx, offset := cols[1].offset)];
      cols := cols[1 := cols[1].(devidx := d0, offset := o0)];
    }
  }

  method MapBlock(offset: nat, psize: nat, ashift: nat, dcols: nat, nparity: nat) returns (m: Map)
    requires nparity < dcols
    ensures IsMap(m, offset, psize, Pow2(ashift), dcols, nparity)
  {
    hide CeilDiv, Times, Quot, ShapeOf, ColumnAt, RoundUp, Rearranged, Swaps;
    hide Shape.Columns, Shape.Active, Shape.Big, Shape.Total;
    var unit := Pow2(ashift);
    var b := Quot(offset, unit);
    ghost var h := ShapeOf(psize, unit, dcols, nparity);
    var q, bc, tot, acols, scols := MeasureStripe(psize, unit, dcols, nparity);
    TotalIsRows(h);
    HeightsAddUp(h);
    var placed, asize := FillColumns(b, unit, dcols, q, bc, acols, scols);
    var group := Times(nparity + 1, unit);
    RoundedSize(tot, nparity + 1, unit);
    var rmAsize := Times(CeilDiv(asize, group), group);
    var nskip := RoundUp(tot, nparity + 1) - tot;
    var cols := SwapFirst(placed, offset, nparity);
    m := Map(cols, nparity, acols, bc, rmAsize, nskip);
    Placed(placed, m, h, unit, b, Swaps(offset, nparity, |cols|));
  }

  /** A column's size at another column's place. */
  lemma MovedTo(col: Column, other: Column, unit: nat, dcols: nat, start: nat, height: nat, start': nat, height': nat)
    requires dcols > 0 && ColumnAt(col, unit, dcols, start, height) && ColumnAt(other, unit, dcols, start', height')
    ensures ColumnAt(Column(other.devidx, other.offset, col.size), unit, dcols, start', height)
  {}

  lemma Placed(placed: seq<Column>, m: Map, h: Shape, unit: nat, b: nat, swapped: bool)
    requires h.Valid() && |placed| == h.Columns() && Rearranged(placed, m.cols, swapped)
    requires forall c :: 0 <= c < |placed| ==> ColumnAt(placed[c], unit, h.dcols, b + c, h.Height(c))
    requires m.nparity == h.nparity && m.acols == h.Active() && m.bigcols == h.Big()
    requires m.nskip == h.Skip() && m.asize == Times(h.Total() + h.Skip(), unit)
    ensures IsLayout(m, h, unit, b, swapped)
  {
    hide Times, Quot, Rem, ColumnAt, Place, Shape.Total, Shape.Skip, Shape.Height, Shape.Columns, Shape.Active, Shape.Big;
    forall c | 0 <= c < |m.cols|
      ensures ColumnAt(m.cols[c], unit, h.dcols, b + Place(swapped, c), h.Height(c))
    {
      var p := Place(swapped, c);
      MovedTo(placed[c], placed[p], unit, h.dcols, b + c, h.Height(c), b + p, h.Height(p));
    }
  }

  // ----- What the layout means

  /** The swap moves two columns of equal height: the big columns are never just one. */
  lemma SwapKeepsHeight(h: Shape, c: nat)
    requires h.Valid() && h.nparity == 1 && h.Columns() >= 2
    ensures h.Height(Place(true, c)) == h.Height(c)
  {
    if h.q == 0 && h.Big() == 0 {
      assert RoundUp(0, 2) < 2;
    }
  }

  /** Number of the k-th sector of column c in the vdev's top-level order. */
  function TopSector(m: Map, unit: nat, dcols: nat, c: nat, k: nat): nat
    requires c < |m.cols| && unit > 0
  {
    Times(Quot(m.cols[c].offset, unit) + k, dcols) + m.cols[c].devidx
  }

  lemma SectorArithmetic(start: nat, d: nat, unit: nat, k: nat)
    requires d > 0 && unit > 0
    ensures Times(Quot(Times(Quot(start, d), unit), unit) + k, d) + Rem(start, d) == start + Times(k, d)
  {
    hide Times, Quot, Rem;
    QuotCancel(Quot(start, d), 1, unit);
    TimesAdd(Quot(start, d), k, d);
    QuotRem(start, d);
  }

  lemma TopSectorIs(m: Map, h: Shape, unit: nat, b: nat, swapped: bool, c: nat, k: nat)
    requires IsLayout(m, h, unit, b, swapped) && unit > 0 && c < |m.cols|
    ensures TopSector(m, unit, h.dcols, c, k) == b + Place(swapped, c) + Times(k, h.dcols)
  {
    hide Times, Quot, Rem, Shape.Total, Shape.Columns, Shape.Skip;
    assert ColumnAt(m.cols[c], unit, h.dcols, b + Place(swapped, c), h.Height(c));
    SectorArithmetic(b + Place(swapped, c), h.dcols, unit, k);
  }

  lemma FullRows(p: nat, k: nat, d: nat, q: nat, big: nat)
    requires p < d && big < d
    ensures k < q || (k == q && p < big) <==> p + Times(k, d) < Times(q, d) + big
  {
    hide Times;
    if k < q {
      BelowTimes(k, q, d, p);
    } else if k > q {
      BelowTimes(q, k, d, big);
    }
  }

  /** Sector (p, k) of the stripe lies within Total exactly when p is tall enough. */
  lemma InStripe(h: Shape, p: nat, k: nat)
    requires h.Valid() && p < h.dcols
    ensures k < h.Height(p) <==> p + Times(k, h.dcols) < h.Total()
  {
    TotalIsRows(h);
    hide Times, Shape.Total, Shape.Valid, Shape.Columns;
    FullRows(p, k, h.dcols, h.q, h.Big());
  }

  /** The columns cover the top-level sectors [b, b + Total): nothing outside, ... */
  lemma CoversOnly(m: Map, h: Shape, unit: nat, b: nat, swapped: bool, c: nat, k: nat)
    requires IsLayout(m, h, unit, b, swapped) && unit > 0 && (swapped ==> h.nparity == 1 && |m.cols| >= 2)
    requires c < |m.cols| && k < h.Height(c)
    ensures b <= TopSector(m, unit, h.dcols, c, k) < b + h.Total()
  {
    TotalIsRows(h);
    if swapped { SwapKeepsHeight(h, c); }
    TopSectorIs(m, h, unit, b, swapped, c, k);
    PlaceBelow(swapped, c, |m.cols|);
    assert |m.cols| == h.Columns();
    hide Times, TopSector, Shape.Total, Shape.Height, Shape.Columns, IsLayout;
    InStripe(h, Place(swapped, c), k);
  }

  lemma PlaceBelow(swapped: bool, c: nat, n: nat)
    requires c < n && (swapped ==> n >= 2)
    ensures Place(swapped, c) < n
  {}

  lemma FindSector(h: Shape, t: nat) returns (p: nat, k: nat)
    requires h.Valid() && t < h.Total()
    ensures p < h.Columns() && k < h.Height(p) && t == p + Times(k, h.dcols)
  {
    TotalIsRows(h);
    p, k := Rem(t, h.dcols), Quot(t, h.dcols);
    hide Times, Quot, Rem, Shape.Total, Shape.Columns;
    QuotRem(t, h.dcols);
    InStripe(h, p, k);
    assert p < h.Active();
  }

  /** ... everything inside, ... */
  lemma CoversAll(m: Map, h: Shape, unit: nat, b: nat, swapped: bool, n: nat) returns (c: nat, k: nat)
    requires IsLayout(m, h, unit, b, swapped) && unit > 0 && (swapped ==> h.nparity == 1 && |m.cols| >= 2)
    requires b <= n < b + h.Total()
    ensures c < |m.cols| && k < h.Height(c) && TopSector(m, unit, h.dcols, c, k) == n
  {
    var p;
    p, k := FindSector(h, n - b);
    c := Place(swapped, p);
    if swapped { SwapKeepsHeight(h, p); }
    PlaceBelow(swapped, p, h.Columns());
    hide Times, Shape.Total, Shape.Columns, Shape.Height, TopSector;
    TopSectorIs(m, h, unit, b, swapped, c, k);
  }

  /** ... and each sector once. */
  lemma CoversOnce(m: Map, h: Shape, unit: nat, b: nat, swapped: bool, c: nat, k: nat, c': nat, k': nat)
    requires IsLayout(m, h, unit, b, swapped) && unit > 0 && (swapped ==> |m.cols| >= 2)
    requires c < |m.cols| && c' < |m.cols|
    requires TopSector(m, unit, h.dcols, c, k) == TopSector(m, unit, h.dcols, c', k')
    ensures c == c' && k == k'
  {
    TotalIsRows(h);
    assert |m.cols| == h.Columns();
    TopSectorIs(m, h, unit, b, swapped, c, k);
    TopSectorIs(m, h, unit, b, swapped, c', k');
    hide Times, TopSector, IsLayout, Shape.Columns, Shape.Total;
    QuotRemUnique(k, Place(swapped, c), k', Place(swapped, c'), h.dcols);
  }

  /** No child holds two columns, so losing a child loses at most one column. */
  lemma OneColumnPerChild(m: Map, h: Shape, unit: nat, b: nat, swapped: bool, c: nat, c': nat)
    requires IsLayout(m, h, unit, b, swapped) && unit > 0 && (swapped ==> |m.cols| >= 2)
    requires c < c' < |m.cols|
    ensures m.cols[c].devidx < h.dcols && m.cols[c].devidx != m.cols[c'].devidx
  {
    TotalIsRows(h);
    var d, s, s' := h.dcols, b + Place(swapped, c), b + Place(swapped, c');
    assert ColumnAt(m.cols[c], unit, d, s, h.Height(c)) && ColumnAt(m.cols[c'], unit, d, s', h.Height(c'));
    assert |m.cols| == h.Columns();
    hide Times, Quot, Rem, IsLayout, Shape.Total, Shape.Height;
    RemDiffers(s, s', d);
  }

  /** The byte extent [offset, offset + asize) that the allocator sees contains every sector the block uses. */
  lemma WithinExtent(m: Map, h: Shape, unit: nat, b: nat, swapped: bool, c: nat, k: nat)
    requires IsLayout(m, h, unit, b, swapped) && unit > 0 && (swapped ==> h.nparity == 1 && |m.cols| >= 2)
    requires c < |m.cols| && k < h.Height(c)
    ensures Times(b, unit) <= Times(TopSector(m, unit, h.dcols, c, k), unit) < Times(b, unit) + m.asize
  {
    CoversOnly(m, h, unit, b, swapped, c, k);
    var n := TopSector(m, unit, h.dcols, c, k);
    assert m.asize == Times(h.Total() + h.Skip(), unit);
    hide Times, TopSector, IsLayout;
    TimesAdd(b, h.Total() + h.Skip(), unit);
    TimesOrder(n, b + (h.Total() + h.Skip()), unit);
    TimesOrder(n, b, unit);
  }

  /** Blocks whose extents are disjoint share no sector of any child. */
  lemma NoAliasing(m: Map, h: Shape, b: nat, swapped: bool, c: nat, k: nat,
                   m': Map, h': Shape, b': nat, swapped': bool, c': nat, k': nat, unit: nat)
    requires IsLayout(m, h, unit, b, swapped) && (swapped ==> h.nparity == 1 && |m.cols| >= 2)
    requires IsLayout(m', h', unit, b', swapped') && (swapped' ==> h'.nparity == 1 && |m'.cols| >= 2)
    requires unit > 0 && h.dcols == h'.dcols
    requires c < |m.cols| && k < h.Height(c) && c' < |m'.cols| && k' < h'.Height(c')
    requires Times(b, unit) + m.asize <= Times(b', unit) || Times(b', unit) + m'.asize <= Times(b, unit)
    ensures m.cols[c].devidx != m'.cols[c'].devidx
         || Quot(m.cols[c].offset, unit) + k != Quot(m'.cols[c'].offset, unit) + k'
  {
    hide Times, Quot, IsLayout, TopSector, Shape.Height;
    WithinExtent(m, h, unit, b, swapped, c, k);
    WithinExtent(m', h', unit, b', swapped', c', k');
    SameTopSector(m, c, k, m', c', k', unit, h.dcols);
  }

  lemma SameTopSector(m: Map, c: nat, k: nat, m': Map, c': nat, k': nat, unit: nat, dcols: nat)
    requires c < |m.cols| && c' < |m'.cols| && unit > 0
    ensures m.cols[c].devidx == m'.cols[c'].devidx && Quot(m.cols[c].offset, unit) + k == Quot(m'.cols[c'].offset, unit) + k' ==>
            TopSector(m, unit, dcols, c, k) == TopSector(m', unit, dcols, c', k')
  {
    hide Times, Quot;
  }

  /** Sector k of column c of the map is one the block uses. */
  ghost predicate Uses(m: Map, psize: nat, unit: nat, dcols: nat, nparity: nat, c: nat, k: nat) {
    nparity < dcols && unit > 0 && c < |m.cols| && k < ShapeOf(psize, unit, dcols, nparity).Height(c)
  }

  /** In bytes, and for offsets inside a sector too: moved up by offset's place in its sector, every sector used
      lies in [offset, offset + asize). */
  lemma MapWithinExtent(m: Map, offset: nat, psize: nat, unit: nat, dcols: nat, nparity: nat, c: nat, k: nat)
    requires IsMap(m, offset, psize, unit, dcols, nparity) && Uses(m, psize, unit, dcols, nparity, c, k)
    ensures offset <= Times(TopSector(m, unit, dcols, c, k), unit) + Rem(offset, unit) < offset + m.asize
  {
    hide Times, Quot, Rem, TopSector, IsLayout, ShapeOf, Shape.Height;
    WithinExtent(m, ShapeOf(psize, unit, dcols, nparity), unit, Quot(offset, unit), Swaps(offset, nparity, |m.cols|), c, k);
    QuotRem(offset, unit);
  }

  /** Blocks mapped at byte offsets whose [offset, offset + asize) are disjoint share no sector of any child. */
  lemma MapsNeverAlias(m: Map, offset: nat, psize: nat, c: nat, k: nat,
                       m': Map, offset': nat, psize': nat, c': nat, k': nat, unit: nat, dcols: nat, nparity: nat)
    requires IsMap(m, offset, psize, unit, dcols, nparity) && Uses(m, psize, unit, dcols, nparity, c, k)
    requires IsMap(m', offset', psize', unit, dcols, nparity) && Uses(m', psize', unit, dcols, nparity, c', k')
    requires offset + m.asize <= offset' || offset' + m'.asize <= offset
    ensures m.cols[c].devidx != m'.cols[c'].devidx
         || Quot(m.cols[c].offset, unit) + k != Quot(m'.cols[c'].offset, unit) + k'
  {
    hide Times, Quot, Rem, IsLayout, ShapeOf, Shape.Height, TopSector, Shape.Total, Shape.Skip;
    var h, h' := ShapeOf(psize, unit, dcols, nparity), ShapeOf(psize', unit, dcols, nparity);
    var b, b' := Quot(offset, unit), Quot(offset', unit);
    SizeInSectors(m, h, unit, b, Swaps(offset, nparity, |m.cols|));
    SizeInSectors(m', h', unit, b', Swaps(offset', nparity, |m'.cols|));
    ExtentInSectors(offset, h.Total() + h.Skip(), offset', unit);
    ExtentInSectors(offset', h'.Total() + h'.Skip(), offset, unit);
    NoAliasing(m, h, b, Swaps(offset, nparity, |m.cols|), c, k, m', h', b', Swaps(offset', nparity, |m'.cols|), c', k', unit);
  }

  lemma SizeInSectors(m: Map, h: Shape, unit: nat, b: nat, swapped: bool)
    requires IsLayout(m, h, unit, b, swapped)
    ensures m.asize == Times(h.Total() + h.Skip(), unit)
  {}

  /** An extent of n sectors that ends before offset' ends before the sector of offset'. */
  lemma ExtentInSectors(offset: nat, n: nat, offset': nat, unit: nat)
    requires unit > 0
    ensures offset + Times(n, unit) <= offset' ==> Times(Quot(offset, unit), unit) + Times(n, unit) <= Times(Quot(offset', unit), unit)
  {
    hide Times, Quot, Rem;
    var b, b' := Quot(offset, unit), Quot(offset', unit);
    QuotRem(offset, unit);
    QuotRem(offset', unit);
    TimesAdd(b, n, unit);
    TimesAdd(b', 1, unit);
    TimesOrder(b + n, b' + 1, unit);
    TimesOrder(b', b + n, unit);
  }

  ghost function SumSizes(cols: seq<Column>): nat {
    if |cols| == 0 then 0 else SumSizes(cols[..|cols| - 1]) + cols[|cols| - 1].size
  }

  lemma {:induction false} SumSizesIs(cols: seq<Column>, h: Shape, unit: nat, lo: nat, hi: nat)
    requires lo <= hi <= |cols|
    requires forall c :: 0 <= c < |cols| ==> cols[c].size == Times(h.Height(c), unit)
    ensures SumSizes(cols[lo..hi]) == Times(SumHeights(h.q, h.Big(), h.Active(), lo, hi), unit)
    decreases hi
  {
    hide Times, Shape.Big, Shape.Active;
    TimesAdd(0, 0, unit);
    if lo < hi {
      SumSizesIs(cols, h, unit, lo, hi - 1);
      assert cols[lo..hi][..hi - 1 - lo] == cols[lo..hi - 1];
      TimesAdd(SumHeights(h.q, h.Big(), h.Active(), lo, hi - 1), h.Height(hi - 1), unit);
    }
  }

  /** The data columns hold the block, rounded up to whole sectors, and nothing more. */
  lemma DataHoldsBlock(m: Map, psize: nat, unit: nat, dcols: nat, nparity: nat, b: nat, swapped: bool)
    requires nparity < dcols && unit > 0 && psize > 0
    requires IsLayout(m, ShapeOf(psize, unit, dcols, nparity), unit, b, swapped)
    ensures nparity <= m.acols <= |m.cols|
    ensures SumSizes(m.cols[nparity..m.acols]) == Times(CeilDiv(psize, unit), unit)
  {
    var h := ShapeOf(psize, unit, dcols, nparity);
    CeilDivBounds(psize, unit);
    assert h.s > 0;
    TotalIsRows(h);
    HeightsAddUp(h);
    hide ShapeOf, Times, CeilDiv, SumSizes;
    forall c | 0 <= c < |m.cols| ensures m.cols[c].size == Times(h.Height(c), unit) {
      assert ColumnAt(m.cols[c], unit, h.dcols, b + Place(swapped, c), h.Height(c));
    }
    SumSizesIs(m.cols, h, unit, nparity, h.Active());
  }
}
