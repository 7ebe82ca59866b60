/** dRAID geometry: configuration, permuted children, and the place of every logical sector. */
module DraidGeometry {
  import opened Wrappers
  import opened Arith
  import opened DraidPerms

  const ROWHEIGHT: nat := 0x100_0000
  const MAX_PARITY: nat := 3

  datatype DraidError = NoMap(children: nat) | Geometry | MapChecksum(children: nat)

  datatype Config = Config(
    ndata: nat, nparity: nat, nspares: nat, children: nat, ngroups: nat, nperms: nat, perms: seq<nat>,
    groupwidth: nat, ndisks: nat, groupsz: nat, devslicesz: nat)
  {
    /** What the constructor checks, and what the generated table provides. */
    ghost predicate Valid() {
      && Shaped()
      && Rem(Times(groupwidth, ngroups), ndisks) == 0
      && groupsz == Times(groupwidth, ROWHEIGHT) && devslicesz == Quot(Times(groupsz, ngroups), ndisks)
    }

    ghost predicate Shaped() {
      && TableValid()
      && 0 < ndata && 0 < nparity <= MAX_PARITY && 0 < ngroups
      && groupwidth == ndata + nparity && ndisks + nspares == children && groupwidth <= ndisks
    }

    ghost predicate TableSized() {
      0 < nperms && 0 < children && |perms| == Times(children, nperms)
    }

    ghost predicate TableValid() {
      && TableSized()
      && forall r :: 0 <= r < nperms ==> IsPermutation(RowOf(perms, children, r))
    }

    /** Rows of ROWHEIGHT per child in one slice: the unit after which the permutation changes. */
    function SliceRows(): nat
      requires ndisks > 0
    {
      Quot(Times(groupwidth, ngroups), ndisks)
    }

    /** Permuted children: an entry of the table's row, rotated; permutation indices past the table rotate further. */
    function Permute(pindex: nat, index: nat): nat
      requires TableSized() && index < children
    {
      var poff := TableOffset(pindex, nperms, children);
      Rem(perms[Times(Quot(poff, children), children) + index] + Rem(poff, children), children)
    }
  }

  /** Where in the table a permutation index points; indices past the table wrap around. */
  function TableOffset(pindex: nat, nperms: nat, children: nat): (poff: nat)
    requires nperms > 0 && children > 0
    ensures Quot(poff, children) < nperms && Times(Quot(poff, children), children) + children <= Times(children, nperms)
  {
    TimesPositive(nperms, children);
    var poff := Rem(pindex, Times(nperms, children));
    RowIndexInRange(poff, nperms, children);
    poff
  }

  lemma RowIndexInRange(poff: nat, nperms: nat, children: nat)
    requires children > 0 && poff < Times(nperms, children)
    ensures Quot(poff, children) < nperms && Times(Quot(poff, children), children) + children <= Times(children, nperms)
  {
    hide Times, Quot;
    QuotBelow(poff, nperms, children);
    BelowTimes(Quot(poff, children), nperms, children, children - 1);
    TimesComm(children, nperms);
  }

  predicate Fits(ndata: nat, nparity: nat, nspares: nat, children: nat, ngroups: nat) {
    0 < nparity <= MAX_PARITY && 0 < ngroups && 0 < ndata && ndata + nparity + nspares <= children
  }

  lemma TableIsValid(perms: seq<nat>, children: nat, nperms: nat, rand: Generator)
    requires children > 0
    requires forall i :: 0 <= i < nperms ==> RowOf(perms, children, i) == PermRow(children, i, rand)
    ensures forall i :: 0 <= i < nperms ==> IsPermutation(RowOf(perms, children, i))
  {
    hide IsPermutation, PermRow, RowOf;
    forall i | 0 <= i < nperms ensures IsPermutation(RowOf(perms, children, i)) {
      EveryRowIsPermutation(children, i, rand);
    }
  }

  /** Why a configuration is refused, if it is. */
  function Refusal(ndata: nat, nparity: nat, nspares: nat, children: nat, ngroups: nat,
                   entry: Option<(nat, Generator)>, verified: seq<nat> -> bool): Option<DraidError>
  {
    if !Fits(ndata, nparity, nspares, children, ngroups) then Some(Geometry)
    else if entry.None? then Some(NoMap(children))
    else if !verified(Table(children, entry.value.0, entry.value.1)) then Some(MapChecksum(children))
    else if Rem(Times(ndata + nparity, ngroups), children - nspares) != 0 then Some(Geometry)
    else None
  }

  /** Build and verify the configuration. `entry` is the table's row for this child count (permutation count and generator), `verified` whether its checksum matches. */
  method NewConfig(ndata: nat, nparity: nat, nspares: nat, children: nat, ngroups: nat,
                   entry: Option<(nat, Generator)>, verified: seq<nat> -> bool)
    returns (r: Result<Config, DraidError>)
    requires entry.Some? ==> 2 <= children < 256 && entry.value.0 > 0
    ensures r.Ok? ==> r.value.Valid() && verified(r.value.perms)
    ensures r.Ok? ==> var c := r.value;
              (c.ndata, c.nparity, c.nspares, c.children, c.ngroups) == (ndata, nparity, nspares, children, ngroups)
    ensures r.Ok? ==> entry.Some? && r.value.nperms == entry.value.0 && r.value.perms == Table(children, entry.value.0, entry.value.1)
    // Which answer, in the order of the checks: counts, table row, checksum, divisibility.
    ensures r.Err? <==> Refusal(ndata, nparity, nspares, children, ngroups, entry, verified).Some?
    ensures r.Err? ==> Some(r.error) == Refusal(ndata, nparity, nspares, children, ngroups, entry, verified)
  {
    hide Times, Rem, Quot, Table, RowOf, PermRow, IsPermutation;
    if nparity == 0 || nparity > MAX_PARITY {
      return Err(Geometry);
    }
    if ngroups == 0 || children < ndata + nparity + nspares || ndata == 0 {
      return Err(Geometry);
    }
    if entry.None? {
      return Err(NoMap(children));
    }
    var (nperms, rand) := entry.value;
    var table := GeneratePerms(children, nperms, rand);
    var perms := table[..];
    if !verified(perms) {
      return Err(MapChecksum(children));
    }
    var groupwidth, ndisks := ndata + nparity, children - nspares;
    if groupwidth > ndisks || Rem(Times(groupwidth, ngroups), ndisks) != 0 {
      return Err(Geometry);
    }
    TableIsValid(perms, children, nperms, rand);
    var groupsz := Times(groupwidth, ROWHEIGHT);
    return Ok(Config(ndata, nparity, nspares, children, ngroups, nperms, perms, groupwidth, ndisks, groupsz, Quot(Times(groupsz, ngroups), ndisks)));
  }

  /** For every permutation index, permute is one-to-one on child indices. */
  lemma PermuteInjective(c: Config, pindex: nat, i: nat, j: nat)
    requires c.TableValid() && i < c.children && j < c.children
    ensures c.Permute(pindex, i) < c.children
    ensures i != j ==> c.Permute(pindex, i) != c.Permute(pindex, j)
  {
    hide Config.Permute;
    var r, shift := PermuteIs(c, pindex, i);
    var r', shift' := PermuteIs(c, pindex, j);
    var row := RowOf(c.perms, c.children, r);
    assert IsPermutation(row) && |row| == c.children;
    if i != j {
      RotateInjective(row[i], row[j], shift, c.children);
    }
  }

  /** And onto them: every child is some logical column's. */
  lemma PermuteOnto(c: Config, pindex: nat, child: nat) returns (i: nat)
    requires c.TableValid() && child < c.children
    ensures i < c.children && c.Permute(pindex, i) == child
  {
    var r, shift := PermuteIs(c, pindex, 0);
    var row := RowOf(c.perms, c.children, r);
    assert IsPermutation(row) && |row| == c.children;
    hide Times, Quot, Rem, RowOf, IsPermutation, Config.Permute;
    var v := Unrotated(child, shift, c.children);
    i := PermutationOnto(row, v);
    var r', shift' := PermuteIs(c, pindex, i);
  }

  /** The entry that rotation by `shift` takes to `child`. */
  lemma Unrotated(child: nat, shift: nat, n: nat) returns (v: nat)
    requires child < n && shift < n
    ensures v < n && Rem(v + shift, n) == child
  {
    hide Times, Quot, Rem;
    TimesAdd(0, 0, n);
    if child >= shift {
      v := child - shift;
      QuotRemIs(0, n, child);
    } else {
      v := child + n - shift;
      QuotRemIs(1, n, child);
    }
  }

  lemma PermuteIs(c: Config, pindex: nat, i: nat) returns (r: nat, shift: nat)
    requires c.TableValid() && i < c.children
    ensures r == Quot(TableOffset(pindex, c.nperms, c.children), c.children) < c.nperms && |RowOf(c.perms, c.children, r)| == c.children
    ensures shift == Rem(TableOffset(pindex, c.nperms, c.children), c.children) < c.children
    ensures c.Permute(pindex, i) == Rem(RowOf(c.perms, c.children, r)[i] + shift, c.children)
  {
    var poff := TableOffset(pindex, c.nperms, c.children);
    r, shift := Quot(poff, c.children), Rem(poff, c.children);
    hide Times, Quot, Rem, TableOffset;
  }

  lemma RotateInjective(a: nat, b: nat, s: nat, n: nat)
    requires a < n && b < n && a != b
    ensures Rem(a + s, n) != Rem(b + s, n)
  {
    hide Times, Quot, Rem;
    RemDiffers(a + s, b + s, n);
  }
}
