/** The permutation rows of dRAID: Fisher-Yates shuffles driven by a pseudo-random generator.
 *
 *  The generator is any function from draw number to value; draws are counted by t. */
module DraidPerms {
  import opened Arith
  import opened Cardinals

  type Generator = nat -> nat

  function Swapped(row: seq<nat>, j: nat, k: nat): (r: seq<nat>)
    requires j < |row| && k < |row|
    ensures |r| == |row|
  {
    row[j := row[k]][k := row[j]]
  }

  /** Fisher-Yates from position j down to 1, starting with draw t. */
  function Shuffled(row: seq<nat>, j: nat, rand: Generator, t: nat): (r: seq<nat>)
    requires j < |row| || j == 0
    ensures |r| == |row|
    decreases j
  {
    if j == 0 then row
    else Shuffled(Swapped(row, j, Rem(rand(t), j + 1)), j - 1, rand, t + 1)
  }

  /** A whole row shuffled takes one draw less than it has entries. */
  function Reshuffled(row: seq<nat>, rand: Generator, t: nat): (r: seq<nat>)
    ensures |r| == |row|
  {
    if |row| == 0 then row else Shuffled(row, |row| - 1, rand, t)
  }

  /** Draws used by the first i rows. */
  function DrawsBefore(n: nat, i: nat): nat
    requires n > 0
  {
    if i == 0 then 0 else DrawsBefore(n, i - 1) + (n - 1)
  }

  /** Row i of the table: the identity shuffled i + 1 times. */
  function PermRow(n: nat, i: nat, rand: Generator): (r: seq<nat>)
    requires n > 0
    ensures |r| == n
  {
    Reshuffled(if i == 0 then Identity(n) else PermRow(n, i - 1, rand), rand, DrawsBefore(n, i))
  }

  /** Every child once. */
  predicate IsPermutation(row: seq<nat>) {
    (forall i :: 0 <= i < |row| ==> row[i] < |row|) && forall i, j :: 0 <= i < j < |row| ==> row[i] != row[j]
  }

  ghost function Values(row: seq<nat>): (s: set<nat>)
    ensures forall x :: x in s <==> x in row
  {
    set x | x in row
  }

  lemma {:induction false} DistinctValues(row: seq<nat>)
    requires forall i, j :: 0 <= i < j < |row| ==> row[i] != row[j]
    ensures |Values(row)| == |row|
  {
    if |row| == 0 {
      assert Values(row) == {};
    } else {
      var n := |row| - 1;
      DistinctValues(row[..n]);
      assert row == row[..n] + [row[n]];
      assert row[n] !in row[..n];
      assert Values(row) == Values(row[..n]) + {row[n]};
    }
  }

  /** Every child is somewhere in a permutation. */
  lemma PermutationOnto(row: seq<nat>, v: nat) returns (i: nat)
    requires IsPermutation(row) && v < |row|
    ensures i < |row| && row[i] == v
  {
    DistinctValues(row);
    SubsetOfEqualSize(Values(row), Below(|row|));
    assert v in Values(row);
    i :| 0 <= i < |row| && row[i] == v;
  }

  function Identity(n: nat): (row: seq<nat>)
    ensures |row| == n && IsPermutation(row)
  {
    seq(n, i => i)
  }

  lemma SwapKeeps(row: seq<nat>, j: nat, k: nat)
    requires j < |row| && k < |row|
    ensures multiset(Swapped(row, j, k)) == multiset(row)
    ensures IsPermutation(row) ==> IsPermutation(Swapped(row, j, k))
  {}

  /** Shuffling keeps the entries, whatever the generator yields. */
  lemma {:induction false} ShuffleKeeps(row: seq<nat>, j: nat, rand: Generator, t: nat)
    requires j < |row| || j == 0
    ensures multiset(Shuffled(row, j, rand, t)) == multiset(row)
    ensures IsPermutation(row) ==> IsPermutation(Shuffled(row, j, rand, t))
    decreases j
  {
    if j > 0 {
      var next := Swapped(row, j, Rem(rand(t), j + 1));
      SwapKeeps(row, j, Rem(rand(t), j + 1));
      ShuffleKeeps(next, j - 1, rand, t + 1);
    }
  }

  lemma {:induction false} EveryRowIsPermutation(n: nat, i: nat, rand: Generator)
    requires n > 0
    ensures IsPermutation(PermRow(n, i, rand))
  {
    hide Shuffled;
    if i > 0 {
      EveryRowIsPermutation(n, i - 1, rand);
    }
    var previous := if i == 0 then Identity(n) else PermRow(n, i - 1, rand);
    ShuffleKeeps(previous, n - 1, rand, DrawsBefore(n, i));
  }

  lemma ShuffleStep(row: seq<nat>, j: nat, rand: Generator, t: nat)
    requires j < |row|
    ensures Shuffled(row, j, rand, t) == if j == 0 then row else Shuffled(Swapped(row, j, Rem(rand(t), j + 1)), j - 1, rand, t + 1)
  {
    hide Swapped, Rem;
  }

  lemma SwapInPlace(row: seq<nat>, j: nat, k: nat)
    requires j < |row| && k < |row|
    ensures Swapped(row, j, k) == row[j := row[k]][k := row[j]]
  {}

  lemma SliceSwapped(before: seq<nat>, after: seq<nat>, lo: nat, n: nat, j: nat, k: nat)
    requires lo + n <= |before| && j < n && k < n
    requires after == Swapped(before, lo + j, lo + k)
    ensures after[lo..lo + n] == Swapped(before[lo..lo + n], j, k)
  {}

  /** Shuffle the slice [lo, lo + n) of perms in place. */
  method ShuffleSlice(perms: array<nat>, lo: nat, n: nat, rand: Generator, t0: nat) returns (t: nat)
    requires n > 0 && lo + n <= perms.Length
    modifies perms
    ensures t == t0 + (n - 1)
    ensures perms[lo..lo + n] == Reshuffled(old(perms[lo..lo + n]), rand, t0)
    ensures forall x :: 0 <= x < perms.Length && !(lo <= x < lo + n) ==> perms[x] == old(perms[x])
  {
    hide Swapped, Shuffled, Rem;
    t := t0;
    var j := n - 1;
    while j > 0
      invariant 0 <= j < n && t + j == t0 + (n - 1)
      invariant Shuffled(perms[lo..lo + n], j, rand, t) == Reshuffled(old(perms[lo..lo + n]), rand, t0)
      invariant forall x :: 0 <= x < perms.Length && !(lo <= x < lo + n) ==> perms[x] == old(perms[x])
    {
      ghost var before := perms[..];
      var k := Rem(rand(t), j + 1);
      perms[lo + j], perms[lo + k] := perms[lo + k], perms[lo + j];
      ShuffleStep(before[lo..lo + n], j, rand, t);
      SwapInPlace(before, lo + j, lo + k);
      assert perms[..] == Swapped(before, lo + j, lo + k);
      SliceSwapped(before, perms[..], lo, n, j, k);
      t := t + 1;
      j := j - 1;
    }
    ShuffleStep(perms[lo..lo + n], 0, rand, t);
  }

  lemma PermRowStep(n: nat, i: nat, rand: Generator)
    requires n > 0
    ensures PermRow(n, i, rand) == Reshuffled(if i == 0 then Identity(n) else PermRow(n, i - 1, rand), rand, DrawsBefore(n, i))
  {}

  /** The flat table: the rows one after the other. */
  function Table(n: nat, nperms: nat, rand: Generator): (t: seq<nat>)
    requires n > 0
    ensures |t| == Times(nperms, n)
  {
    TimesAdd(0, 0, n);
    if nperms == 0 then [] else
      TimesAdd(nperms - 1, 1, n);
      Table(n, nperms - 1, rand) + PermRow(n, nperms - 1, rand)
  }

  lemma NextTableRow(perms: seq<nat>, n: nat, m: nat)
    requires n > 0 && |perms| >= Times(m + 1, n)
    ensures Times(m + 1, n) == Times(m, n) + n
    ensures perms[..Times(m + 1, n)] == perms[..Times(m, n)] + RowOf(perms, n, m)
  {
    TimesAdd(m, 1, n);
    hide Times;
  }

  lemma {:induction false} RowsAreTable(perms: seq<nat>, n: nat, nperms: nat, rand: Generator)
    requires n > 0 && |perms| >= Times(nperms, n)
    requires forall i :: 0 <= i < nperms ==> RowOf(perms, n, i) == PermRow(n, i, rand)
    ensures perms[..Times(nperms, n)] == Table(n, nperms, rand)
  {
    hide Times, RowOf, PermRow;
    if nperms > 0 {
      NextTableRow(perms, n, nperms - 1);
      RowsAreTable(perms, n, nperms - 1, rand);
    } else {
      TimesAdd(0, 0, n);
    }
  }

  /** nperms rows of n children, each a shuffle of the one before, in one flat table. */
  method GeneratePerms(n: nat, nperms: nat, rand: Generator) returns (perms: array<nat>)
    requires 0 < n < 256
    ensures fresh(perms) && perms.Length == Times(n, nperms)
    ensures perms[..] == Table(n, nperms, rand)
    ensures forall i :: 0 <= i < nperms ==> RowOf(perms[..], n, i) == PermRow(n, i, rand)
  {
    hide RowOf, PermRow, Reshuffled, Table;
    perms := new nat[Times(n, nperms)];
    var previous := Identity(n);
    var t := 0;
    for i := 0 to nperms
      invariant t == DrawsBefore(n, i)
      invariant previous == if i == 0 then Identity(n) else PermRow(n, i - 1, rand)
      invariant forall r :: 0 <= r < i ==> RowOf(perms[..], n, r) == PermRow(n, r, rand)
    {
      RowBounds(n, i, nperms);
      PermRowStep(n, i, rand);
      t, previous := NextRow(perms, n, i, previous, rand, t);
    }
    TimesComm(n, nperms);
    RowsAreTable(perms[..], n, nperms, rand);
    assert perms[..][..perms.Length] == perms[..];
  }

  /** Copy the previous row into place i and shuffle it there. */
  method NextRow(perms: array<nat>, n: nat, i: nat, previous: seq<nat>, rand: Generator, t0: nat) returns (t: nat, row: seq<nat>)
    requires 0 < n == |previous| && Times(i, n) + n <= perms.Length
    modifies perms
    ensures t == t0 + (n - 1)
    ensures row == RowOf(perms[..], n, i) == Reshuffled(previous, rand, t0)
    ensures forall r :: 0 <= r < i ==> RowOf(perms[..], n, r) == RowOf(old(perms[..]), n, r)
  {
    var lo := Times(i, n);
    forall x | lo <= x < lo + n {
      perms[x] := previous[x - lo];
    }
    assert perms[lo..lo + n] == previous;
    t := ShuffleSlice(perms, lo, n, rand, t0);
    row := perms[lo..lo + n];
    RowsKept(old(perms[..]), perms[..], n, i);
  }

  /** Row r of a flat table of rows of n. */
  function RowOf(perms: seq<nat>, n: nat, r: nat): (row: seq<nat>)
  {
    if Times(r, n) + n <= |perms| then perms[Times(r, n)..Times(r, n) + n] else []
  }

  lemma RowBounds(n: nat, i: nat, nperms: nat)
    requires i < nperms && n > 0
    ensures Times(i, n) + n <= Times(n, nperms)
  {
    hide Times;
    BelowTimes(i, nperms, n, n - 1);
    TimesComm(n, nperms);
  }

  lemma RowsKept(before: seq<nat>, after: seq<nat>, n: nat, i: nat)
    requires n > 0 && |before| == |after| && Times(i, n) + n <= |before|
    requires forall x :: 0 <= x < |before| && !(Times(i, n) <= x < Times(i, n) + n) ==> after[x] == before[x]
    ensures forall r :: 0 <= r < i ==> RowOf(after, n, r) == RowOf(before, n, r)
  {
    forall r | 0 <= r < i ensures RowOf(after, n, r) == RowOf(before, n, r) {
      BelowTimes(r, i, n, n - 1);
    }
  }
}
