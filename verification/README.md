# Verified model of the ZFS reader's translation core

A Dafny model of the parts of the ZFS reader that decide which bytes, on which disk, make up a block, and of the
printers, parsers, hash states and calendar arithmetic around them. Each operation of the program is a method or a
function with the program's own branches; what the program is for is proved about it, over every input.

| files | what they model |
|---|---|
| `Gf256`, `GfPowers`, `GfVectors`, `GaussJordan` | the field GF(2^8) from the multiplication loop up: ring laws, the order of 2, inverses, elimination in place |
| `RaidzParity`, `RaidzReconstruct` | P, Q and R parity by Horner's rule, and the reconstruction of missing columns |
| `RaidzMap` | the RAIDZ column map with big columns, skip sectors and the 1 MiB swap |
| `DraidPerms`, `DraidGeometry`, `DraidLayout` | the dRAID permutation table, configuration, groups, rows, slices and distributed spares |
| `SpaceRanges`, `SpaceLog` | the merged list of allocated ranges, and the log of 64-bit words it is replayed from |
| `IndirectMapping` | address translation for a removed vdev |
| `ObjectReader` | the walk down indirect blocks, and byte ranges across blocks |
| `NvLists`, `NvRoundTrip`, `NvCursor`, `NvWriter` | name/value lists in XDR (sections 4.9 to 4.11 and 4.13 of RFC 4506): what bytes say, the cursor that reads them, the vectors that are written |
| `ZapLeaf`, `ZapEncode`, `ZapRoundTrip` | fatzap leaf blocks: chunk chains read, a block array filled, and the two together |
| `CivilTime`, `Timestamps` | days to dates and back; ISO 8601 text printed and parsed |
| `HashWords`, `Skein`, `EdonR` | buffered hash states against the one-shot hash; for Skein the UBI chaining of section 3.4 of the Skein 1.3 specification |
| `Arith`, `Cardinals`, `Octets`, `Wrappers` | shared arithmetic, sets below a bound, bytes and numbers, option and result types |

The main results:

* **RAIDZ reconstruction** succeeds exactly when enough parities survive and no two missing columns have indices that
  agree modulo 255, the order of 2; for up to 255 data columns that only means distinct indices. When it succeeds,
  every column equals the original, whatever the original was. With 256 columns, losing the first and the last is
  beyond all three parities (`FirstAndLastOf256`).
* **Layouts never alias.** The RAIDZ map is a bijection onto an interval of sectors. The dRAID layout is a bijection
  from logical sectors onto the sectors of the children that no distributed spare stands for (`PlaceInjective`,
  `PlacedOrSpare`); two dRAID blocks with disjoint extents share no sector of any child, across rows, groups, slices and
  permutations.
* **Fast forms agree with simple ones.** The range list is the set of its bytes, canonical and gapped; the one
  exception is a byte added at the last address, which leaves an empty range (`AddProper` says exactly when, and
  `ReplayCanonical` exactly after which logs). The indirect walk is indexing into the flattened leaves. Remapping is
  translation byte by byte. The code's `end` saturates, so an entry that reaches the end of the address space does not
  answer for the last address: `RemapSucceeds` says exactly which requests are translated all the same.
* **Printers and parsers.** A packed list is read back exactly when its integers fit the 32 bits they are written in,
  its unknown codes are unknown, and the nesting and pair limits hold. A leaf block gives back each entry exactly when
  its name has no NUL, its value is whole elements and its counts fit 16 bits, and unless the reader's 16-bit chunk
  index comes round to the first item's entry chunk. That takes a block above 1 MiB with 2^16 chunks past that entry
  (`ComesRound`); then, and only then, more entries are read than were written, as for one item of one byte in a block
  of 2 MiB (`TwoMebibytes`).
* **Hashes** depend only on the concatenation of what was absorbed, however it was cut.
* **Dates** are right for every day, before and after 1970, and every 64-bit time survives printing and parsing.

A `u8` field element is eight booleans, so that linear maps are checked bit by bit. Arithmetic of layouts is over
unbounded integers, with products and quotients of variables named (`Times`, `Quot`, `Rem`). Wrapping, truncating and
saturating arithmetic is written out where the program relies on it: `as i32`, `as u16`, `wrapping_mul`,
`saturating_add`, the 16-bit chunk index.

## Model

| member | source | states |
|---|---|---|
| Gf256.GfMul | crates/zfs-ondisk/src/raidz.rs:125-139 | the shift-and-fold loop computes the product: the sum of a times x^i over the bits i of b |
| Gf256.MulXorLeft | crates/zfs-ondisk/src/raidz.rs:125-139 | the product is additive in its left operand |
| Gf256.MulXorRight | crates/zfs-ondisk/src/raidz.rs:125-139 | and in its right operand |
| Gf256.MulDoubleLeft | crates/zfs-ondisk/src/raidz.rs:125-139 | doubling commutes with multiplication, on the left |
| Gf256.MulDoubleRight | crates/zfs-ondisk/src/raidz.rs:125-139 | and on the right, where the fold of the carry is the reduction polynomial |
| Gf256.Reduction | crates/zfs-ondisk/src/raidz.rs:121-139 | a carry out of the top bit is worth the constant 0x1d, for every factor |
| Gf256.MulComm | crates/zfs-ondisk/src/raidz.rs:125-139 | the loop's two operands can be exchanged |
| Gf256.MulAssoc | crates/zfs-ondisk/src/raidz.rs:125-139 | products can be regrouped |
| GfPowers.GfPow | crates/zfs-ondisk/src/raidz.rs:142-153 | square-and-multiply computes the power, for every exponent |
| GfPowers.PowAdd | crates/zfs-ondisk/src/raidz.rs:142-153 | powers add their exponents |
| GfPowers.OrderOfTwo | crates/zfs-ondisk/src/raidz.rs:155-171 | no power of 2 below the 255th is 1 |
| GfPowers.PowTwoInjective | crates/zfs-ondisk/src/raidz.rs:164-171 | two powers of 2 are equal exactly when their exponents agree modulo 255 |
| GfPowers.Logarithm | crates/zfs-ondisk/src/raidz.rs:155-159 | every nonzero element is one of the first 255 powers of 2 |
| GfPowers.MulInv | crates/zfs-ondisk/src/raidz.rs:156-159 | the 254th power is the inverse of every nonzero element |
| GfPowers.GfInv | crates/zfs-ondisk/src/raidz.rs:156-159 | gf_inv returns the inverse |
| GfPowers.NoZeroDivisors | crates/zfs-ondisk/src/raidz.rs:125-159 | a product is zero only when a factor is |
| GfVectors.InverseProduct | crates/zfs-ondisk/src/raidz.rs:284-336 | a matrix that undoes m on vectors is its inverse entry by entry: the product is the identity |
| GfVectors.InverseNotSingular | crates/zfs-ondisk/src/raidz.rs:284-336 | an inverse and a nonzero kernel vector exclude each other |
| GaussJordan.SwapKeeps | crates/zfs-ondisk/src/raidz.rs:314-315 | a row swap in both matrices keeps inv times the original equal to m, and the kernel |
| GaussJordan.ScaleKeeps | crates/zfs-ondisk/src/raidz.rs:316-320 | so does scaling a row by a nonzero factor |
| GaussJordan.CombineKeeps | crates/zfs-ondisk/src/raidz.rs:321-329 | so does adding a multiple of one row to another |
| GaussJordan.NoPivot | crates/zfs-ondisk/src/raidz.rs:310-313 | a failed pivot search exhibits a nonzero kernel vector of the original matrix |
| GaussJordan.FullyReduced | crates/zfs-ondisk/src/raidz.rs:309-334 | when every column is reduced, inv is the inverse of the original matrix |
| GaussJordan.ScaleRow | crates/zfs-ondisk/src/raidz.rs:316-320 | the scaling loop scales the pivot row of both matrices and nothing else |
| GaussJordan.CombineRows | crates/zfs-ondisk/src/raidz.rs:323-327 | the elimination loop adds the multiple in both matrices and nothing else |
| GaussJordan.ClearColumn | crates/zfs-ondisk/src/raidz.rs:321-329 | clearing a column reduces one column more and keeps the elimination invariant |
| GaussJordan.Invert | crates/zfs-ondisk/src/raidz.rs:304-334 | elimination in place ends with a true inverse, or with a proof that the matrix is singular |
| GaussJordan.Choose | crates/zfs-ondisk/src/raidz.rs:291-302 | the recursion lists exactly the strictly increasing selections |
| GaussJordan.InvertRows | crates/zfs-ondisk/src/raidz.rs:287-336 | some in-range increasing rows with their inverse, or none only when every choice of rows is singular |
| RaidzParity.HornerIsDot | crates/zfs-ondisk/src/raidz.rs:161-205 | Horner's rule is the sum of coefficient times data, for any number of columns |
| RaidzParity.HornerColumns | crates/zfs-ondisk/src/raidz.rs:181-195 | one pass over the columns computes the P, Q and R bytes of a position, short columns counting as zeros |
| RaidzParity.GenerateParity | crates/zfs-ondisk/src/raidz.rs:177-205 | every parity column is as long as the longest data column and holds the weighted sums |
| RaidzReconstruct.Kernel2 | crates/zfs-ondisk/src/raidz.rs:161-171 | any two of the P, Q and R rows are independent on two columns with different powers of 2 |
| RaidzReconstruct.Kernel3 | crates/zfs-ondisk/src/raidz.rs:161-171 | all three rows are independent on three such columns |
| RaidzReconstruct.SeparableMeansDistinct | crates/zfs-ondisk/src/raidz.rs:164-171 | up to 255 data columns, separable means that the missing indices are distinct |
| RaidzReconstruct.FirstAndLastOf256 | crates/zfs-ondisk/src/raidz.rs:164-171 | with 256 data columns, the first and the last cannot both be rebuilt from any rows |
| RaidzReconstruct.TrivialKernel | crates/zfs-ondisk/src/raidz.rs:164-171 | every choice of rows has trivial kernel on separable missing columns |
| RaidzReconstruct.InseparableIsSingular | crates/zfs-ondisk/src/raidz.rs:164-171 | missing columns that agree modulo 255 make every choice of rows singular |
| RaidzReconstruct.MissingShare | crates/zfs-ondisk/src/raidz.rs:257-270 | what the known columns leave unexplained of a parity byte is the missing columns' share |
| RaidzReconstruct.SolvesOriginal | crates/zfs-ondisk/src/raidz.rs:256-281 | the inverse applied to the syndromes gives the original bytes |
| RaidzReconstruct.Survivors | crates/zfs-ondisk/src/raidz.rs:236-240 | the surviving rows, in order: exactly the indices whose parity is there |
| RaidzReconstruct.Syndrome | crates/zfs-ondisk/src/raidz.rs:260-269 | the loop folds the known columns' contribution into the parity byte |
| RaidzReconstruct.SolveAt | crates/zfs-ondisk/src/raidz.rs:257-280 | one byte position: the solved bytes are stored in the missing columns where they reach, and nothing else changes |
| RaidzReconstruct.SolveAll | crates/zfs-ondisk/src/raidz.rs:256-281 | the same for every position, all from the data before |
| RaidzReconstruct.Decided | crates/zfs-ondisk/src/raidz.rs:241-255 | with at most three parities an inverse is found exactly when the missing columns are separable |
| RaidzReconstruct.Reconstruct | crates/zfs-ondisk/src/raidz.rs:227-283 | Ok exactly when nothing is missing or enough parities survive and the missing indices differ modulo 255; Ok leaves every column equal to any original it came from; Err changes nothing |
| RaidzMap.TotalIsRows | crates/zfs-ondisk/src/raidz.rs:64-75 | the total is q full rows and the big columns, which never fill a row |
| RaidzMap.HeightsAddUp | crates/zfs-ondisk/src/raidz.rs:64-95 | all columns hold the total, the data columns exactly the block's sectors |
| RaidzMap.FillColumns | crates/zfs-ondisk/src/raidz.rs:76-95 | the column loop places column c at sector b + c with its height, and totals the bytes |
| RaidzMap.MapBlock | crates/zfs-ondisk/src/raidz.rs:58-118 | the result is the layout: heights, places, swap, asize and skip sectors |
| RaidzMap.SwapKeepsHeight | crates/zfs-ondisk/src/raidz.rs:100-109 | the 1 MiB swap exchanges columns of equal height: the big columns are never just one |
| RaidzMap.CoversOnly | crates/zfs-ondisk/src/raidz.rs:58-118 | every sector of every column is a top-level sector in [b, b + tot) |
| RaidzMap.CoversAll | crates/zfs-ondisk/src/raidz.rs:58-118 | every sector in that interval is in some column |
| RaidzMap.CoversOnce | crates/zfs-ondisk/src/raidz.rs:58-118 | and in only one, at one height |
| RaidzMap.OneColumnPerChild | crates/zfs-ondisk/src/raidz.rs:76-109 | the columns are on different children, the swap included |
| RaidzMap.WithinExtent | crates/zfs-ondisk/src/raidz.rs:96-118 | every sector used lies in the asize sectors allocated from sector b on |
| RaidzMap.NoAliasing | crates/zfs-ondisk/src/raidz.rs:58-118 | blocks whose allocated sectors are disjoint share no sector of any child |
| RaidzMap.MapWithinExtent | crates/zfs-ondisk/src/raidz.rs:58-118 | for the byte offset given to map: every sector used, moved up by the offset's place in its sector, lies in [offset, offset + asize) |
| RaidzMap.MapsNeverAlias | crates/zfs-ondisk/src/raidz.rs:58-118 | blocks mapped at any byte offsets with [offset, offset + asize) disjoint share no sector of any child |
| RaidzMap.DataHoldsBlock | crates/zfs-ondisk/src/raidz.rs:44-118 | the data columns hold psize rounded up to whole sectors |
| DraidPerms.ShuffleKeeps | crates/zfs-ondisk/src/draid.rs:332-347 | a shuffle keeps the entries, whatever the generator yields |
| DraidPerms.EveryRowIsPermutation | crates/zfs-ondisk/src/draid.rs:332-347 | every generated row holds every child once |
| DraidPerms.ShuffleSlice | crates/zfs-ondisk/src/draid.rs:340-343 | the swap loop shuffles one row in place and touches nothing else |
| DraidPerms.NextRow | crates/zfs-ondisk/src/draid.rs:337-345 | each row is the one before, copied and shuffled on |
| DraidPerms.RowsAreTable | crates/zfs-ondisk/src/draid.rs:332-347 | the rows determine the flat table |
| DraidPerms.GeneratePerms | crates/zfs-ondisk/src/draid.rs:332-347 | the flat table is the specified one, row after row |
| DraidGeometry.NewConfig | crates/zfs-ondisk/src/draid.rs:378-427 | exactly which inputs are refused and with which error, in the order of the checks; otherwise a configuration with the given counts, the generated and verified table, and valid sizes |
| DraidGeometry.PermuteInjective | crates/zfs-ondisk/src/draid.rs:431-437 | permute sends child indices to child indices, distinct ones to distinct ones, for every permutation index |
| DraidGeometry.PermuteOnto | crates/zfs-ondisk/src/draid.rs:431-437 | and every child index is the image of one |
| DraidLayout.SliceOfRow | crates/zfs-ondisk/src/draid.rs:408-466 | a slice holds whole groups, so all rows of a group lie in the slice of its permutation |
| DraidLayout.RowFormula | crates/zfs-ondisk/src/draid.rs:453-466 | the row is the quotient of group times groupwidth by the disks: this needs the divisibility the constructor checks |
| DraidLayout.PlaceInjective | crates/zfs-ondisk/src/draid.rs:408-510 | no two logical sectors share a sector of a child |
| DraidLayout.LogicalIsPlace | crates/zfs-ondisk/src/draid.rs:453-466 | on whole sectors, logical_to_physical gives the place of the row's first lane |
| DraidLayout.Row | crates/zfs-ondisk/src/draid.rs:470-510 | column i sits where the layout places sector start + i, with its height; tot and skip sectors are the stripe's |
| DraidLayout.AsizeIs | crates/zfs-ondisk/src/draid.rs:440-443 | asize is whole rows of groupwidth sectors |
| DraidLayout.RowsForLeast | crates/zfs-ondisk/src/draid.rs:440-443 | and no fewer rows would hold the data |
| DraidLayout.MapBlocks | crates/zfs-ondisk/src/draid.rs:518-534 | the one or two rows are the pieces of the block, each mapped as a row |
| DraidLayout.PiecesFit | crates/zfs-ondisk/src/draid.rs:518-534 | the pieces lose nothing, none crosses a group, and the second starts exactly at the next group |
| DraidLayout.RowSectorPlace | crates/zfs-ondisk/src/draid.rs:470-510 | sector k of column i is the place of one logical sector of the row, wrapped columns included |
| DraidLayout.BlockWithinExtent | crates/zfs-ondisk/src/draid.rs:518-534 | every sector a block uses is the place of a logical sector in [offset, offset + asize) |
| DraidLayout.NoAliasing | crates/zfs-ondisk/src/draid.rs:431-534 | blocks with disjoint extents share no sector of any child, across columns, groups and slices |
| DraidLayout.OwnSectorsDiffer | crates/zfs-ondisk/src/draid.rs:470-534 | a block's own sectors differ in child or place, within a row and across its two rows |
| DraidLayout.OneColumnPerChild | crates/zfs-ondisk/src/draid.rs:470-510 | the columns of a row are on different children |
| DraidLayout.RowFillsAllocation | crates/zfs-ondisk/src/draid.rs:440-510 | a row's total plus its skip sectors is the asize of its share |
| DraidLayout.RowDataBytes | crates/zfs-ondisk/src/draid.rs:470-510 | the data columns of a row hold its share exactly |
| DraidLayout.BlockHoldsData | crates/zfs-ondisk/src/draid.rs:518-534 | the data columns of the one or two rows sum to psize |
| DraidLayout.SliceOfOffset | crates/zfs-ondisk/src/draid.rs:425-541 | a column at physical offset p was placed with permutation p / devslicesz, the one spare_child computes |
| DraidLayout.SpareIsFree | crates/zfs-ondisk/src/draid.rs:536-541 | a spare never stands for the child that holds data or parity at that offset |
| DraidLayout.SparesDiffer | crates/zfs-ondisk/src/draid.rs:536-541 | two spares never stand for the same child |
| DraidLayout.PlacedOrSpare | crates/zfs-ondisk/src/draid.rs:408-541 | a sector of a child is the place of some logical sector exactly when no spare stands for that child there |
| DraidLayout.SparesAvoidBlock | crates/zfs-ondisk/src/draid.rs:518-541 | at every offset inside a column of a mapped block, no spare is that column's child |
| SpaceRanges.AddCovers | crates/zfs-ondisk/src/spacemap.rs:230-298 | adding is set union |
| SpaceRanges.AddCanonical | crates/zfs-ondisk/src/spacemap.rs:246-298 | adding keeps the list sorted and strictly gapped |
| SpaceRanges.AddProper | crates/zfs-ondisk/src/spacemap.rs:230-298 | an empty range is left exactly when the added range is empty and no range reaches the last address |
| SpaceRanges.EmptyRangeAtTheEnd | crates/zfs-ondisk/src/spacemap.rs:230-236 | one byte added at the last address leaves an empty range |
| SpaceRanges.RemoveCovers | crates/zfs-ondisk/src/spacemap.rs:238-298 | removing is set difference |
| SpaceRanges.RemoveCanonical | crates/zfs-ondisk/src/spacemap.rs:246-298 | removing keeps the list sorted, gapped and free of empty ranges |
| SpaceRanges.SortCanonical | crates/zfs-ondisk/src/spacemap.rs:288-297 | the final sort changes nothing on a canonical list |
| SpaceRanges.InByteSet | crates/zfs-ondisk/src/spacemap.rs:196-202 | the set a list stands for holds exactly the bytes its ranges cover |
| SpaceRanges.TotalIsSize | crates/zfs-ondisk/src/spacemap.rs:215-218 | the sum of the lengths is the number of bytes |
| SpaceRanges.CanonicalUnique | crates/zfs-ondisk/src/spacemap.rs:196-202 | two lists without empty ranges for the same bytes are equal element by element |
| SpaceRanges.CanonicalExact | crates/zfs-ondisk/src/spacemap.rs:196-202 | two canonical lists are equal exactly when they have the same bytes and the same at the last address, an empty range there included |
| SpaceRanges.Ranges.constructor | crates/zfs-ondisk/src/spacemap.rs:206-208 | a new set is empty |
| SpaceRanges.Ranges.CountBytes | crates/zfs-ondisk/src/spacemap.rs:216-218 | bytes is the cardinality of the set |
| SpaceRanges.Ranges.AddPass | crates/zfs-ondisk/src/spacemap.rs:247-287 | the pass over the ranges inserts or widens exactly as the simple definition |
| SpaceRanges.Ranges.RemovePass | crates/zfs-ondisk/src/spacemap.rs:247-287 | the pass over the ranges cuts out exactly as the simple definition |
| SpaceRanges.Ranges.Apply | crates/zfs-ondisk/src/spacemap.rs:246-298 | the sort and the merge after the pass change nothing, and the list stays canonical |
| SpaceRanges.Ranges.Add | crates/zfs-ondisk/src/spacemap.rs:231-236 | the set becomes the union; when an empty range is left, exactly |
| SpaceRanges.Ranges.Remove | crates/zfs-ondisk/src/spacemap.rs:239-244 | the set becomes the difference |
| SpaceRanges.Ranges.Intersects | crates/zfs-ondisk/src/spacemap.rs:301-304 | for a nonempty query, true exactly when the sets meet; for an empty one, when it lies strictly inside a range |
| SpaceRanges.AddEnd | crates/zfs-ondisk/src/spacemap.rs:230-298 | what adding does at the last address: leave short, reach it, or leave an empty range |
| SpaceRanges.RemoveEnd | crates/zfs-ondisk/src/spacemap.rs:238-298 | and what removing does there |
| SpaceRanges.ReplayCanonical | crates/zfs-ondisk/src/spacemap.rs:307-315 | after any log the list is canonical, and holds an empty range exactly when the log's entries that reach the last address leave one |
| SpaceRanges.ReplayCovers | crates/zfs-ondisk/src/spacemap.rs:307-315 | a byte is in the list exactly when the last entry that covers it allocated it, or none covers it and it was there before |
| SpaceRanges.ReplayStaysProper | crates/zfs-ondisk/src/spacemap.rs:307-315 | no empty range arises from a log without an allocation at the last address |
| SpaceRanges.ReplayUnique | crates/zfs-ondisk/src/spacemap.rs:307-315 | two logs leave the same list exactly when they leave the same bytes and the same at the last address |
| SpaceRanges.Ranges.Replay | crates/zfs-ondisk/src/spacemap.rs:307-315 | the list becomes the fold of the log; which bytes it holds, and exactly when all its ranges are nonempty |
| SpaceLog.RecordDecodes | crates/zfs-ondisk/src/spacemap.rs:111-163 | the words of a marker, a one-word or a two-word entry decode to that record, with the words it takes |
| SpaceLog.LogDecodes | crates/zfs-ondisk/src/spacemap.rs:170-194 | a log's words give its entries in order, markers dropped, and decoding goes on with what follows |
| SpaceLog.CutShort | crates/zfs-ondisk/src/spacemap.rs:122-123 | a two-word entry cut short gives nothing |
| SpaceLog.LogRoundTrip | crates/zfs-ondisk/src/spacemap.rs:165-194 | a log in bytes of either order, with a cut entry or partial word at its end, gives exactly its entries |
| SpaceLog.Entries | crates/zfs-ondisk/src/spacemap.rs:170-194 | the loop over words collects the entries of the specification |
| IndirectMapping.SortSorts | crates/zfs-ondisk/src/indirect.rs:155-179 | the mapping is in source order whatever order it arrived in |
| IndirectMapping.SentToUnique | crates/zfs-ondisk/src/indirect.rs:205-250 | with entries that do not overlap, a byte is sent to one place only |
| IndirectMapping.SortIsStable | crates/zfs-ondisk/src/indirect.rs:175-179 | entries that start at the same address keep their order |
| IndirectMapping.FromEntries | crates/zfs-ondisk/src/indirect.rs:175-179 | the entries in source order, those of equal source in their given order |
| IndirectMapping.PartitionPoint | crates/zfs-ondisk/src/indirect.rs:246-250 | the number of entries that start at or before an address |
| IndirectMapping.HolderIsMapped | crates/zfs-ondisk/src/indirect.rs:246-250 | without overlaps, the entry that answers is found exactly when one covers the address and the address is not the last one, where the saturated end falls short; it covers it |
| IndirectMapping.EntryFor | crates/zfs-ondisk/src/indirect.rs:246-250 | the binary search answers with the last entry to start at or before the address, if it reaches it |
| IndirectMapping.Remap | crates/zfs-ondisk/src/indirect.rs:205-243 | the loop ends for any sorted entries, overlapping or damaged, with the piece-by-piece translation or its first failure |
| IndirectMapping.SizeKept | crates/zfs-ondisk/src/indirect.rs:205-243 | the segments of a translation sum to the size asked for |
| IndirectMapping.RemapTranslates | crates/zfs-ondisk/src/indirect.rs:198-250 | for entries without overlap or address overflow, segments are nonempty and send each byte where its one entry does; an error names, with what is left from there, the first byte no entry covers, the last address, or the excess of a request past the address space |
| IndirectMapping.RemapSucceeds | crates/zfs-ondisk/src/indirect.rs:198-250 | a request is translated exactly when each of its bytes is mapped and no piece of it begins at the last address |
| ObjectReader.Reader.Locate | crates/zfs-read/src/dmu.rs:45-93 | the loop over levels computes the walk, shifts of 64 and more included |
| ObjectReader.WalkIsIndexing | crates/zfs-read/src/dmu.rs:45-93 | the walk down a subtree finds a leaf by its number in the left-to-right flattening, holes standing for all they cover |
| ObjectReader.LocateIsIndexing | crates/zfs-read/src/dmu.rs:45-93 | locate is array indexing into the object's leaves, and none past their end |
| ObjectReader.Reader.ReadBlkid | crates/zfs-read/src/dmu.rs:103-113 | a block is exactly datablksz bytes, zeros for a hole, in the byte order of its pointer |
| ObjectReader.Reader.ReadRange | crates/zfs-read/src/dmu.rs:122-139 | Ok is exactly the slice of the flat object; Err is the failure of the first unreadable block in the range |
| ObjectReader.ObjectByte | crates/zfs-read/src/dmu.rs:45-139 | with every leaf readable, each byte of the object is a byte of its zero-filled block |
| NvLists.StringAt | crates/zfs-ondisk/src/nvlist.rs:199-203 | a string that is read ends inside the buffer |
| NvLists.CountAt | crates/zfs-ondisk/src/nvlist.rs:207-225 | a count is accepted only when it is the declared one and its elements fit the bytes that remain |
| NvLists.PairsAt | crates/zfs-ondisk/src/nvlist.rs:238-276 | what the pairs at a position say; the recursion ends on every buffer, inside it |
| NvLists.ListAt | crates/zfs-ondisk/src/nvlist.rs:228-282 | what the list at a position says; nesting and pair limits and every error included |
| NvRoundTrip.ManyHolds | crates/zfs-ondisk/src/nvlist.rs:314-358 | an array of written elements is read element by element |
| NvRoundTrip.IntArrayHolds | crates/zfs-ondisk/src/nvlist.rs:314-329 | an integer array is read as its 32-bit images, equal to it exactly when all elements fit |
| NvRoundTrip.ValueHolds | crates/zfs-ondisk/src/nvlist.rs:284-371 | a written value is read back and ends where it was written to, exactly when it is representable |
| NvRoundTrip.PairHolds | crates/zfs-ondisk/src/nvlist.rs:264-274 | so is a pair, in a buffer cut off at its end |
| NvRoundTrip.PairsHold | crates/zfs-ondisk/src/nvlist.rs:238-276 | so are the pairs of a list, exactly when each is and they are not too many |
| NvRoundTrip.ListHolds | crates/zfs-ondisk/src/nvlist.rs:228-282 | so is a list at any depth, exactly when it is representable there |
| NvRoundTrip.RoundTrip | crates/zfs-ondisk/src/nvlist.rs:138-153 | parse_packed of pack followed by any bytes gives the list back exactly when it is representable |
| NvRoundTrip.PrefixFree | crates/zfs-ondisk/src/nvlist.rs:504-509 | no packed list is the beginning of another's |
| NvRoundTrip.ValueEnds | crates/zfs-ondisk/src/nvlist.rs:264-274 | no value is read past its pair's end |
| NvRoundTrip.SelfDelimiting | crates/zfs-ondisk/src/nvlist.rs:228-282 | a list that was read depends on no byte after its end |
| NvCursor.Cursor.Need | crates/zfs-ondisk/src/nvlist.rs:161-167 | succeeds exactly when the bytes are there |
| NvCursor.Cursor.U32 | crates/zfs-ondisk/src/nvlist.rs:169-174 | reads a big-endian word and advances by four, or fails where it stands |
| NvCursor.Cursor.Opaque | crates/zfs-ondisk/src/nvlist.rs:188-197 | reads n bytes and advances past their padding |
| NvCursor.Cursor.Count | crates/zfs-ondisk/src/nvlist.rs:207-225 | reads and checks an element count |
| NvCursor.ParseInts | crates/zfs-ondisk/src/nvlist.rs:314-329 | the loop reads n integers, each cut to the width of the type code |
| NvCursor.ParseList | crates/zfs-ondisk/src/nvlist.rs:228-282 | the loop over pairs yields what the bytes say and leaves the cursor at the list's end |
| NvCursor.ParsePair | crates/zfs-ondisk/src/nvlist.rs:266-274 | name, type, count and value of a pair |
| NvCursor.ParseValue | crates/zfs-ondisk/src/nvlist.rs:284-371 | all 27 type codes, and unknown ones |
| NvCursor.ParsePacked | crates/zfs-ondisk/src/nvlist.rs:138-153 | the header check and the list after it |
| NvWriter.ByteVec.Pad4 | crates/zfs-ondisk/src/nvlist.rs:380-384 | zeros up to a multiple of four of the whole vector |
| NvWriter.ByteVec.PutString | crates/zfs-ondisk/src/nvlist.rs:386-390 | appends the XDR string: padding the vector is padding the string because the vector was whole words |
| NvWriter.PutValue | crates/zfs-ondisk/src/nvlist.rs:418-465 | appends the value's encoding |
| NvWriter.PutPair | crates/zfs-ondisk/src/nvlist.rs:396-469 | builds the body apart and appends its size, the in-memory size and the body |
| NvWriter.PutList | crates/zfs-ondisk/src/nvlist.rs:392-473 | appends the list's encoding with its two closing zeros |
| NvWriter.Pack | crates/zfs-ondisk/src/nvlist.rs:505-509 | header and list |
| ZapLeaf.ChunksFit | crates/zfs-ondisk/src/zap.rs:240-250 | header, hash table and chunks fill a block but for less than a chunk |
| ZapLeaf.ReadArray | crates/zfs-ondisk/src/zap.rs:294-325 | the chain loop collects what the chain says and ends on every block, cyclic links included |
| ZapLeaf.ChainIsBounded | crates/zfs-ondisk/src/zap.rs:294-325 | however the links run, a chain gives at most one chunk's bytes for each chunk, and one over |
| ZapLeaf.ParseEntry | crates/zfs-ondisk/src/zap.rs:332-370 | name, value and collision differentiator of one entry chunk |
| ZapLeaf.ParseLeaf | crates/zfs-ondisk/src/zap.rs:253-373 | every check in order, then the loop over chunks with its 16-bit index |
| ZapEncode.PutArray | crates/zfs-ondisk/src/zap.rs:431-457 | fills in the chain of chunks for the data and says where it starts |
| ZapEncode.PutItem | crates/zfs-ondisk/src/zap.rs:458-473 | fills in the chunks of one entry: name chain, value chain, entry |
| ZapEncode.PutFree | crates/zfs-ondisk/src/zap.rs:474-477 | marks the remaining chunks free |
| ZapEncode.EncodeLeaf | crates/zfs-ondisk/src/zap.rs:422-479 | the new block is byte for byte the block of the specification |
| ZapRoundTrip.LeafHolds | crates/zfs-ondisk/src/zap.rs:253-292 | an encoded block passes the checks, and the reader's chunks are the written ones |
| ZapRoundTrip.ChainHolds | crates/zfs-ondisk/src/zap.rs:294-325 | a written chain gives any beginning of its data |
| ZapRoundTrip.EntryHolds | crates/zfs-ondisk/src/zap.rs:332-370 | a written entry chunk gives its entry |
| ZapRoundTrip.ItemsHold | crates/zfs-ondisk/src/zap.rs:326-372 | the written chunks give the entries in order |
| ZapRoundTrip.ItemKept | crates/zfs-ondisk/src/zap.rs:339-364 | an entry comes back whole exactly when its name has no NUL, its value is whole elements and its counts fit 16 bits |
| ZapRoundTrip.BlockRead | crates/zfs-ondisk/src/zap.rs:253-479 | for blocks of any size, parse_leaf of the encoded block succeeds, with the items' entries in order exactly when the chunk index does not come round, and with more of them exactly when it does |
| ZapRoundTrip.RoundTrip | crates/zfs-ondisk/src/zap.rs:253-479 | for blocks of any size, the items come back whole exactly when each name and value is such and the chunk index does not come round |
| ZapRoundTrip.OneMebibyte | crates/zfs-ondisk/src/zap.rs:240-250 | up to 1 MiB it never comes round |
| ZapRoundTrip.NothingMet | crates/zfs-ondisk/src/zap.rs:326-330 | when it does not come round, every chunk met past the items, in whatever round, begins no entry |
| ZapRoundTrip.MetAgain | crates/zfs-ondisk/src/zap.rs:326-330 | when it does, the first item's entry chunk is met again, and the reader gives entries that were not written |
| ZapRoundTrip.TwoMebibytes | crates/zfs-ondisk/src/zap.rs:326-330 | in a block of 2 MiB, two entries or more are read for one item of one byte |
| CivilTime.YearOfEraIsRight | crates/zvol-common/src/timefmt.rs:7-26 | the year-of-era formula yields 0 to 399, and the day falls on one of that year's days |
| CivilTime.YearUnique | crates/zvol-common/src/timefmt.rs:7-26 | it is the only year that does |
| CivilTime.DayRoundTrip | crates/zvol-common/src/timefmt.rs:7-84 | every day gives a genuine date, and converting back gives the day |
| CivilTime.DateRoundTrip | crates/zvol-common/src/timefmt.rs:7-84 | every genuine date comes back from its day |
| CivilTime.NextDayIsNext | crates/zvol-common/src/timefmt.rs:73-80 | the day after a date, by the calendar, is one more |
| CivilTime.Epoch | crates/zvol-common/src/timefmt.rs:7-26 | day 0 is 1 January 1970 |
| CivilTime.CountingWalksCalendar | crates/zvol-common/src/timefmt.rs:7-26 | so the conversion walks the Gregorian calendar, one date after the other |
| Timestamps.PaddedValue | crates/zvol-common/src/timefmt.rs:20-25 | a number printed with leading zeros has its value |
| Timestamps.DateParses | crates/zvol-common/src/timefmt.rs:53-59 | a printed date parses to its parts |
| Timestamps.TimeParses | crates/zvol-common/src/timefmt.rs:60-71 | so does a printed time |
| Timestamps.TimestampRoundTrip | crates/zvol-common/src/timefmt.rs:7-84 | parse_timestamp of iso8601 gives the time back, for every 64-bit Unix time |
| Skein.ChainPrefix | crates/zfs-ondisk/src/skein.rs:117-134 | whole blocks do not depend on what follows |
| Skein.StepHolds | crates/zfs-ondisk/src/skein.rs:117-134 | one compression moves one block from what is held to what is chained |
| Skein.Skein512.StartType | crates/zfs-ondisk/src/skein.rs:82-89 | a fresh tweak of the given type and an empty buffer |
| Skein.Skein512.constructor | crates/zfs-ondisk/src/skein.rs:92-114 | key and configuration are hashed first, and the message starts from there |
| Skein.Skein512.Update | crates/zfs-ondisk/src/skein.rs:117-134 | the bytes are absorbed: the buffer is never empty once there are any, and the state is the fold of all but the last block |
| Skein.Skein512.FinalPad | crates/zfs-ondisk/src/skein.rs:137-144 | the held block, padded and final, completes the one-shot UBI of everything absorbed |
| Skein.Skein512.Finish | crates/zfs-ondisk/src/skein.rs:147-166 | the digest is the output function of that hash, to the requested length |
| Skein.HashPieces | crates/zfs-ondisk/src/skein.rs:92-166 | however the message is cut, the digest is the one-shot hash of the whole |
| EdonR.FoldPrefix | crates/edonr/src/lib.rs:174-193 | whole blocks do not depend on what follows |
| EdonR.EdonR512.constructor | crates/edonr/src/lib.rs:155-161 | the initial pipe and an empty buffer |
| EdonR.EdonR512.Update | crates/edonr/src/lib.rs:174-193 | every complete block is compressed at once, and fewer than 128 bytes stay buffered |
| EdonR.EdonR512.Tail | crates/edonr/src/lib.rs:197-207 | marker, zeros and bit count in one block, or in two when one has no room |
| EdonR.EdonR512.Finish | crates/edonr/src/lib.rs:197-216 | the digest is the fold over the padded message |
| EdonR.HashPieces | crates/edonr/src/lib.rs:174-216 | however the message is cut, the digest is the one-shot hash of the whole |

## Left out

- Device reading, block sources, pool access and the checksums of blocks: in `ObjectReader` a partial function from block pointer to bytes, and another that decodes a pointer, stand for them.
- The compression functions: `threefish_ubi` beyond its tweak bookkeeping, and `q512`, are parameters of the hash states; the Skein tweak is a record of its fields.
- The keyed and salted wrappers around the hashes, and SHA-2, BLAKE3, AES, HKDF and PBKDF2: no state of their own to prove, or not in the core.
- The dRAID pseudo-random generator is any function from draw number to number, so the permutation results do not depend on it; the 254-row table of map parameters is a parameter, and its fletcher4 check a boolean input of `NewConfig`.
- RAIDZ and dRAID offsets and sizes are unbounded: overflow of 64 bits in the layout arithmetic is not modelled. Shifts use powers of two.
- MapBlocks: stated for offsets aligned to groupwidth sectors and positive sizes of whole sectors up to ndata times the row height, which is what the source's comments and the dRAID allocator give it; a size of zero and a third row are outside.
- Row: the logical sector and the count of data sectors are ghost parameters that name the aligned offset and size the source takes.
- AddPass and RemovePass: the source has one loop that branches on a flag; the model has one pass for each value of the flag.
- The library's sorts and binary search are modelled by an insertion sort and by `PartitionPoint`'s contract.
- Parsing of mapping entries and of the space map and mapping headers from bytes: fixed-offset fields.
- ReadRange: stated for ranges whose end fits 64 bits and shifts below the word size, where the source's own arithmetic does not overflow.
- UTF-8: strings are byte sequences; the lossy decoding of names that are not UTF-8, and the ZAP entry's lossy copy of its name, are not modelled. Doubles are 64-bit patterns.
- NvRoundTrip.RoundTrip: the name/value lists are those whose pairs have sizes below 2^31, which the 32-bit size field can say; a larger pair is written with a wrapped size.
- DecodedSize, the in-memory size of a pair, is modelled as written, and nothing is proved of its value, which the reader discards.
- Positions in name/value buffers and block offsets are unbounded, as 64-bit `usize` is large enough for every 32-bit length read from the bytes.
- EncodeLeaf: takes entries with element sizes above zero that fit the block in at most 0xffff chunks. Beyond the block's chunks the source stops on an assertion or an index, past 0xffff its 16-bit `next_chunk` overflows, and an element size of zero divides by zero.
- The microzap, the fatzap header and its pointer tables: fixed-size records.
- ParseTimestamp: spaces trimmed are the ASCII ones, and the overflow of days times 86400 for years far beyond 64-bit times is not modelled.
- Command line, evidence logs, reports, carving, fixtures and fuzz targets.
