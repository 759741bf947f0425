# YeSQL: verified models of its algorithms

A Dafny 4.11 model of the algorithmic parts of YeSQL, with proofs of what they promise.
`dafny verify dfyconfig.toml` checks all of it.  Paths in the table below are relative to the
root of the repository, at the lines that the member models.

The parts, and the files that model them:

- **CIDR algebra** (`YeSQL_MonetDB/lib/ipaddr.py`): `Bits`, `Alignment`, `Networks` (masks, blocks,
  containment), `Canonical` (the best list of blocks for a set of addresses: unique and shortest),
  `Summarize` (a range of addresses), `Collapse` and `CollapseList` (any list of addresses and
  networks), `CollapseResult` (that nothing else could be returned), `Versions` (which mixtures of
  versions are refused), `Subnets` (`subnet`, `supernet`, `address_exclude`).  A network is its number
  of address bits (32 or 128; the proofs hold for any), an address that may have host bits set, and a
  prefix length.
- **IPv6 text** (`ipaddr.py`): `Ipv6Text`, on characters, from the integer to the text and back.
- **Implicit kd-tree** (`YeSQL_MonetDB/lib/kdtree.py`): `KdRanges` (constraints as ranges), `KdTree`
  (the build into a heap-indexed array), `KdQuery` (the pruned search with its stack).
- **Gzip reader and writer** (`YeSQL_MonetDB/lib/gzip34.py`): `GzipFormat` (members, headers,
  trailers, and the laws taken from zlib), `PaddedFile` (the push-back file), `GzipTracking` (where a
  reader is in a well-formed file), `GzipVerdict` and `GzipWellFormed` (what any file comes to, a
  content or an error), `GzipReader`, `GzipSessions` (all interleavings of calls), `GzipWriter`.
- **Edit distances** (`YeSQL_MonetDB/lib/stringdists.py`): `EditDistance` (the code, and what its
  recurrences mean), `CrossingEdits` (sequences of moves, as scripts in which elements cross) and
  `NeededEdits` (the textbook distance, and where the code agrees with it).
- **OrderedDict** (`YeSQL_MonetDB/lib/collections26.py`): `ItemLists` (what it holds) and `OrderedDict`
  (a ring of linked nodes with a sentinel, and a map from keys to links).
- **The query rewriter** (`YeSQL_MonetDB/functions/`): `VirtualTables` (`vt_distinct`), `BuildSql`
  (`rec_build_sql`), `BuildOutcomes` (how it ends, for every query and list), `BuildText` (the text it
  builds, token by token), `Statements` (what the loop of `transform` comes to), `SqlTransform`
  (`transform` with its cache, and the use `Cursor.execute` makes of it).

`Wrappers`, `Naturals`, `Powers` and `Sorting` serve them all.  Objects whose methods update fields
are classes (`Tree`, `PaddedFile`, `GzipReader`, `GzipWriter`, `Link`, `OrderedDict`, `Transformer`),
loops are loops with invariants, and pure functions are functions.

## Where the code and what is said of it differ

The models follow the code.

- `collapse_address_list` returns the shortest list for networks without host bits.  A network with
  host bits set compares equal to no sibling, so its halves may stay apart.
  `CollapseList.CollapseAddressList` says exactly for which lists that happens, in terms of the list
  passed: for those with a `Blocked` network, an upper half with host bits set whose lower sibling is
  covered, which is not inside another listed network that would absorb it, nor listed address by
  address.  `CollapseList.HostBitsBlock` is such a list.  For any list, nothing listed is blocked if and
  only if no list of networks with the same addresses is shorter
  (`CollapseList.ShortestIffNoneBlocked`).
- The same function is documented to raise a type error for a list of mixed versions.  It compares
  addresses with addresses and wider networks with wider networks, and its message for networks names
  the last address: `Versions.MixedVersions` has one list that passes and one refused with another
  error, and `Versions.TypeErrorIffMixed` says exactly for which lists the promise is kept.  In the list
  that passes the address is then taken to be inside the network (`Networks.ContainsIgnoresVersions`).
- `address_exclude` documents one refusal, for a network that is not contained.  A network that is
  equal to this one or covers it can pass the first test; then the call fails to unpack the single
  subnet of a full prefix, or reaches the branch that the code calls a bug
  (`Subnets.ExcludingItselfExamples`).  `Subnets.AddressExclude` says which, for every pair: it
  succeeds exactly for a network strictly inside.
- `exploded` is documented as the longhand version.  An address printed without `::` is returned as
  printed, without leading zeros (`Ipv6Text.OneToEight`); `Ipv6Text.ExplodedIsLonghand` says exactly
  when.
- `query` tests the combined constraints for `None` only after it has looked into them, so contradictory
  constraints raise `TypeError` where an empty answer was meant (`KdRanges.EqualToTwoValues`).
  `KdQuery.Query` says exactly when.  Constraints on columns that are not indexed are checked for
  contradictions but otherwise ignored.
- `dameraulevenshtein_dist` is documented as the number of edits and transpositions needed.  It never
  edits a transposed pair again, so fewer may do: `EditDistance.TwoMovesCountedAsThree`.  It is the
  least cost of a script that takes each element once (`EditDistance.DistanceIsLeastCost`), and the
  number needed if no two unequal neighbours of either sequence are in the other the other way round
  with something between them (`CrossingEdits.DamerauIsNeeded`); in general it is that number if and
  only if it equals the textbook distance with unrestricted transpositions
  (`NeededEdits.DamerauIsNeededIff`), which is proved to be the number needed
  (`NeededEdits.NeededIsLeast`).
- `seek` on a reader does not refuse a target before the start of the file: it rewinds and then reads
  the target modulo 1024 (`GzipReading.SeekBeforeStart`, and `GzipReading.SeeksTarget` for all targets).
- `readline` is written to give no line longer than its size argument, but replaces the argument by
  `sys.maxsize`: `GzipReading.LineBeyondSize` is a line longer than asked for, and
  `GzipReading.LineWithinSize` says exactly when a size is respected.
- The last branch of `_PaddedFile.prepend` names an undefined variable.  No run of calls that have not
  raised reaches it (`GzipReading.GzipReader.ReadMore`).
- `rec_build_sql` returns nothing for a name that is not in the list
  (`BuildOutcomes.UndefinedGivesNothing`), and recurses until the interpreter gives up on names that go
  round in circles (`BuildOutcomes.CircularIsTooDeep`).  `BuildOutcomes.Outcomes` says for every query
  and every list which of the three happens.

## Model

| member | source | states |
|---|---|---|
| `CollapseList.CollapseAddressList` | YeSQL_MonetDB/lib/ipaddr.py:354-411 | on any list of addresses and networks: the result covers exactly the listed addresses, is ascending and disjoint, and has no network followed by the one that compares equal to its upper sibling; for a block of it that is listed, and not all of whose addresses are listed one by one, the listed network with the least address stands, host bits and all, and for any other block the network without host bits; the networks that resist merging are the `Frozen` ones of the list, and the result is canonical if and only if none of these is `Blocked` |
| `CollapseResult.CollapsedIsUnique` | YeSQL_MonetDB/lib/ipaddr.py:354-411 | what the row above says of the result fixes it: no other list, in blocks, order or host bits, has all of it |
| `CollapseResult.LoneNetwork` | YeSQL_MonetDB/lib/ipaddr.py:332-351 | so a list of one network comes back as it was passed, with its host bits |
| `CollapseResult.ResultIsClean` | YeSQL_MonetDB/lib/ipaddr.py:307-351 | the blocks of the result are the largest covered ones that have no frozen network strictly inside |
| `CollapseList.BlockStands` | YeSQL_MonetDB/lib/ipaddr.py:332-351 | of several networks given for one block the sort puts the one with the least address first, and the passes keep that one |
| `CollapseList.CollapsedIsShortest` | YeSQL_MonetDB/lib/ipaddr.py:354-375 | for networks without host bits the result is the unique canonical list, and no list of networks in any order covering the same addresses is shorter |
| `CollapseList.ShortestIffNoneBlocked` | YeSQL_MonetDB/lib/ipaddr.py:354-411 | for any list: no list of networks covering the same addresses is shorter than the result if and only if no listed network is `Blocked` |
| `Canonical.NotShortest` | YeSQL_MonetDB/lib/ipaddr.py:338-344 | a list in order with two siblings left unmerged is not shortest: one with the same addresses has one block fewer |
| `Versions.SplitVersions` | YeSQL_MonetDB/lib/ipaddr.py:379-399 | the tests in the loop: nothing is refused exactly if no two entries of a kind differ in version; otherwise the first entry that differs from one of its kind decides, with a type error if a single address came no later, else an index error |
| `Versions.TypeErrorIffMixed` | YeSQL_MonetDB/lib/ipaddr.py:369 | the documented type error for mixed versions is kept if and only if the list is not mixed, or two entries of a kind differ and a single address comes no later than the first such difference |
| `Versions.MixedVersions` | YeSQL_MonetDB/lib/ipaddr.py:369-399 | two mixed lists on which it is not: one passes, one raises an index error |
| `Networks.ContainsIgnoresVersions` | YeSQL_MonetDB/lib/ipaddr.py:622-632 | the containment test compares numbers of any width: 0.0.0.0/0 contains ::1 |
| `CollapseList.HostBitsBlock` | YeSQL_MonetDB/lib/ipaddr.py:343-345 | a concrete list on which the result is not canonical: two halves of one network, the upper one given with a host bit set |
| `CollapseList.SplitItems` | YeSQL_MonetDB/lib/ipaddr.py:376-399 | single addresses, and networks of one address, are told from proper networks |
| `CollapseList.FindAddressRange` | YeSQL_MonetDB/lib/ipaddr.py:192-208 | the first and last of the longest run of consecutive addresses at the start of the list |
| `CollapseList.IndexOf` | YeSQL_MonetDB/lib/ipaddr.py:407 | the first index of an element, as `list.index` finds it |
| `CollapseList.SummarizeRuns` | YeSQL_MonetDB/lib/ipaddr.py:401-408 | the summaries of all runs cover exactly the single addresses, and every aligned block of listed addresses lies inside one network of them |
| `CollapseList.BlockedIsStuck` | YeSQL_MonetDB/lib/ipaddr.py:401-411 | a blocked network, or one of the same block that sorts before it, reaches the passes before anything that would absorb it |
| `CollapseList.StuckIsBlocked` | YeSQL_MonetDB/lib/ipaddr.py:401-411 | what resists all passes over the sorted list is blocked, in terms of the list that was passed; this needs that the sort is stable |
| `Collapse.CollapseRecursive` | YeSQL_MonetDB/lib/ipaddr.py:307-351 | passes over a list in key order end (each but the last shortens it) in an ascending list with the same addresses and nothing left to merge; members with host bits survive exactly if nothing before them absorbs them and they do not merge |
| `Collapse.NextNetwork` | YeSQL_MonetDB/lib/ipaddr.py:332-344 | each of the three branches of the loop keeps what a pass promises, for the next network in key order |
| `Collapse.NextInOrder` | YeSQL_MonetDB/lib/ipaddr.py:622-632 | for the next network in key order the containment test, which looks at the address and not at the network, is true exactly if the network adds nothing, and otherwise the network lies apart |
| `Collapse.SiblingsMerge` | YeSQL_MonetDB/lib/ipaddr.py:338-344 | a network and the upper sibling that follows it are replaced by their supernet, which holds exactly their addresses |
| `Collapse.UpperSiblingOf` | YeSQL_MonetDB/lib/ipaddr.py:338 | `supernet().subnet()[1]`, evaluated as the code does |
| `Collapse.CanonicalUnlessStuck` | YeSQL_MonetDB/lib/ipaddr.py:307-351 | after the last pass the list is canonical if and only if no network of the sorted list was stuck |
| `Canonical.CoveredBlockInside` | YeSQL_MonetDB/lib/ipaddr.py:268-305 | the blocks of a canonical list are the maximal CIDR blocks of what it covers: every aligned block it covers lies inside one of them |
| `Canonical.CanonicalIsUnique` | YeSQL_MonetDB/lib/ipaddr.py:307-351 | two canonical lists that cover the same addresses are equal |
| `Canonical.CanonicalIsShortest` | YeSQL_MonetDB/lib/ipaddr.py:268-305 | no list of blocks covering the same addresses, in any order and with any overlaps, is shorter than the canonical one |
| `Summarize.SummarizeAddressRange` | YeSQL_MonetDB/lib/ipaddr.py:244-305 | refuses exactly a first address above the last; otherwise networks without host bits that tile the range in order, are its canonical list, cover exactly its addresses and number at most `2 * bits - 2` |
| `Summarize.WidestBlock` | YeSQL_MonetDB/lib/ipaddr.py:288-297 | the inner loop finds the widest block that the alignment of its start and the end of the range allow, and ends |
| `Summarize.CountRighthandZeroBits` | YeSQL_MonetDB/lib/ipaddr.py:227-242 | the greatest power of two that divides the number, or `bits` for zero |
| `Summarize.GetPrefixLength` | YeSQL_MonetDB/lib/ipaddr.py:210-225 | the longest common prefix of two numbers |
| `Summarize.BlockPrefix` | YeSQL_MonetDB/lib/ipaddr.py:298 | the common prefix of the first and last address of a block has the length of the block's prefix |
| `Summarize.TilesCover` | YeSQL_MonetDB/lib/ipaddr.py:285-304 | blocks that follow each other without gap or overlap cover exactly the range |
| `Summarize.GreedyTilesAreCanonical` | YeSQL_MonetDB/lib/ipaddr.py:285-304 | choosing the widest block each time leaves no two siblings unmerged |
| `Summarize.RangeCount` | YeSQL_MonetDB/lib/ipaddr.py:285-305 | the blocks first grow and then shrink, so there are at most `2 * bits - 2` of them |
| `Networks.IpIntFromPrefix` | YeSQL_MonetDB/lib/ipaddr.py:820-832 | the netmask written with xor and shift is `2^bits - 2^(bits - prefix)` |
| `Networks.Network` | YeSQL_MonetDB/lib/ipaddr.py:634-640 | masking with the netmask gives the greatest multiple of the block size not above the address |
| `Networks.Broadcast` | YeSQL_MonetDB/lib/ipaddr.py:642-648 | setting the bits of the hostmask gives the last address of the block |
| `Networks.BlockBounds` | YeSQL_MonetDB/lib/ipaddr.py:634-674 | network and broadcast bound an aligned block of `2^(bits - prefix)` addresses that holds the address |
| `Networks.NestedOrDisjoint` | YeSQL_MonetDB/lib/ipaddr.py:622-648 | any two networks are nested, the longer prefix inside, or disjoint |
| `Networks.PrefixFromIpInt` | YeSQL_MonetDB/lib/ipaddr.py:834-851 | the loop ends at the number of bits left of the lowest one; for a netmask it gives its prefix back |
| `Subnets.Subnet` | YeSQL_MonetDB/lib/ipaddr.py:867-925 | which arguments are refused and how, case by case; otherwise exactly `2^d` networks, the equal parts of the parent in order |
| `Subnets.PartFacts` | YeSQL_MonetDB/lib/ipaddr.py:908-923 | each part is a block of the parent without host bits, the next starts where it ends, and only the last ends where the parent does |
| `Subnets.PartsTile` | YeSQL_MonetDB/lib/ipaddr.py:867-925 | an address is in the parent exactly if it is in a part, and the parts ascend without overlap |
| `Subnets.SupernetOutcomes` | YeSQL_MonetDB/lib/ipaddr.py:927-965 | which arguments `supernet` refuses and how; otherwise the address of the network, with the prefix asked for |
| `Subnets.SupernetOfPart` | YeSQL_MonetDB/lib/ipaddr.py:927-965 | the `d`-supernet of each of the `2^d` parts has the parent's network and prefix |
| `Subnets.AddressExclude` | YeSQL_MonetDB/lib/ipaddr.py:684-757 | succeeds exactly when the other network is strictly inside, with what `Excludes` says: ascending disjoint networks without host bits, one per prefix length from one more than its own up to the other's, covering exactly the difference; the error of every refused call |
| `Subnets.ExcludingItself` | YeSQL_MonetDB/lib/ipaddr.py:712-746 | a network passes the first test against itself, and is then refused with the error of a full prefix or the one that the code calls a bug |
| `Subnets.ExcludingItselfExamples` | YeSQL_MonetDB/lib/ipaddr.py:712-746 | 10.0.0.1/32 and 10.0.0.0/8, each excluded from itself |
| `Subnets.InOneHalf` | YeSQL_MonetDB/lib/ipaddr.py:734-742 | a network strictly inside is one of the halves or strictly inside exactly one, and the code's tests tell which |
| `Subnets.InNeitherHalf` | YeSQL_MonetDB/lib/ipaddr.py:725-746 | a network that passes the first test but covers all of this one reaches the branch that the code calls a bug |
| `Subnets.PeelHalf` | YeSQL_MonetDB/lib/ipaddr.py:734-742 | keeping one half of the rest and dropping the other keeps the rest and the dropped networks a partition |
| `Subnets.SortedPeelsExclude` | YeSQL_MonetDB/lib/ipaddr.py:757 | peeling halves off until only the other network is left, and sorting what was peeled, gives exactly the difference in ascending order |
| `Sorting.SortIsStable` | YeSQL_MonetDB/lib/ipaddr.py:410 | elements that compare equal keep their order |
| `Sorting.SortPermutes` | YeSQL_MonetDB/lib/kdtree.py:37 | a sort rearranges its input, duplicates included |
| `Sorting.SortIsSorted` | YeSQL_MonetDB/lib/kdtree.py:53 | the result is in order |
| `Ipv6Text.PrintedReadsBack` | YeSQL_MonetDB/lib/ipaddr.py:1334-1439 | for every 128-bit number, parsing the printed text gives the number back |
| `Ipv6Text.PrintThenParse` | YeSQL_MonetDB/lib/ipaddr.py:1334-1439 | the same through the methods as the code runs them; numbers of more than 128 bits are refused |
| `Ipv6Text.CompressHextets` | YeSQL_MonetDB/lib/ipaddr.py:1367-1412 | the run of zero fields that is shortened is a longest one and the leftmost of those, and it is shortened exactly if it has two fields or more (sections 4.2.2 and 4.2.3 of RFC 5952) |
| `Ipv6Text.StringFromIpInt` | YeSQL_MonetDB/lib/ipaddr.py:1414-1439 | refuses exactly numbers above 128 bits; otherwise the fields of the number without leading zeros, with that run written as `::` |
| `Ipv6Text.PrintedMeans` | YeSQL_MonetDB/lib/ipaddr.py:1367-1439 | the printed text, field by field: the longest run of `0` fields, the first of those, is written as `::` exactly if it has two fields or more |
| `Ipv6Text.PrintedExample` | YeSQL_MonetDB/lib/ipaddr.py:1414-1439 | 2001:db8::1:0:0:1, digit by digit |
| `Ipv6Text.DigitCodes` | YeSQL_MonetDB/lib/ipaddr.py:1434-1436 | the digits in ASCII: lower case is written, either case is read |
| `Ipv6Text.IpIntFromString` | YeSQL_MonetDB/lib/ipaddr.py:1334-1365 | the fields of the exploded text read as the digits of a number in base `2^16`, or an error if one is not hexadecimal |
| `Ipv6Text.ExplodeShorthandIpString` | YeSQL_MonetDB/lib/ipaddr.py:1441-1471 | `::` written out and every field padded, in text with exactly one `::`; other text as it is |
| `Ipv6Text.DoubleColonMeans` | YeSQL_MonetDB/lib/ipaddr.py:1441-1471 | `::` between at most seven fields stands for the zero fields that make eight, also at either end of the text (section 2.2 of RFC 4291) |
| `Ipv6Text.PlainText` | YeSQL_MonetDB/lib/ipaddr.py:1470-1471 | text without `::` is read as the fields it has |
| `Ipv6Text.JoinShortened` | YeSQL_MonetDB/lib/ipaddr.py:1401-1412 | the list assignments and the join write the run as `::`, wherever it is |
| `Ipv6Text.ExplodedIsLonghand` | YeSQL_MonetDB/lib/ipaddr.py:440-443 | `exploded` is the longhand version it is documented to be if and only if a run was shortened or no field has a leading zero; otherwise it is the printed text |
| `Ipv6Text.OneToEight` | YeSQL_MonetDB/lib/ipaddr.py:440-443 | 1:2:3:4:5:6:7:8, which `exploded` returns as it is |
| `Ipv6Text.DigitGroups` | YeSQL_MonetDB/lib/ipaddr.py:1434-1436 | each slice of four hexadecimal digits is one field of the number |
| `Ipv6Text.HextetsValue` | YeSQL_MonetDB/lib/ipaddr.py:1362-1365 | the fold over the fields of a number gives the number |
| `Ipv6Text.PadValue` | YeSQL_MonetDB/lib/ipaddr.py:1464-1468 | padding and lowering a field changes no number, and makes an empty field zero |
| `Ipv6Text.SplitJoin` | YeSQL_MonetDB/lib/ipaddr.py:1350 | splitting at colons undoes joining |
| `Ipv6Text.SplitAtDouble` | YeSQL_MonetDB/lib/ipaddr.py:1456-1462 | text joined around one `::` splits there into its two sides |
| `KdRanges.CombineConstraints` | YeSQL_MonetDB/lib/kdtree.py:128-143 | fails exactly if some column's constraints cannot be met by any value; otherwise each column's range holds exactly the values that meet all its constraints |
| `KdRanges.EqualToTwoValues` | YeSQL_MonetDB/lib/kdtree.py:128-143 | one column asked to equal both 1 and 2: contradictory constraints, on which `query` raises |
| `KdRanges.RangeMeansConstraint` | YeSQL_MonetDB/lib/kdtree.py:154-166 | the range of a constraint holds exactly the values that meet it |
| `KdRanges.CodesMean` | YeSQL_MonetDB/lib/kdtree.py:6-10 | what each code means as a number, for the ranges too; and these five numbers are the known codes |
| `KdRanges.ContradictoryMeans` | YeSQL_MonetDB/lib/kdtree.py:128-143 | constraints are contradictory exactly if on some column every value is refused by some code |
| `KdRanges.IntersectionIsExact` | YeSQL_MonetDB/lib/kdtree.py:145-152 | the intersection holds exactly the common values and is empty exactly if there are none |
| `KdRanges.NonEmptyHasValue` | YeSQL_MonetDB/lib/kdtree.py:150-152 | a range with its lower end below its upper end holds a value |
| `KdTree.KdTreeRec` | YeSQL_MonetDB/lib/kdtree.py:48-68 | writes exactly its own subtree into the array: every slot of it filled with the tree's rows and nothing outside touched; the tree is balanced, ordered on each node's axis, and its leaves are the rows |
| `KdTree.Build` | YeSQL_MonetDB/lib/kdtree.py:24-46 | nothing for no data; otherwise a valid tree on the asked columns whose leaves are exactly the rows, in an array of `2^(ceil(log2 n) + 1)` slots |
| `KdTree.FilledSlots` | YeSQL_MonetDB/lib/kdtree.py:39-46 | exactly `2n - 1` slots are filled |
| `KdTree.HalvesReady` | YeSQL_MonetDB/lib/kdtree.py:50-62 | the two halves of the arranged rows are together the rows, and as ready to be built from as they were |
| `KdTree.NodeWritten` | YeSQL_MonetDB/lib/kdtree.py:55-67 | a node and its two subtrees, written one after the other, do not disturb each other |
| `KdTree.LeavesAreLow` | YeSQL_MonetDB/lib/kdtree.py:50-66 | the leaves of a tree over `n` rows halved all the way down lie at depth floor or ceiling of `log2 n` |
| `KdQuery.LeafTestIsExact` | YeSQL_MonetDB/lib/kdtree.py:100-103 | the test of the search on a slot is true exactly at leaves, since all leaves lie at depth floor or ceiling of `log2 n` |
| `KdQuery.PrunedRowsFail` | YeSQL_MonetDB/lib/kdtree.py:117-127 | below a child that the search does not enter no row is within the ranges |
| `KdQuery.AnswerIsScan` | YeSQL_MonetDB/lib/kdtree.py:91-126 | the rows a pruned recursive search answers are, as a multiset, those a linear scan keeps |
| `KdQuery.VisitsAreDistinct` | YeSQL_MonetDB/lib/kdtree.py:95-126 | no slot is read twice |
| `KdQuery.Search` | YeSQL_MonetDB/lib/kdtree.py:91-126 | the loop with its stack and its direct descent does exactly what the recursive search does, in the same order, with at most `ceil(log2 n)` pending nodes |
| `KdQuery.Query` | YeSQL_MonetDB/lib/kdtree.py:70-126 | raises exactly on contradictory constraints; otherwise each row is yielded as often as the index holds it if it has what the codes of the constraints on indexed columns ask for, and else not at all; without constraints or without arguments, all rows |
| `KdQuery.BuildAndQuery` | YeSQL_MonetDB/lib/kdtree.py:24-126 | building an index and asking it is the same as scanning the rows it was built from, row by row and with duplicates |
| `KdQuery.AskOne` | YeSQL_MonetDB/lib/kdtree.py:154-166 | one constraint on an indexed column, its code as a number: the rows whose cell is equal for 2, greater for 4, at most for 8, less for 16, at least for 32, each as often as the data hold it |
| `KdQuery.IndexedColumns` | YeSQL_MonetDB/lib/kdtree.py:24-36 | the columns asked for are indexed, or all of them if none are |
| `PaddedFiles.PaddedFile.constructor` | YeSQL_MonetDB/lib/gzip34.py:72-76 | a push-back file starts at the first byte |
| `PaddedFiles.PaddedFile.Read` | YeSQL_MonetDB/lib/gzip34.py:78-89 | the next bytes of the underlying file at the logical position, once and in order, whichever part of them is in the buffer |
| `PaddedFiles.PaddedFile.Prepend` | YeSQL_MonetDB/lib/gzip34.py:91-100 | bytes just read are put back; the branch with the undefined name is reached exactly if the buffer is in use and they are not all in its part already read |
| `PaddedFiles.PaddedFile.Unused` | YeSQL_MonetDB/lib/gzip34.py:102-105 | what is left of the buffer is what comes next in the file |
| `PaddedFiles.PaddedFile.SeekStart` | YeSQL_MonetDB/lib/gzip34.py:107-117 | reading starts again at the first byte |
| `GzipReading.GzipReader.constructor` | YeSQL_MonetDB/lib/gzip34.py:182-198 | a reader is at the start of the file |
| `GzipReading.GzipReader.ReadExact` | YeSQL_MonetDB/lib/gzip34.py:280-288 | the next `n` bytes, or an error exactly if the file has fewer |
| `GzipReading.GzipReader.SkipString` | YeSQL_MonetDB/lib/gzip34.py:304-315 | a string is skipped to its zero byte or to the end of the file |
| `GzipReading.GzipReader.SkipHeader` | YeSQL_MonetDB/lib/gzip34.py:290-317 | the header is parsed to where it ends, with the error of every malformed one |
| `GzipReading.GzipReader.ReadGzipHeader` | YeSQL_MonetDB/lib/gzip34.py:290-325 | the same, and showing the unread buffer to the old decompressor gives out nothing |
| `GzipReading.GzipReader.AddReadData` | YeSQL_MonetDB/lib/gzip34.py:468-474 | the buffer drops what was read and gains the data; checksum and length go on |
| `GzipReading.GzipReader.ReadEof` | YeSQL_MonetDB/lib/gzip34.py:476-495 | accepts exactly a trailer with the running checksum and the length modulo `2^32`, and skips exactly the zero bytes after it |
| `GzipReading.GzipReader.ReadMore` | YeSQL_MonetDB/lib/gzip34.py:424-466 | for every file: buffer invariant kept, `NameError` never raised, progress made; a bad header, a wrong trailer or an early end raises its own error, which is also what the whole file comes to, and `false` is answered exactly at the end of the file, when the whole content has been decompressed; on a well-formed file no error, and the content decompressed in order |
| `GzipReading.GzipReader.Absorb` | YeSQL_MonetDB/lib/gzip34.py:455-466 | what one part of the file gives: decompressed data, and at the end of a member its trailer checked and the rest put back |
| `GzipReading.GzipReader.Read` | YeSQL_MonetDB/lib/gzip34.py:348-375 | on any file the next bytes, `n` of them unless the whole content ends before, or the error that the file comes to; on a well-formed file exactly the next `n` bytes of the content, or all that is left |
| `GzipReading.GzipReader.Read1` | YeSQL_MonetDB/lib/gzip34.py:377-397 | some of the next bytes, at most `n`, and none only at the end of the whole content; or the error that the file comes to |
| `GzipReading.GzipReader.Peek` | YeSQL_MonetDB/lib/gzip34.py:399-418 | some of the next bytes, at most as many as asked for or 100 if fewer are, none only at the end of the whole content, and the position stays; or the error that the file comes to; the assertion in the code holds |
| `GzipReading.GzipReader.Unread` | YeSQL_MonetDB/lib/gzip34.py:420-422 | bytes are given back to the buffer |
| `GzipReading.GzipReader.ReadLine` | YeSQL_MonetDB/lib/gzip34.py:577-613 | on any file the line at the position, up to and with its newline or the end of the content (or `sys.maxsize` bytes of it), whatever was buffered and whatever size is asked for; or the error that the file comes to |
| `GzipReading.LineMeans` | YeSQL_MonetDB/lib/gzip34.py:586-600 | a line byte by byte: no byte 10 before its last one, and it ends with one, with the content or at the largest size |
| `GzipReading.LineWithinSize` | YeSQL_MonetDB/lib/gzip34.py:577-600 | the line given is the one the size asks for if and only if the size does not cut it, for every size below `sys.maxsize` |
| `GzipReading.LineBeyondSize` | YeSQL_MonetDB/lib/gzip34.py:586-600 | two bytes and a newline: three bytes, whatever size is asked for |
| `GzipReading.GzipReader.Rewind` | YeSQL_MonetDB/lib/gzip34.py:531-541 | the reader is at the start of the file again |
| `GzipReading.GzipReader.Seek` | YeSQL_MonetDB/lib/gzip34.py:552-575 | on any file where the reader ends up for every target, negative ones included, or the refusal, or the error that the file comes to |
| `GzipReading.SeeksTarget` | YeSQL_MonetDB/lib/gzip34.py:552-575 | that is the target, cut to the content, if and only if the target is not negative, or a multiple of 1024, or there is no content |
| `GzipReading.SeekBeforeStart` | YeSQL_MonetDB/lib/gzip34.py:552-575 | a target before the start is taken in blocks of 1024 bytes: 1 to 1024 bytes before one of them ends 1023 to 0 bytes after the start, or at the end of a shorter content |
| `GzipFormat.LawsCanBeMet` | YeSQL_MonetDB/lib/gzip34.py:434-455 | what is taken from zlib, there and where the writer flushes its compressor, is consistent |
| `GzipFormat.HeaderReadsBack` | YeSQL_MonetDB/lib/gzip34.py:290-317 | a header with any of its optional fields is read to its end (section 2.3.1 of RFC 1952) |
| `GzipFormat.HeaderInNumbers` | YeSQL_MonetDB/lib/gzip34.py:14 | the bytes of a header: which fields follow the first ten for the flag bits 4, 8, 16 and 2 |
| `GzipFormat.HeaderRefusals` | YeSQL_MonetDB/lib/gzip34.py:290-302 | which bytes are refused as a header, and how; nothing at all is no header |
| `GzipFormat.FieldsInNumbers` | YeSQL_MonetDB/lib/gzip34.py:304-317 | where the fields end that the flag bits announce, or that the file is cut off |
| `GzipFormat.Le32ReadsBack` | YeSQL_MonetDB/lib/gzip34.py:62-65 | the little-endian words of a trailer read back |
| `GzipTracking.Inside` | YeSQL_MonetDB/lib/gzip34.py:447-466 | reading on inside a member meets either more of it or its end, after which its trailer, its padding and the next member stand |
| `GzipTracking.AtStart` | YeSQL_MonetDB/lib/gzip34.py:428-436 | at the start of a member its header is found, and at the end of the file that there is none |
| `GzipTracking.FedPart` | YeSQL_MonetDB/lib/gzip34.py:455-463 | a decompressor has bytes left over exactly when it was fed past the end of the member |
| `GzipTracking.TrailerPasses` | YeSQL_MonetDB/lib/gzip34.py:476-485 | a trailer passes the check if and only if checksum and length modulo `2^32` are those of the content |
| `GzipTracking.TrailerRefusals` | YeSQL_MonetDB/lib/gzip34.py:476-489 | which bytes are refused as a trailer, and how: too few, then the checksum, then the length, the least byte first |
| `GzipFormat.TrailerInNumbers` | YeSQL_MonetDB/lib/gzip34.py:501-511 | the bytes of a trailer |
| `GzipWellFormed.VerdictIsContent` | YeSQL_MonetDB/lib/gzip34.py:424-495 | a file comes to a content if and only if it is the bytes of gzip members, one after the other, and then to theirs |
| `GzipVerdict.ForetoldMore` | YeSQL_MonetDB/lib/gzip34.py:447-466 | what a reader inside a member finds next is what is left of what the file comes to, an error included |
| `GzipSessions.Perform` | YeSQL_MonetDB/lib/gzip34.py:348-613 | every call answers as the content and the offset alone call for |
| `GzipSessions.RunSession` | YeSQL_MonetDB/lib/gzip34.py:348-613 | every interleaving of read, read1, peek, readline and seek is such a run of answers |
| `GzipSessions.SessionReadsInOrder` | YeSQL_MonetDB/lib/gzip34.py:348-613 | without seeks, what a run gives out is the slice of the content between its offsets: no byte lost, none twice |
| `GzipSessions.SessionReadsAll` | YeSQL_MonetDB/lib/gzip34.py:348-375 | a run from the start that ends with reading the rest has given out the whole content |
| `GzipSessions.ReadWhole` | YeSQL_MonetDB/lib/gzip34.py:348-375 | reading any file to its end succeeds if and only if the file is the bytes of gzip members, and gives their content; a file that does not start with the magic bytes is refused as such |
| `GzipWriting.GzipWriter.constructor` | YeSQL_MonetDB/lib/gzip34.py:250-274 | the header that is written, with the name without its suffix if there is one |
| `GzipWriting.WrittenInNumbers` | YeSQL_MonetDB/lib/gzip34.py:250-274 | that header byte by byte: flag byte 8 and the name with a zero byte, or flag byte 0 without |
| `GzipWriting.GzipWriter.Write` | YeSQL_MonetDB/lib/gzip34.py:327-346 | the data goes to the compressor, the checksum and the length; refused when closed |
| `GzipWriting.GzipWriter.Close` | YeSQL_MonetDB/lib/gzip34.py:501-514 | what has been written is one whole member; closing twice changes nothing |
| `GzipWriting.WrittenMember` | YeSQL_MonetDB/lib/gzip34.py:250-274 | what a closed writer leaves is a well-formed member with the written content |
| `GzipWriting.WriteThenRead` | YeSQL_MonetDB/lib/gzip34.py:616-631 | any number of members, each written in any pieces, read back as what was written |
| `EditDistance.LevenshteinDist` | YeSQL_MonetDB/lib/stringdists.py:48-67 | the rolling rows compute the distance defined by recursion, although the arguments are swapped |
| `EditDistance.DamerauLevenshteinDist` | YeSQL_MonetDB/lib/stringdists.py:30-46 | the three rows with the leftmost column stored last, reached by a negative index, compute the restricted distance, for empty sequences too |
| `EditDistance.DistanceIsSymmetric` | YeSQL_MonetDB/lib/stringdists.py:53-56 | both distances are symmetric |
| `EditDistance.DistanceIsLeastCost` | YeSQL_MonetDB/lib/stringdists.py:6-8 | each distance is the least cost of an edit script (in the restricted one transpositions are edits), attained and never undercut |
| `EditDistance.LevenshteinTriangle` | YeSQL_MonetDB/lib/stringdists.py:48-52 | the triangle inequality |
| `EditDistance.DistanceZero` | YeSQL_MonetDB/lib/stringdists.py:48-52 | the distance is zero exactly for equal sequences |
| `EditDistance.DistanceBounds` | YeSQL_MonetDB/lib/stringdists.py:48-67 | at least the difference of the lengths, at most the longer one |
| `EditDistance.DamerauAtMostLevenshtein` | YeSQL_MonetDB/lib/stringdists.py:43-45 | transpositions never make it longer |
| `EditDistance.LevenshteinCountsMoves` | YeSQL_MonetDB/lib/stringdists.py:48-52 | the distance is the least number of single insertions, deletions and substitutions that lead from one sequence to the other |
| `EditDistance.DamerauCountsMoves` | YeSQL_MonetDB/lib/stringdists.py:6-8 | as many single moves as the distance says always suffice, and it is at most twice the number needed |
| `CrossingEdits.DamerauIsNeeded` | YeSQL_MonetDB/lib/stringdists.py:6-8 | the distance is the number of insertions, deletions, substitutions and transpositions needed, as documented, for any two sequences neither of which has two unequal neighbours that are in the other the other way round with something between them |
| `NeededEdits.DamerauIsNeededIff` | YeSQL_MonetDB/lib/stringdists.py:6-8 | in general it is that number if and only if it equals the textbook distance, which lets a pair cross over what stands between its last places; where no neighbours are straddled the two are equal |
| `NeededEdits.NeededIsLeast` | YeSQL_MonetDB/lib/stringdists.py:6-8 | the textbook distance is the least number of moves that lead from one sequence to the other |
| `CrossingEdits.NeededIsLeastPrice` | YeSQL_MonetDB/lib/stringdists.py:6-12 | that number is also the least price of a script in which two elements may cross while others between them come or go |
| `CrossingEdits.MovesAfford` | YeSQL_MonetDB/lib/stringdists.py:6-12 | however moves are interleaved, and however often they edit the same place, a crossing script costs no more |
| `CrossingEdits.CrossingDistance` | YeSQL_MonetDB/lib/stringdists.py:43-45 | a crossing that straddles nothing costs at least what the code says for it |
| `EditDistance.TwoMovesCountedAsThree` | YeSQL_MonetDB/lib/stringdists.py:6-8 | two moves lead from `ca` to `abc` where the code says three, and the triangle inequality fails |
| `OrderedDicts.OrderedDict.constructor` | YeSQL_MonetDB/lib/collections26.py:37-51 | an empty dictionary whose ring is the sentinel alone |
| `OrderedDicts.OrderedDict.LinkLast` | YeSQL_MonetDB/lib/collections26.py:58-60 | a link is put between the last one and the sentinel, and the ring stays one |
| `OrderedDicts.OrderedDict.Unlink` | YeSQL_MonetDB/lib/collections26.py:68-70 | a link is taken out, and the ring stays one |
| `OrderedDicts.OrderedDict.SetItem` | YeSQL_MonetDB/lib/collections26.py:53-61 | a new key goes last, an old one keeps its place; the map and the ring agree |
| `OrderedDicts.OrderedDict.DelItem` | YeSQL_MonetDB/lib/collections26.py:63-70 | the key goes and the order of the others stays, or `KeyError` and nothing changes |
| `OrderedDicts.OrderedDict.Iterate` | YeSQL_MonetDB/lib/collections26.py:72-80 | forward along the links are the keys in order, and the walk ends |
| `OrderedDicts.OrderedDict.IterateReversed` | YeSQL_MonetDB/lib/collections26.py:82-90 | backward along the links are the same keys, last first |
| `OrderedDicts.OrderedDict.Clear` | YeSQL_MonetDB/lib/collections26.py:92-99 | nothing is left and the ring is the sentinel alone |
| `OrderedDicts.OrderedDict.Pop` | YeSQL_MonetDB/lib/collections26.py:135-147 | the value of the key, which goes, or the default, or `KeyError` |
| `OrderedDicts.OrderedDict.SetDefault` | YeSQL_MonetDB/lib/collections26.py:149-154 | the value of the key, set to the default only if there was none |
| `OrderedDicts.OrderedDict.PopItem` | YeSQL_MonetDB/lib/collections26.py:156-165 | the last or the first item, which goes, or `KeyError` |
| `OrderedDicts.OrderedDict.ItemList` | YeSQL_MonetDB/lib/collections26.py:111-113 | the items in order |
| `OrderedDicts.OrderedDict.EqualsOrdered` | YeSQL_MonetDB/lib/collections26.py:206-214 | equal to another ordered dictionary exactly with the same items in the same order |
| `OrderedDicts.OrderedDict.EqualsMapping` | YeSQL_MonetDB/lib/collections26.py:206-214 | equal to a plain dictionary exactly with the same keys and values |
| `OrderedDicts.Perform` | YeSQL_MonetDB/lib/collections26.py:25-165 | after any run of set, setdefault, delete, pop, popitem and clear the links are one ring that matches the map, and hold the items the run calls for |
| `ItemLists.RunIsInsertionOrdered` | YeSQL_MonetDB/lib/collections26.py:26-27 | over every run the items are in order of the insertion their key survives from, with the value last set |
| `ItemLists.PopItemByAge` | YeSQL_MonetDB/lib/collections26.py:156-160 | `popitem` takes the surviving key inserted last or first, as asked, and no other |
| `VirtualTables.VtDistinct` | YeSQL_MonetDB/functions/sqltransform.py:390-399 | the loop over an `OrderedDict` gives one entry per name, in the order in which the names are first seen, each the first permanent one of its name or else the last one |
| `VirtualTables.MergesKeeps` | YeSQL_MonetDB/functions/sqltransform.py:390-399 | a list merged step by step has such an entry for every name, and no other |
| `VirtualTables.DistinctIsMerge` | YeSQL_MonetDB/functions/sqltransform.py:103-111 | merging merged lists is the same as merging once: `vt_distinct(a + b) == vt_distinct(vt_distinct(a) + vt_distinct(b))` |
| `BuildSql.BuildIsUnfold` | YeSQL_MonetDB/functions/__init__.py:139-153 | with definitions that go downhill the rewrite ends with the complete unfolding, or with nothing if a name in it is undefined |
| `BuildText.NameBuilt` | YeSQL_MonetDB/functions/__init__.py:139-153 | a name builds `(select * from ` with the operator of the first table of that name, what its arguments build, and `)) as ` with the alias of that same name; one that no table has, or whose arguments build nothing, builds nothing |
| `BuildText.PartsBuilt` | YeSQL_MonetDB/functions/__init__.py:139-153 | what two texts put together build is what the one builds followed by what the other does, and both must build |
| `BuildText.OtherTokenStays` | YeSQL_MonetDB/functions/__init__.py:139-153 | any other text stays as it is |
| `BuildText.BuildsOneText` | YeSQL_MonetDB/functions/__init__.py:139-153 | a query builds no more than one text |
| `BuildSql.UnfoldedIsNameFree` | YeSQL_MonetDB/functions/__init__.py:148-153 | the complete unfolding has no virtual-table name left |
| `BuildSql.AnyOrder` | YeSQL_MonetDB/functions/__init__.py:139-153 | replacing names in any other order gives the same text |
| `BuildOutcomes.BuildsIffGrounded` | YeSQL_MonetDB/functions/__init__.py:139-153 | for every query and every list: the rewrite returns a text at some depth if and only if the unfolding of each name in the query is defined throughout and ends; the text is the same at every depth at which the rewrite ends, and has no name in it |
| `BuildOutcomes.BuildsIffNotLost` | YeSQL_MonetDB/functions/__init__.py:139-153 | the same without levels: if and only if the query mentions no set of names each of which is undefined or mentions another of the set |
| `BuildOutcomes.Outcomes` | YeSQL_MonetDB/functions/__init__.py:139-153 | when it returns a text; when it returns nothing: if the first name that does not bottom out leads, first such name by first such name, to an undefined one; and so when no depth is enough |
| `BuildOutcomes.GroundedBuilds` | YeSQL_MonetDB/functions/__init__.py:148-153 | what it returns then is the complete unfolding |
| `BuildOutcomes.UndefinedGivesNothing` | YeSQL_MonetDB/functions/__init__.py:139-153 | a query of one undefined name is answered with nothing |
| `BuildOutcomes.CircularIsTooDeep` | YeSQL_MonetDB/functions/__init__.py:150-151 | a query of one name whose table mentions it ends at no depth |
| `BuildSql.EndlessNeverReturns` | YeSQL_MonetDB/functions/__init__.py:150-151 | with such names no depth of recursion is enough |
| `SqlTransform.Transformer.Transform` | YeSQL_MonetDB/functions/sqltransform.py:67-118 | over the statements that are not empty: fails exactly if a rewrite raises; else each rewritten text followed by `;`, in order, the tables merged, with those of a view permanent, the direct operators one list after the other, and a list of inline operators per statement if there may be any; the flag is set exactly if a statement inverts before which none raises.  The cache is the old one, or has the new answer last and, when there were 1000, the oldest one gone |
| `SqlTransform.Transformer.RewriteStatements` | YeSQL_MonetDB/functions/sqltransform.py:86-111 | the loop over the statements comes to that |
| `SqlTransform.UncachedReplies` | YeSQL_MonetDB/functions/sqltransform.py:86-111 | a call without a cache comes to that for every text |
| `SqlTransform.Transformer.Remember` | YeSQL_MonetDB/functions/sqltransform.py:113-117 | the cache never holds more than 1000 answers, and the oldest makes way |
| `SqlTransform.TransformAll` | YeSQL_MonetDB/functions/sqltransform.py:67-118 | over every run of calls each answer is that of its own text, and with the flag that of an uncached call |
| `SqlTransform.Execute` | YeSQL_MonetDB/functions/__init__.py:201-213 | what is sent to the database: the query as written, or its complete rewriting if it was an inversion |
| `SqlTransform.SentIsNameFree` | YeSQL_MonetDB/functions/__init__.py:208-213 | an inversion sends a text, given the depth, if and only if every name in its rewriting bottoms out, whatever else is in the list; and there is no virtual-table name in what it sends |

Whatever a row leaves unsaid about arguments: contracts that name `Valid()`, `Tracks()` or `Pass` state
the new state through those predicates, which are defined beside them.

## Left out

- GzipFormat.Codec: DEFLATE, its window and the CRC polynomial are parameters with the laws of `GzipFormat.Lawful`; data that zlib refuses, and its exceptions, are not modelled.
- GzipReading.GzipReader: files are read in full, as regular files and byte buffers are; calls after a call has raised, calls on a closed reader, the recorded modification time and the name are not modelled.
- GzipReading.GzipReader.ReadBody: the flush at an unexpected end of the file gives out nothing, so the call always fails there, as the code's does when the trailer is missing.
- GzipWriting.GzipWriter: the base name in Latin-1 and a modification time of 32 bits are parameters; writing in text mode, `flush` between writes and `seek` on a writer are left out.
- CollapseList.CollapseAddressList: lists that mix versions are modelled only as far as the tests that refuse some of them (`Versions`), not what becomes of those that pass; the interpreter's bound on recursion is not modelled.
- Subnets.Subnet: `_is_valid_netmask` is its test of the number of bits; networks are built from numbers where the code goes through text.
- Networks.Net: versions, the lazy caches of derived attributes, IPv4 text, string validation, dotted masks that are not contiguous and host masks.
- Ipv6Text.IpIntFromString: text that ends in a dotted IPv4 address is answered `Ipv4Tail`; signs, prefixes, underscores and spaces that Python's `int` allows in a field are refused; the empty string, which the code takes to mean the object's own address, is refused too.
- Ipv6Text.ExplodedIsLonghand: for addresses; a network's text, with its prefix length, is not exploded here.
- KdTree.Build: cells are real numbers, a dense order, and rows are at least as long as the columns asked for; text and mixed columns are not modelled, and the logarithm is the exact integer one.
- KdQuery.Query: the rows are collected where the code yields them one at a time; constraint types are the five the code names.
- EditDistance.DamerauCountsMoves: bounds the number needed for all inputs, from both sides; the exact statement is `NeededEdits.DamerauIsNeededIff`.
- EditDistance: `quick_string_dist` rests on `difflib`, which is not part of this model.
- OrderedDicts.OrderedDict: a link keeps its key when it is cleared; views, copies, pickling, `update`, `Counter` and `namedtuple` are left out, and iteration while the dictionary changes.
- BuildSql.BuildIsUnfold: text is a list of tokens, so a name that begins another name and backslashes in a replacement, which the regular expressions would mangle, do not arise.
- SqlTransform.Transformer.Transform: the rewrite of a statement, which rests on `sqlparse`, is a parameter, as are substitution, splitting and operator comments; queries that are not text, which the function returns as they are, are left out, and the operator tables do not change between calls.
- SqlTransform.Execute: the connection, bindings and the code after its `return` statements.
- The terminals, drivers, operator registration and scalar operators of YeSQL, and its copies of these files under `YeSQLite/`.
