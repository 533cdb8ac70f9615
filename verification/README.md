# Minimal perfect hashing in cmph, and the file server on top of it

Johnny is an in-memory HTTP file server. It finds a file by hashing the requested name with a minimal perfect hash
function, which the C library cmph builds when the server starts. This project models the construction algorithms of
that library, its bit-packed structures, and the parts of Johnny that depend on them, and proves what they promise.

The construction algorithms draw random hash functions until one works. Here a hash function is any function of a seed
and a key (`Hashing.HashFamily`, `Hashing.HashPairs`); seeds are counted up where the source draws random ones. So a
theorem about a construction reads: for every hash family and every list of keys, if construction succeeds, then the
search function maps the keys one-to-one onto 0..m-1. Where it was possible, the condition of success is stated too.

| file | what it models |
|---|---|
| `Words`, `BitTable` | 32-bit words, shifts and masks; bit tables with fields that may straddle two words (bitbool.h) |
| `Select`, `CompressedSeq`, `CompressedRank` | the succinct structures, unpacked and packed |
| `ChdPhMapping`, `ChdPhOrdering`, `ChdPhSearching`, `ChdPhGreedy`, `ChdPh`, `Chd` | CHD, the algorithm Johnny uses |
| `Johnny`, `Scanner` | reordering and looking up files; the resumable scanner for requests |
| `Hypergraph`, `BdzQueue`, `BdzPeeling`, `BdzAssigning`, `TwoBits`, `Bdz`, `BdzPh` | BDZ and BDZ_PH |
| `Graphs`, `Forests`, `Visits`, `Chm` | half-edge graphs, 2-cores, CHM |
| `VQueue`, `BmzSearch`, `BmzQueues`, `BmzCritical`, `BmzTrees`, `Bmz` | BMZ |
| `FchBuckets`, `Fch` | FCH |
| `NumberTheory`, `MillerRabin` | the primality check that picks the number of bins |
| `Counting`, `CountingSort`, `PerfectHashing`, `KeyEdges`, `Hashing`, `Options` | shared definitions and lemmas |

`dafny verify dfyconfig.toml` checks all of it.

## The main theorems

* CHD: `Chd.BuiltIsMinimalPerfect`, with `Chd.Search`, `Chd.New` and `Chd.BuiltValueInRange` for all other keys;
  `ChdPh.New` fails if and only if its greedy search does, in each of a hundred rounds, or no seed keeps the keys
  apart; `ChdPh.SearchFailsMeans` says in numbers when the greedy search does.
* Succinct structures: `CompressedSeq.CompressedSeqStructure.Query` returns the stored value,
  `CompressedRank.CompressedRankStructure.Query` the number of smaller values, `Select.SelectStructure.Query` the
  position of a one; the packed forms return the same.
* BDZ: `Bdz.BuiltIsMinimalPerfect`, `Bdz.New` (takes the first hypergraph that is accepted, and fails if and only if
  none is), `Bdz.AcceptedMeans` (every hypergraph that can be peeled is accepted, and no other unless a degree is
  above 256).
* CHM: `Graphs.Graph.IsCyclic` (exact), `Chm.New` (order preserving; succeeds if and only if one of its graphs is a
  forest).
* BMZ: `Bmz.SumsArePermutation`, and `Bmz.SearchingStep` and `Bmz.New`, whose ends are functions of the graphs and of
  the keys; `BmzSearch.RestartMeans` and `BmzQueues.AbortedIfFull` say what they mean.
* FCH: `Fch.SlotsAreMinimalPerfect`, with the rollback in `Fch.TryBucket`; `Fch.SearchingStep` ends as a function of
  the tables that its random choices leave.
* Primality: `MillerRabin.PassesBaseMeans` (what the check computes, in powers alone) and
  `MillerRabin.PrimesAccepted`, from `NumberTheory.Fermat` and `NumberTheory.RootsOfOne`.
* Johnny: `Johnny.Server.Respond`, `Scanner.ChunkingIndependent`.

Places where the code does less than one might expect, each with its exact condition and an input that shows it:

* `Johnny.SlotInTable`: the search for a name that is not stored may return one past the last slot, and the table is
  then read out of range. `Johnny.SlotCanLeaveTable`: so it can be whenever the last bin is free.
* `Scanner.ChunkingIndependent`: a cut inside a file name changes the names found. `Scanner.CutLosesHead` is one.
* `Scanner.FoundIfSeen`: a blank line is not found where it stands if and only if an odd number of carriage returns
  stands directly before it. `Scanner.UnpairedReturnHidesBlankLine` has one.
* `Bmz.SearchEdgeAgrees`: search and construction disagree on keys that fall twice on the last vertex.
  `Bmz.LastVertexTwice` is such a key.
* `MillerRabin.PrimesAccepted`: five primes are refused.
* `BmzQueues.AbortedIfFull`: the queue of the heuristic variant has room for half of the critical vertices and one
  more, and an assertion stops the program when it is full. It does if and only if breadth-first search over the
  critical vertices, which has nothing to do with labels, fills the queue, unless a vertex gets no label before. It
  never fills if no component of the 2-core has more than half of the critical vertices and two more
  (`BmzQueues.SmallPartsFit`). `Bmz.TwoHubsAtFirst` has ten keys that stop the program.
* `Bdz.New`: degrees are counted in bytes, and 257 reads as 1. A hypergraph is taken if and only if the peeling with
  bytes for counters, `BdzQueue.ByteQueue`, takes all its edges (`Bdz.Accepted`). With degrees up to 256 these are
  exactly the hypergraphs that can be peeled; `Bdz.EqualKeysTaken` has 257 keys that are taken and cannot be told
  apart.

## Model

| member | source | states |
|---|---|---|
| `BitTable.GetBit32` | cmph/src/bitbool.h:91 | the macro reads bit `i` of the table seen as one long row of bits |
| `BitTable.SetBit32` | cmph/src/bitbool.h:82 | exactly bit `i` becomes 1 |
| `BitTable.UnsetBit32` | cmph/src/bitbool.h:100 | the macro flips bit `i` (it is an exclusive or), and nothing else |
| `BitTable.SetBitsValue` | cmph/src/bitbool.h:104-120 | exactly the bits of field `index` change, to those of the value, also when the field straddles two words |
| `BitTable.GetBitsValue` | cmph/src/bitbool.h:122-136 | the value of the bits of field `index` |
| `BitTable.SetBitsAtPos` | cmph/src/bitbool.h:138-152 | exactly `len` bits from `pos` on change, to those of the value |
| `BitTable.GetBitsAtPos` | cmph/src/bitbool.h:154-170 | the value of the `len` bits from `pos` on |
| `BitTable.FieldRoundTrip` | cmph/src/bitbool.h:104-170 | a value that fits its field is read back |
| `BitTable.FieldUntouched` | cmph/src/bitbool.h:104-170 | writing a field leaves every disjoint field as it is |
| `BitTable.FieldPutBack` | cmph/src/bitbool.h:104-170 | writing back what a field holds changes nothing |
| `BitTable.FieldIsQuotientRest` | cmph/src/bitbool.h:154-170 | in numbers: the field at `pos` is the table, as one large number, divided by `2^pos`, modulo `2^len` |
| `Words.MaskValue` | cmph/src/bitbool.h:143 | the mask of `len` ones is the number `2^len - 1` |
| `TwoBits.GetValue` | cmph/src/bitbool.h:71 | the macro reads entry `i` of the table seen as two-bit values |
| `TwoBits.SetValue1` | cmph/src/bitbool.h:49 | entry `i` keeps the bits that it shares with `v`, and no other entry changes: an entry that is still 3 becomes `v` |
| `TwoBits.SetValue0` | cmph/src/bitbool.h:61 | entry `i` gets the bits of `v` in addition, and no other entry changes: an entry that is still 0 becomes `v` |
| `TwoBits.NewTable` | cmph/src/bdz.c:428-431 | all entries are 3, or all are 0 |
| `Select.SelectLookup` | cmph/src/select.c:167-188 | the byte table gives the position of the k-th one of a byte, or 255 if there is none |
| `Select.WriteBits` | cmph/src/select.c:94-162 | the shifting buffer leaves the j-th one at position `keys[j] + j`, and no other ones |
| `Select.WriteSamples` | cmph/src/select.c:68-92 | every entry of the step table is the position of a 128-th one: entry `k` that of the one numbered `128 * k` |
| `Select.QueryBits` | cmph/src/select.c:167-188 | step table and byte tables together find the bit with exactly `oneIdx` ones below it that is one itself |
| `Select.NextQueryBits` | cmph/src/select.c:196-215 | finds the next one after a given one |
| `Select.SelectStructure.Generate` | cmph/src/select.c:94-165 | the structure holds the keys, for nondecreasing keys up to `m` |
| `Select.SelectStructure.Query` | cmph/src/select.c:190-193 | `keys[oneIdx] + oneIdx` for every index |
| `Select.SelectStructure.NextQuery` | cmph/src/select.c:217-220 | from the position of one key, the position of the next |
| `Select.PackedFound` | cmph/src/select.c:222-248 | the dumped words hold the keys, whatever follows them in memory |
| `Select.QueryPacked` | cmph/src/select.c:318-330 | the packed query returns what the unpacked one does |
| `Select.NextQueryPacked` | cmph/src/select.c:332-337 | and so does the packed query for the next one |
| `CompressedSeq.ILog2` | cmph/src/compressed_seq.c:13-23 | the logarithm rounded down: `2^r <= x < 2^(r+1)` |
| `CompressedSeq.ComputeILog2` | cmph/src/compressed_seq.c:13-23 | the loop computes it |
| `CompressedSeq.CodeLength` | cmph/src/compressed_seq.c:56-67 | values from `2^len - 1` to `2^(len+1) - 2` get codes of `len` bits |
| `CompressedSeq.Code` | cmph/src/compressed_seq.c:73-83 | what is stored of a value: `2^len + code == v + 1` |
| `CompressedSeq.RemainderBitsMean` | cmph/src/compressed_seq.c:85-92 | how many low bits go to the remainder table: the logarithm of the mean `total / n`, rounded down, and 1 if the mean is below 2 |
| `CompressedSeq.StoreCodes` | cmph/src/compressed_seq.c:73-83 | the code of every value is in the table, at the sum of the lengths before it |
| `CompressedSeq.StoreRemainders` | cmph/src/compressed_seq.c:97-107 | the low parts of the cumulative lengths are in the remainder table, the high parts in the length table |
| `CompressedSeq.LengthOfParts` | cmph/src/compressed_seq.c:97-107 | the two parts give back the cumulative length: quotient times `2^r` plus remainder |
| `CompressedSeq.CompressedSeqStructure.Generate` | cmph/src/compressed_seq.c:45-116 | the structure holds the values, for every nonempty list of values below 2^32-1 whose sizes fit 32 bits |
| `CompressedSeq.CompressedSeqStructure.Query` | cmph/src/compressed_seq.c:126-160 | round trip: the query returns `vals[idx]` |
| `CompressedSeq.CompressedSeqStructure.PackedIsFound` | cmph/src/compressed_seq.c:162-236 | the dumped words hold the values, whatever follows them in memory |
| `CompressedSeq.CompressedSeqStructure.PackedLayout` | cmph/src/compressed_seq.c:162-236 | the words are: the number of values, that of the remainder bits, the total length, the size of the select structure in bytes, and the three tables |
| `CompressedSeq.QueryPacked` | cmph/src/compressed_seq.c:333-378 | round trip through the packed form: `vals[idx]` |
| `CompressedRank.CountBelowAt` | cmph/src/compressed_rank.c:75-114 | in a nondecreasing list, the count of values below `x` is the place where values below `x` end |
| `CompressedRank.CountQuotients` | cmph/src/compressed_rank.c:49-65 | entry `i` counts the values whose quotient is at most `i` |
| `CompressedRank.CompressedRankStructure.Generate` | cmph/src/compressed_rank.c:37-73 | the structure holds the values, for nondecreasing values of which the last is at least 2, with as many remainder bits as the mean `max / n` has (`CompressedSeq.RemainderBitsMean`) |
| `CompressedRank.CompressedRankStructure.Query` | cmph/src/compressed_rank.c:75-114 | the number of values below `idx`, for every 32-bit `idx`; the scan stays in bounds and ends |
| `CompressedRank.Scan` | cmph/src/compressed_rank.c:99-111 | the scan over one quotient ends at the count of smaller values |
| `CompressedRank.CompressedRankStructure.PackedIsFound` | cmph/src/compressed_rank.c:124-188 | the dumped words hold the values, whatever follows them in memory |
| `CompressedRank.CompressedRankStructure.PackedLayout` | cmph/src/compressed_rank.c:124-188 | the words are: the last value, the number of values, that of the remainder bits, the size of the select structure in bytes, and the two tables |
| `CompressedRank.QueryPacked` | cmph/src/compressed_rank.c:266-321 | the packed query returns the same count |
| `ChdPhMapping.MapKeysMean` | cmph/src/chd_ph.c:240-247 | every key has the bucket `h0 % nbuckets` and the item `h1 % n`, `h2 % (n - 1) + 1` of its own hash values |
| `ChdPhMapping.CleanBuckets` | cmph/src/chd_ph.c:73-78 | no bucket counts any item |
| `ChdPhMapping.BucketInsert` | cmph/src/chd_ph.c:80-101 | the item joins its bucket, in order; refused exactly when the bucket has that item already |
| `ChdPhMapping.CountSizes` | cmph/src/chd_ph.c:226-259 | bucket sizes are counted; the maximum is an upper bound, which an earlier round may have left too large |
| `ChdPhMapping.SetOffsets` | cmph/src/chd_ph.c:260-266 | every bucket gets its own block of items |
| `ChdPhMapping.ClashIsDuplicate` | cmph/src/chd_ph.c:80-101 | some item is refused if and only if two keys have the same bucket and the same item |
| `ChdPhMapping.InsertAll` | cmph/src/chd_ph.c:267-277 | all items are inserted if and only if no two keys have the same bucket and item |
| `ChdPhMapping.Mapping` | cmph/src/chd_ph.c:216-289 | stops at the first of a thousand seeds without a clash, with the items of every bucket in its block; fails if and only if all thousand clash |
| `CountingSort.FilledNext` | cmph/src/chd_ph.c:323-335 | one step of a counting sort: the next element goes to the next free place of its class |
| `ChdPhOrdering.Ordering` | cmph/src/chd_ph.c:291-366 | buckets are sorted by size, with their numbers, and every bucket's block of items has moved with it |
| `ChdPhOrdering.MoveItems` | cmph/src/chd_ph.c:343-361 | the blocks are copied in the sorted order without overlap |
| `ChdPhSearching.BinFormula` | cmph/src/chd_ph.c:394 | the bin of an item is `(f + h * probe0 + probe1) % n` |
| `ChdPhSearching.ProbeParts` | cmph/src/chd_ph.c:902-919 | remainder and quotient of a stored displacement are the two parts of the probe |
| `ChdPhSearching.ProbeAdvance` | cmph/src/chd_ph.c:541-547 | the next probe has the next number |
| `ChdPhSearching.SpentMeans` | cmph/src/chd_ph.c:541-552 | the search of a size gives up after `tried` probes if and only if `tried >= maxProbes` or `tried >= n * n` |
| `ChdPhSearching.PlaceBucketProbe` | cmph/src/chd_ph.c:368-438 | places exactly if all bins are free and different; otherwise the table is restored bit for bit |
| `ChdPhSearching.MisfitMeans` | cmph/src/chd_ph.c:368-438 | a bucket misfits if and only if the bin of one of its items is taken, or two of its items have the same |
| `ChdPhSearching.PlaceStep` | cmph/src/chd_ph.c:515-521 | after placing a bucket the table is still exactly the bins of the placed buckets, each bin with one owner |
| `ChdPhSearching.PlaceList` | cmph/src/chd_ph.c:508-554 | keeps occupancy exact, and leaves the table of the greedy search over the buckets of one size. Gives up only after as many probes as the limit or as `n * n`, and every bucket left misfits under each probe tried; success with a bucket to place takes fewer probes than either |
| `ChdPhSearching.PlaceBuckets` | cmph/src/chd_ph.c:493-557 | success or failure, and the table, are those of the greedy search over the buckets as a function; success places every nonempty bucket; failure is at one size, after as many probes as the limit or as `n * n`, and some bucket of the size misfits under all of them but perhaps the last; a limit of one probe or none always fails |
| `ChdPhSearching.SearchFromLargest` | cmph/src/chd_ph.c:493-557 | sizes that no bucket has do not change the search, so that a maximum left too large by an earlier round does no harm |
| `ChdPhSearching.StillMisfit` | cmph/src/chd_ph.c:493-557 | a bucket that did not fit under a probe will not fit under it later |
| `ChdPhGreedy.UsefulProbes` | cmph/src/chd_ph.c:508-554 | the number of probes that can place a bucket: one fewer than the smaller of the limit and `n * n`, since the test for the end comes first |
| `ChdPhGreedy.SizeSearchMeans` | cmph/src/chd_ph.c:508-554 | the buckets of a size are placed if and only if none is left after so many probes, and the table is that of those probes |
| `ChdPhGreedy.GreedyMeans` | cmph/src/chd_ph.c:493-557 | the search over all sizes fails if and only if, when the turn of some size is over, a bucket of it is left; otherwise its table is that of so many probes on each size |
| `ChdPhGreedy.LeftAtSizeMisfits` | cmph/src/chd_ph.c:508-554 | a bucket that is left has that size, and fits under none of those probes |
| `ChdPh.PlacementIsPerfect` | cmph/src/chd_ph.c:493-557 | if every bucket is placed, the keys have different bins, and these are exactly the taken ones |
| `ChdPh.KeyBinMeans` | cmph/src/chd_ph.c:902-919 | the bin of any key is `(h1 % n + (h2 % (n - 1) + 1) * (d % n) + d / n) % n`, where `d` is the displacement of bucket `h0 % nbuckets` |
| `ChdPh.BucketCountMeans` | cmph/src/chd_ph.c:650 | there are so many buckets that the keys fit with a place to spare, and no more |
| `ChdPh.DisplacementsFit` | cmph/src/chd_ph.c:691 | displacements under the probe limit meet the size condition of the compressed sequence |
| `ChdPh.ChdPhFunction.Search` | cmph/src/chd_ph.c:902-919 | computes the bin of the key under the displacement of its bucket |
| `ChdPh.ChdPhFunction.PackedIsFound` | cmph/src/chd_ph.c:921-947 | the packed words hold the function: the number of bins, that of the buckets, and the displacements |
| `ChdPh.SearchPacked` | cmph/src/chd_ph.c:960-985 | the packed search finds the same bin |
| `ChdPh.New` | cmph/src/chd_ph.c:622-831 | on success the bins of the keys are different and exactly those taken in the table; failure if and only if a hundred rounds, each with the first seed without a clash, end in a greedy search that fails, or fewer do and then a thousand seeds in a row clash; with at most one probe (one key) it fails |
| `ChdPh.SearchFailsMeans` | cmph/src/chd_ph.c:493-557 | the greedy search of a round fails if and only if, when the turn of some size is over, a bucket of that size is left, which then fits under none of the first `min(maxProbes, n * n) - 1` probes |
| `ChdPh.FailsOrPlaces` | cmph/src/chd_ph.c:700-790 | construction fails if and only if none of the first hundred rounds places the keys |
| `MillerRabin.BinCount` | cmph/src/chd_ph.c:664-674 | the loop ends, at the latest at any given prime above 61; the result is the least number from the start on that is accepted |
| `MillerRabin.BinCountEnds` | cmph/src/chd_ph.c:664-674 | there always is such a prime, so over unbounded integers the loop ends |
| `MillerRabin.DefaultLeavesBinsFree` | cmph/src/chd_ph.c:655-674 | with the default load factor at least three bins stay free, as the compressed rank needs |
| `Chd.CollectFreeBins` | cmph/src/chd.c:126-135 | collects exactly the free bins in increasing order |
| `Chd.RankOfFreeBins` | cmph/src/chd.c:223-228 | free bins below a bin and taken bins below it add up to its number |
| `Chd.FreeBinsRankable` | cmph/src/chd.c:126-141 | the free bins can be stored in the compressed rank if and only if the last of them is 2 or more |
| `Chd.ThreeAreEnough` | cmph/src/chd.c:126-141 | of three free bins the last is always 2 or more |
| `Chd.New` | cmph/src/chd.c:64-174 | on success the function represents the table, and the keys are perfectly hashed; once the keys are placed, the function is built if and only if the last free bin is 2 or more, as with three free bins it always is; failure if and only if `ChdPh.New` fails |
| `Chd.NewWithDefaultLoad` | cmph/src/chd.c:64-174 | the same with the number of bins that the default load factor and the primality check give; built if and only if `ChdPh.New` does not fail |
| `Chd.Search` | cmph/src/chd.c:223-228 | for every key, stored or not: the number of taken bins below its bin |
| `Chd.BuiltIsMinimalPerfect` | cmph/src/chd.c:223-228 | the m keys get the values 0..m-1, each once |
| `Chd.BuiltValueInRange` | cmph/src/chd.c:223-228 | every key gets a value up to m; it is m exactly when no taken bin is at or above its bin |
| `PerfectHashing.RanksAreMinimalPerfect` | cmph/src/chd.c:223-228 | if keys are one-to-one with the taken slots, their ranks are 0..m-1, each once |
| `PerfectHashing.RankRange` | cmph/src/chd.c:223-228 | the rank of any slot is at most m, and m exactly when no taken slot follows |
| `Johnny.ReorderFiles` | johnny_setup.c:192-200 | every slot is written once, with the file whose name has that slot |
| `Johnny.StoredAnswer` | johnny_worker.c:92-98 | a stored name finds its own file; the names compare equal exactly for stored names |
| `Johnny.Server.Respond` | johnny_worker.c:92-103 | a stored name is answered with its file, any other with 404, unless its slot is one past the table: then, and only then, there is no answer. Names end at the first character 0 |
| `Johnny.SlotInTable` | johnny_worker.c:93-94 | exactly when the slot of a name is in range of the table; for stored names it is, and for all names if the last bin is taken |
| `Johnny.SlotCanLeaveTable` | johnny_worker.c:93-94 | if the last bin is free, then for any other name some hash function, the same on all stored names, gives that name the slot past the table |
| `Scanner.Connection.FindFilename` | johnny_worker.c:105-142 | returns the first name of the unscanned bytes as the byte-by-byte automaton finds it, and leaves the rest; without one, keeps the automaton's state |
| `Scanner.Connection.HandleRequests` | johnny_worker.c:144-154 | returns all names of a buffer and keeps the state for the next |
| `Scanner.Connection.Serve` | johnny_worker.c:144-154 | the names over a run of buffers |
| `Scanner.RunConcat` | johnny_worker.c:105-142 | the automaton over two pieces is the automaton over their concatenation |
| `Scanner.RunFromFirst` | johnny_worker.c:105-142 | finding names one at a time gives all names |
| `Scanner.ChunkingIndependent` | johnny_worker.c:105-142 | the buffers give the names of the whole stream if and only if no cut is inside a name |
| `Scanner.CutLosesHead` | johnny_worker.c:116-131 | the buffers `a` and `b ` give the name `b`, and the whole stream gives `ab` |
| `Scanner.FoundIfSeen` | johnny_worker.c:105-142 | a blank line before which none is seen is found where it stands if and only if an even number of CRs stands directly before it |
| `Scanner.NextNameStart` | johnny_worker.c:105-142 | a name starts 5 bytes after the first such blank line |
| `Scanner.NoneSeenNoName` | johnny_worker.c:105-142 | without such a blank line there is no further name |
| `Scanner.NoBlankLineNoName` | johnny_worker.c:105-142 | nor without any blank line |
| `Scanner.UnpairedReturnHidesBlankLine` | johnny_worker.c:135-138 | one CR more directly before a blank line, and it is missed |
| `Hypergraph.Graph3.Init` | cmph/src/bdz.c:72-76 | the graph has no edges, whatever was in its arrays before |
| `Hypergraph.Graph3.AddEdge` | cmph/src/bdz.c:93-106 | the edge is prepended to the lists of its three vertices, and their degrees count it |
| `Hypergraph.UnlinkedGraph` | cmph/src/bdz.c:126-158 | taking an edge out of one list leaves the other lists as they are |
| `Hypergraph.Graph3.RemoveEdge` | cmph/src/bdz.c:126-158 | the edge leaves the lists of its vertices, whose lengths and degrees drop by one, and no other |
| `BdzPeeling.GenerateQueue` | cmph/src/bdz.c:160-219 | succeeds if and only if the queue of the bytes takes all edges, and leaves that queue; if no degree is above 256, in a peeling order. Failure: a nonempty set of edges whose vertices all have degree two or more, so that no peeling order exists |
| `BdzPeeling.ByteQueueMeans` | cmph/src/bdz.c:160-219 | the same of the queue as a function of the hypergraph; with larger degrees it takes all edges whenever each has a vertex whose byte counter reads 1 |
| `BdzQueue.FirstQueueMeans` | cmph/src/bdz.c:169-181 | at first the queue has exactly the edges with a vertex whose byte counter reads 1, in increasing order |
| `BdzPeeling.PeelAll` | cmph/src/bdz.c:186-216 | the loop leaves the queue that the peeling as a function ends with |
| `BdzPeeling.PeelOne` | cmph/src/bdz.c:186-216 | one round takes one edge out of the lists and queues what it frees, as the function does |
| `BdzPeeling.PeelingStep` | cmph/src/bdz.c:186-216 | one round keeps all of: every vertex of degree one has its edge in the queue, no edge is queued twice and, if the degrees fit the counters, queued edges have a free vertex and those that are gone went in a peeling order |
| `BdzPeeling.CoreCannotBePeeled` | cmph/src/bdz.c:160-219 | no order peels all edges if some set of edges has degrees two or more |
| `BdzAssigning.SomeUnmarked` | cmph/src/bdz.c:433-465 | each edge in reverse order has a vertex that is not marked yet |
| `BdzAssigning.AssignStep` | cmph/src/bdz.c:433-465 | one assignment points the edge at its free vertex and keeps all later edges' choices |
| `BdzAssigning.Assigning` | cmph/src/bdz.c:421-467 | for a peeling order, `(g0 + g1 + g2) % 3` afterwards picks a vertex no other edge picks, the first of the edge that is in no later one, and exactly the picked vertices have values other than 3 |
| `Bdz.EdgeOfMeans` | cmph/src/bdz.c:409-411 | the vertices of a key are `h0 % r`, `h1 % r + r` and `h2 % r + 2 * r`, one in each third |
| `Bdz.SharedVertices` | cmph/src/bdz.c:409-412 | two keys share their i-th vertex if and only if their i-th hash values are congruent modulo `r`, and no others |
| `Bdz.AddEdges` | cmph/src/bdz.c:401-416 | afterwards the graph has one edge for each key, in the lists of its three vertices, which are those of `Bdz.EdgeOfMeans` |
| `Bdz.AcceptedMeans` | cmph/src/bdz.c:160-219 | a hypergraph that can be peeled is accepted, and when no degree is above 256, no other is; with larger degrees it is also accepted when each edge has a vertex whose counter reads 1 |
| `Bdz.Mapping` | cmph/src/bdz.c:395-419 | succeeds if and only if the hypergraph of the keys, with the edges of `Bdz.EdgeOfMeans`, is accepted, and leaves the queue of the bytes |
| `Bdz.MappingStep` | cmph/src/bdz.c:306-333 | stops at the first seed whose hypergraph is accepted, passing over none that can be peeled; fails if and only if none of so many is accepted |
| `Bdz.EqualEdgesMislead` | cmph/src/bdz.c:160-219 | 257 keys with the same three vertices: accepted, though they cannot be peeled, and every assignment gives all of them the same vertex |
| `Bdz.BytesCountVertices` | cmph/src/bdz.c:470-491 | the byte table counts the assigned vertices, four at a time |
| `Bdz.Ranking` | cmph/src/bdz.c:470-491 | every entry is the number of assigned vertices before its block |
| `Bdz.RankEntryMeans` | cmph/src/bdz.c:470-491 | entry `i` is the number of assigned vertices below `i * 2^b` |
| `Bdz.RankTableSizeMeans` | cmph/src/bdz.c:297 | the number of entries is `n / 2^b`, rounded up |
| `Bdz.Rank` | cmph/src/bdz.c:571-593 | the number of assigned vertices below the vertex |
| `Bdz.Search` | cmph/src/bdz.c:595-607 | the rank of the vertex that the key picks |
| `Bdz.VertexMeans` | cmph/src/bdz.c:601-604 | the vertex that a key picks is the one at the remainder by 3 of the sum of its three values |
| `Bdz.AssigningIsPerfect` | cmph/src/bdz.c:421-467 | the keys are one-to-one with the assigned vertices |
| `Bdz.New` | cmph/src/bdz.c:271-392 | none if and only if no hypergraph of a thousand is accepted; else the first one is taken, and none that can be peeled is passed over. The function is built for the keys if the edges went in a peeling order, as they do if no degree is above 256 |
| `Bdz.EqualKeysTaken` | cmph/src/bdz.c:271-392 | if 257 keys have the same three vertices at first, this hypergraph is taken, and no function for it tells them apart |
| `Bdz.BuiltIsMinimalPerfect` | cmph/src/bdz.c:595-607 | the m keys get the values 0..m-1, each once |
| `BdzPh.AssigningFromZero` | cmph/src/bdz_ph.c:378-424 | for a peeling order, on a table of zeros, the picked vertices are different, and each is the first of its edge that is in no later one |
| `BdzPh.PackedDigits` | cmph/src/bdz_ph.c:426-444 | five base-3 digits fit a byte, and the lookup `(b / 3^i) % 3` gives them back |
| `BdzPh.Optimization` | cmph/src/bdz_ph.c:426-444 | every byte is its five values packed, if these are base-3 digits; it is a byte in any case |
| `BdzPh.Unpacked` | cmph/src/bdz_ph.c:19-27 | every value is recovered from the packed table |
| `BdzPh.Search` | cmph/src/bdz_ph.c:508-530 | the packed search picks the vertex that the unpacked values do |
| `BdzPh.DistinctVertices` | cmph/src/bdz_ph.c:508-530 | different keys get different vertices |
| `BdzPh.New` | cmph/src/bdz_ph.c:237-349 | as for `Bdz.New`, with a hundred seeds |
| `Graphs.AbsEdge` | cmph/src/graph.c:19 | a half-edge and its twin have the same edge number |
| `Graphs.LinkedGraph` | cmph/src/graph.c:85-103 | linking two half-edges keeps every vertex's list of half-edges exact |
| `Graphs.Graph.AddEdge` | cmph/src/graph.c:85-103 | the graph has the edge in addition |
| `Graphs.Graph.ClearEdges` | cmph/src/graph.c:162-173 | the graph has no edges |
| `Graphs.Graph.EdgeId` | cmph/src/graph.c:113-126 | the number of an edge between two joined vertices |
| `Graphs.Graph.ContainsEdge` | cmph/src/graph.c:296-309 | true if and only if some edge joins the vertices |
| `Graphs.Graph.NeighborsIt` | cmph/src/graph.c:321-327 | the iterator stands before the first neighbour |
| `Graphs.Graph.NextNeighbor` | cmph/src/graph.c:328-336 | the iterator returns the neighbours by all edges at the vertex, in the order of its list, and then the end mark |
| `Graphs.Graph.FindDegree1Edge` | cmph/src/graph.c:175-197 | found if and only if exactly one edge is left at the vertex, which it returns |
| `Graphs.DeleteLone` | cmph/src/graph.c:199-226 | deleting the last edge at a vertex deletes no edge of a cycle |
| `Graphs.Graph.CyclicDelEdge` | cmph/src/graph.c:199-226 | follows the chain until no vertex up to `v` has exactly one edge left |
| `Graphs.RestIsTwoCore` | cmph/src/graph.c:228-252 | if no vertex has exactly one edge left, the edges left are exactly those of the 2-core |
| `Graphs.Graph.IsCyclic` | cmph/src/graph.c:228-252 | false if and only if every nonempty set of edges has a vertex of degree one |
| `Graphs.Graph.DeleteForest` | cmph/src/graph.c:232-240 | one pass leaves exactly the edges of the 2-core |
| `Graphs.Graph.ObtainCriticalNodes` | cmph/src/graph.c:259-294 | critical vertices are exactly the ends of 2-core edges, and they are counted |
| `Forests.OutsideIsSmall` | cmph/src/chm.c:146-164 | a set of edges outside the 2-core has at most as many edges as vertices outside it, and fewer if it does not touch it |
| `Forests.OneEdgeToPart` | cmph/src/chm.c:146-164 | only one edge leads from a new vertex to the part already reached by tree edges |
| `Forests.ChordInCore` | cmph/src/bmz.c:198-263 | an edge between critical vertices is an edge of the 2-core |
| `Visits.LabelFor` | cmph/src/chm.c:160 | the label that makes the sum equal the edge number modulo 2^32 |
| `KeyEdges.EdgeOfMeans` | cmph/src/chm.c:181-183 | the ends of an edge are the remainders of its hash values: `a == h1 % n`, and `b == h2 % n` if that differs, else `(h1 + 1) % n` |
| `KeyEdges.EndsMean` | cmph/src/bmz.c:428-432 | the same of the edge of every key, with its own hash values |
| `Chm.Traverse` | cmph/src/chm.c:146-164 | the depth-first search labels its component: each finished edge has the sum of its labels equal to its number |
| `Chm.AssignLabels` | cmph/src/chm.c:110-122 | afterwards this holds of every edge |
| `Chm.GenEdges` | cmph/src/chm.c:166-199 | accepts if and only if there are two vertices or more and the graph of the keys, with the edges of `KeyEdges.EndsMean`, is a forest |
| `Chm.LabelsFindKeys` | cmph/src/chm.c:277-286 | order preserving: the search for the e-th key returns e |
| `Chm.SearchMeans` | cmph/src/chm.c:277-286 | for any key: the labels at the two remainders, the second moved on if they are equal, are added modulo 2^32 and reduced modulo `m` |
| `Chm.New` | cmph/src/chm.c:53-144 | a function that finds every key at its place; none if and only if no graph of 20 seeds is a forest (or there is one vertex) |
| `VQueue.NextIsModulo` | cmph/src/vqueue.c:27-39 | the step around the buffer is the step modulo its capacity |
| `VQueue.Queue.constructor` | cmph/src/vqueue.c:11-20 | a new queue is empty, and has room for as many values as asked for |
| `VQueue.Queue.IsEmpty` | cmph/src/vqueue.c:22-25 | true if and only if nothing is queued |
| `VQueue.Queue.IsFull` | cmph/src/vqueue.c:29 | what the assertion tests: true if and only if there is no room for another value |
| `VQueue.Queue.Insert` | cmph/src/vqueue.c:27-32 | the value joins at the end, if the queue is not full |
| `VQueue.Queue.Remove` | cmph/src/vqueue.c:34-39 | the oldest value leaves |
| `BmzSearch.InOrderMore` | cmph/src/graph.c:85-103 | a new edge comes first in the lists of its vertices, and the others keep their order |
| `BmzSearch.JudgedByFirst` | cmph/src/bmz.c:224-241 | the first neighbour in list order that a label does not suit decides: out of range, or in use |
| `BmzSearch.PassedAreSkipped` | cmph/src/bmz.c:318-325 | the labels passed over on the way to the one taken join the skipped ones in order |
| `BmzSearch.TakenOutMeans` | cmph/src/bmz.c:329-330 | a skipped label that is taken leaves the list; the last one comes to its place, and the others stay |
| `BmzSearch.SkippedInOrder` | cmph/src/bmz.c:290-330 | skipped labels are tried in the order of their list, and the first that suits is taken; only if none does, the least suitable one above the largest is |
| `BmzSearch.ChooseMeans` | cmph/src/bmz.c:216-243 | the label chosen suits all labelled neighbours; it is the least above the largest so far that does, and there is none if and only if none does. In the heuristic variant it may be a skipped one; there is none only if no larger one suits |
| `BmzSearch.WithLabelMeans` | cmph/src/bmz.c:244-257 | a vertex that gets a label is queued; exactly the numbers of its edges to labelled neighbours are marked in addition; the largest label and the largest number are kept |
| `BmzSearch.RootMeans` | cmph/src/bmz.c:211-215 | the label of a root is half of the largest number, rounded up, less one; it starts with no skipped labels, alone in the queue |
| `BmzSearch.FirstRoot` | cmph/src/bmz.c:125-150 | the first root gets label 0, and no label or number is in use then |
| `BmzSearch.RoomMeans` | cmph/src/bmz.c:276 | the queue has room for all critical vertices and one more, in the heuristic variant for half of them, rounded down, and one more |
| `BmzSearch.RestartMeans` | cmph/src/bmz.c:125-162 | the searching step asks for a restart if and only if its search comes to a vertex that gets no label, and none above the largest suits it then, or if an earlier round has asked for one and the graph is a forest |
| `BmzSearch.NoneCritical` | cmph/src/bmz.c:141-148 | there is no critical vertex if and only if the graph is a forest |
| `BmzQueues.AbortedIfFull` | cmph/src/bmz.c:265-357 | the program is aborted if and only if breadth-first search over the critical vertices, without any labels, fills the queue, and no vertex gets no label before |
| `BmzQueues.SmallPartsFit` | cmph/src/bmz.c:265-357 | it does not fill the queue if every component of the 2-core has at most one vertex more than the queue has room for |
| `BmzQueues.AllFitOtherwise` | cmph/src/bmz.c:198-263 | and never in the other variant |
| `BmzQueues.HubFillsQueue` | cmph/src/bmz.c:265-357 | the program is aborted if the first critical vertex has more critical neighbours than the queue has room for, no two of them joined |
| `BmzQueues.TwoHubsFillQueue` | cmph/src/bmz.c:265-357 | such a graph: two vertices, each joined to the same five others; the queue has room for four |
| `BmzCritical.CheckLabel` | cmph/src/bmz.c:224-241 | whether the label fits, collides or is too large, exactly; a sum out of range means that no larger label fits either |
| `BmzCritical.FindLabel` | cmph/src/bmz.c:220-243 | the label of the search as a function: the least one above the largest so far that fits; a restart if and only if there is none |
| `BmzCritical.FindSkippedLabel` | cmph/src/bmz.c:290-335 | the variant that comes back to skipped labels: the label and the list of the search as a function; the label fits and no vertex has it, and the labels still skipped are different and not in use; a restart only if no larger label fits |
| `BmzCritical.MarkSums` | cmph/src/bmz.c:244-253 | exactly the sums with labelled neighbours are marked in addition, and the largest number is kept |
| `BmzCritical.LabelStep` | cmph/src/bmz.c:218-257 | one more label keeps all sums different, in range, and marked exactly if used |
| `BmzCritical.QueueHasRoom` | cmph/src/bmz.c:204 | what waits in the queue are different critical vertices, so that a queue with room for all never overflows |
| `BmzCritical.TraverseCritical` | cmph/src/bmz.c:198-357 | both variants: one component of the 2-core; how the search of it ends, and its labels, are those of the search as a function; the sums stay different and in range |
| `BmzTrees.NextUnusedEdge` | cmph/src/bmz.c:359-368 | the first unused number from the index on |
| `BmzTrees.NumberLeft` | cmph/src/bmz.c:359-368 | there is one, whenever a tree edge still needs a number |
| `BmzTrees.Traverse` | cmph/src/bmz.c:370-386 | tree edges get the unused numbers in order, each once |
| `BmzTrees.TraverseNonCritical` | cmph/src/bmz.c:388-413 | afterwards the sums of all edges are different and in range |
| `Bmz.GenEdges` | cmph/src/bmz.c:415-448 | accepts if and only if there are two vertices or more and no two keys have the same pair of vertices, those of `KeyEdges.EndsMean` |
| `Bmz.MapKeys` | cmph/src/bmz.c:85-114 | stops at the first simple graph; fails if and only if a hundred seeds give none |
| `Bmz.RoundOn` | cmph/src/bmz.c:125-176 | one of twenty rounds: it searches the first simple graph, and a restart leads to the next round with the next seed |
| `Bmz.NoRoundLeft` | cmph/src/bmz.c:163-180 | after twenty rounds, or without a simple graph, there is no function |
| `Bmz.FinishedIsCore` | cmph/src/bmz.c:141-156 | after the critical vertices the numbered edges are exactly those of the 2-core |
| `Bmz.SearchingStep` | cmph/src/bmz.c:125-162 | labels, restart or full queue exactly as the search of the graph, as a function, ends; with labels, all sums are different and in range |
| `Bmz.SumsArePermutation` | cmph/src/bmz.c:198-413 | then the sums modulo 2^32 are the numbers 0..m-1, each once |
| `Bmz.New` | cmph/src/bmz.c:57-196 | ends as the rounds, as a function of the keys, do: with a function for the seed of the first simple graph whose search finds labels, aborted at the first whose queue is full, or with none after twenty restarts or a hundred graphs in a row that are not simple (or one vertex). The sums of the function over the edges of its keys are 0..m-1, each once |
| `Bmz.ForestRound` | cmph/src/bmz.c:57-196 | the first round takes any forest, and no later round takes one |
| `Bmz.AbortsOnFullQueue` | cmph/src/bmz.c:57-196 | aborted only in the heuristic variant, at a simple graph whose queue runs full, one component of whose 2-core has more than half of the critical vertices and two more |
| `Bmz.HubAborts` | cmph/src/bmz.c:57-196 | aborted if the first simple graph begins with a vertex that fills the queue |
| `Bmz.TwoHubsAtFirst` | cmph/src/bmz.c:57-196 | ten keys whose hash values give this graph bring the heuristic variant to a stop |
| `Bmz.SearchEdgeAgrees` | cmph/src/bmz.c:527-536 | search and construction see the same edge if and only if the hash values do not both fall on the last vertex |
| `Bmz.SearchEdgeMeans` | cmph/src/bmz.c:527-536 | the ends searched for are `h1 % n`, and `h2 % n` if that differs, else `h1 % n + 1`, which may be `n` |
| `Bmz.SearchMeans` | cmph/src/bmz.c:527-536 | for any key: the labels at these ends are added modulo 2^32 |
| `Bmz.LastVertexTwice` | cmph/src/bmz.c:527-536 | one key with both hash values on the last of two vertices: `Bmz.New` ends with a function in its first round, and the search for the key reads past its labels |
| `Bmz.SearchFindsSum` | cmph/src/bmz.c:527-536 | such a key is found at the number of its edge |
| `FchBuckets.Buckets.Insert` | cmph/src/fch_buckets.c:134-142 | the key joins its bucket, and no other changes |
| `FchBuckets.Buckets.GetIndexesSortedBySize` | cmph/src/fch_buckets.c:173-200 | the counting sort gives all buckets once, larger ones first, those of one size in the order of their numbers |
| `FchBuckets.FilledIsSorted` | cmph/src/fch_buckets.c:173-200 | a filled counting sort is sorted, keeps the order of equal sizes, and has every bucket in it |
| `Fch.MixInRange` | cmph/src/fch.c:58-68 | the bucket number is in range, if there are two buckets or more, and indexes from `p1` on do not get the first `p2` buckets |
| `Fch.MixMeans` | cmph/src/fch.c:58-68 | an index `x` below `p1` gets bucket `x % p2`; any other `x % b`, or `x % b + p2` if that is below `p2` |
| `Fch.MixShared` | cmph/src/fch.c:58-68 | two indexes below `p1` share their bucket if and only if they are congruent modulo `p2`; one below and one from `p1` on never do; two from `p1` on do if and only if their remainders by `b` are equal, or differ by `p2` with one of them below `p2` |
| `Fch.BucketNumberMeans` | cmph/src/fch.c:104-105 | the index of a key is the remainder of its first hash value by the number of keys |
| `Fch.SlotOfMeans` | cmph/src/fch.c:216-218 | the slot of a key is the remainder of its second hash value and the displacement of its bucket, added |
| `Fch.OneBucketIsTooFew` | cmph/src/fch.c:58-68 | with one bucket it is not; `fch_new` always asks for three or more |
| `Fch.MapKeys` | cmph/src/fch.c:85-111 | every key is in the bucket of its number, that of `Fch.BucketNumberMeans`, in input order |
| `Fch.CheckForCollisions` | cmph/src/fch.c:121-146 | true if and only if two keys of one bucket have the same second hash value |
| `Fch.CollidingNeverPart` | cmph/src/fch.c:121-146 | such keys get the same slot under every displacement |
| `Fch.Permut` | cmph/src/fch.c:148-157 | any random choices leave a permutation |
| `Fch.NewTables` | cmph/src/fch.c:173-181 | the two tables start as inverse permutations of each other |
| `Fch.SwapKeepsInverse` | cmph/src/fch.c:221-226 | the swap keeps the two tables inverse permutations of each other |
| `Fch.PlaceNext` | cmph/src/fch.c:218-228 | a key whose slot is free takes it, and the taken slots are the first entries of the table |
| `Fch.FirstKeyLands` | cmph/src/fch.c:210 | the displacement tried sends the first key of the bucket to the chosen free slot |
| `Fch.DisplacementMeans` | cmph/src/fch.c:210 | which is the one at the place tried of the table |
| `Fch.TryBucket` | cmph/src/fch.c:212-237 | places all keys of the bucket or, at a conflict, takes all of them back, with the tables that the search as a function leaves; a restart only if two keys conflict |
| `Fch.TryKeysMeans` | cmph/src/fch.c:212-237 | a displacement fits if and only if it sends the keys of the bucket to different free slots |
| `Fch.PlaceBucket` | cmph/src/fch.c:204-238 | the places of the table are tried in order for the first key, each with the tables that the tries before have left; the first displacement that fits is taken; it fails only after as many as there are free slots, each with a conflict |
| `Fch.SearchBuckets` | cmph/src/fch.c:196-240 | without a restart all keys have different slots; a restart by an earlier collision, or if and only if the search of these tables comes to a bucket with keys that none of its tries places; the tables left are those of the search |
| `Fch.FirstBucketFits` | cmph/src/fch.c:196-240 | which is never the first bucket, if its keys do not collide: its first key gets the slot at the front of the table |
| `Fch.SearchingStep` | cmph/src/fch.c:159-245 | ends, and at which seed, as a function of the tables left by the random choices; without a restart all keys have different slots under the last hash function, and all hash functions before it failed; a restart only, and at once, when ten searches got stuck or a thousand hash functions in a row collide |
| `Fch.SlotsAreMinimalPerfect` | cmph/src/fch.c:399-407 | different slots are 0..m-1, each once, and the search returns them |
| `Fch.SearchMeans` | cmph/src/fch.c:399-407 | for any key: the second hash value and the displacement of the bucket of the first, added, in remainders |
| `Fch.New` | cmph/src/fch.c:249-313 | a function that gives the keys the values 0..m-1, each once, from one of the first 99 rounds, where for some random choices the searching step ends at its seed; none only if for some random choices it gives up in 99 rounds |
| `NumberTheory.Euclid` | cmph/src/miller_rabin.c:17-30 | a prime that divides a product divides a factor |
| `NumberTheory.RootsOfOne` | cmph/src/miller_rabin.c:17-30 | modulo a prime, one has no square roots but one and minus one |
| `NumberTheory.Fermat` | cmph/src/miller_rabin.c:32-65 | Fermat's little theorem |
| `NumberTheory.PrimeAbove` | cmph/src/chd_ph.c:664-674 | there is a prime above any number |
| `MillerRabin.IntPow` | cmph/src/miller_rabin.c:3-15 | `a^d mod n` |
| `MillerRabin.ProductFits` | cmph/src/miller_rabin.c:3-15 | for 32-bit moduli its products fit 64 bits |
| `MillerRabin.CheckWitness` | cmph/src/miller_rabin.c:17-30 | true if and only if the power is one, or its power to some `2^i` with `i < s` leaves `n - 1` |
| `MillerRabin.CheckPrimality` | cmph/src/miller_rabin.c:32-65 | true if and only if none of 2, 3, 5 and 7 divides the number and it passes the bases 2, 7 and 61; then `a^(n-1)` leaves 1 for each of these bases |
| `MillerRabin.Decomposed` | cmph/src/miller_rabin.c:43-50 | the decomposition into a power of two and an odd part |
| `MillerRabin.DecomposedOnce` | cmph/src/miller_rabin.c:43-50 | and it is the only one |
| `MillerRabin.PassesBaseMeans` | cmph/src/miller_rabin.c:17-65 | in powers alone: with `n - 1 == 2^s * d` and `d` odd, `n` passes the base `a` if and only if `a^d` leaves 1, or some `a^(2^i * d)` with `i < s` leaves `n - 1` |
| `MillerRabin.AcceptedIsFermat` | cmph/src/miller_rabin.c:32-65 | what is accepted satisfies Fermat's theorem for the bases 2, 7 and 61 |
| `MillerRabin.SquareOfElevenRefused` | cmph/src/miller_rabin.c:32-65 | 121 is refused |
| `MillerRabin.PrimePassesBase` | cmph/src/miller_rabin.c:17-65 | a prime passes every base that it does not divide |
| `MillerRabin.OwnBaseStops` | cmph/src/miller_rabin.c:52-63 | no number passes itself as a base |
| `MillerRabin.PrimesAccepted` | cmph/src/miller_rabin.c:32-65 | a prime is accepted if and only if it is none of 2, 3, 5, 7 and 61; so every prime above 61 is |

## Left out

- Sockets, epoll, threads, directory walking, reading files, MIME types, printing and the connection allocator: input,
  output and plumbing. A response is what would be sent.
- The hash functions themselves, random seeds, and how probable success is: hash functions are parameters.
- Floating point: the number of vertices, bins and buckets and the probe limit are given as naturals with the bounds
  that the code relies on. Only the default load factor is followed, in `Chd.NewWithDefaultLoad`.
- Memory management, and loading from and writing to files.
- Bytes and words in memory: a table of words is a sequence of bits, the lowest first, and a byte of it is eight bits;
  on a little-endian machine this is what the casts in select.c do.
- The hash state in the packed forms of CHD_PH: its words are skipped by both writer and reader, and the seed stands
  for them. The packed forms of BDZ, BDZ_PH, CHM, BMZ and FCH copy the unpacked fields, and are left out.
- cmph/src/brz.c, bmz8.c, buffer_manager.c and cmph/cxxmph: external memory, an 8-bit variant, and a second version of
  BDZ in classes.
- `place_buckets1` in chd_ph.c is never reached, since the heuristic is always on; more than one key per bin is not
  modelled.
- Doubling the capacity of a bucket in fch_buckets.c: a bucket is a sequence. Keys are their numbers in the input.
- The fields of the graph that hold critical vertices are results of `Graphs.Graph.ObtainCriticalNodes`; marks are
  arrays of booleans where the source packs bits.
- `graph_del_edge`, which none of the algorithms calls.
- Whether a number that the primality check accepts is prime: nothing here needs it, and it rests on a numeric search.
- CompressedRank.CompressedRankStructure.Generate: needs a last value of at least 2, since otherwise the select
  structure gets no keys; the default load factor guarantees it (`MillerRabin.DefaultLeavesBinsFree`).
- CompressedSeq.CompressedSeqStructure.Generate: needs values below 2^32-1 and sizes that fit 32 bits, since the code
  adds one to a value and sums lengths without a check.
- Bdz.New: promises nothing of a function whose edges did not go in a peeling order, which can only be if a degree is
  above 256, since the code counts degrees in bytes; of the keys of `Bdz.EqualKeysTaken` nothing could be promised.
- BdzPh.New: the same.
- Johnny.Server.Respond: has no answer where the code reads past the table; `Johnny.SlotInTable` says when. That
  construction may have failed, which the code does not check, is not modelled.
- Scanner.Connection.FindFilename: the bytes of a name at the end of a buffer are lost, as in the code; what that
  means for names is in `Scanner.ChunkingIndependent`.
- Chd.New: calls the result undefined when the last free bin is 0 or 1, since the code then reads past an empty table;
  what it reads is not modelled.
- Bmz.New: without assertions a full queue would be overwritten, which is not modelled.
- Fch.New: like the code, it refuses a function that the hundredth round finds. The random choices are those of the
  run, so that the end of a round is stated for some choices.
- MillerRabin.IntPow: works on unbounded integers; `MillerRabin.ProductFits` covers 32-bit moduli.
- MillerRabin.BinCount: works on unbounded integers, given a prime; that a 32-bit number of bins suffices is a
  precondition of `Chd.NewWithDefaultLoad`.
