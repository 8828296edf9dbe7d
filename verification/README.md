# Verification model of stPatternSearch

This project models the three programs of stPatternSearch in Dafny and proves what they promise.

* **Patch selection.** A distributed greedy minimum set cover. `GreedyCover` says what a greedy
  selection is without saying how it is computed, and proves that there is only one.
  `BruteForce` is the reference loop over two flag arrays; `ByPatch` keeps scores on the rank that
  owns each patch; `ByElement` keeps partial scores on element shards and runs blind batches of
  rounds. The ranks of the last two are objects whose fields change in place. All three are proved
  to report the one greedy selection, for any number of ranks. `Solver` joins them with the hash
  mapping, `GreedyGuarantee` proves the H(d) approximation factor, and `AmortisedWork` that a whole
  solve of either mode decrements each incidence exactly once.
* **Hash to ID mapping.** `PatchSet` and `SampleSort`: splitters, routing, all-to-all and its
  reverse, exclusive scan; the numbering equals that of one process, and the number of hashes
  any rank receives is bounded, however few hashes any rank brings.
* **Pattern statistics.** `Reduce`, `LocalEntries`, `OwnerRouting`, `OwnerReduce`, `TopK` and
  `PatternStats`: the pipeline equals the definition in `PatternReference`.
* **Files.** `Bytes`, `Stps` and `StpsReader` for the patch file; `ParallelFile`, `StatsFile` and
  `UniqueHashes` for the files all ranks write together.

## How the ranks are modelled

Ranks are a sequence of per-rank states (objects in the two solvers). A collective is a function
or method over one value per rank: the counts of an all-to-all cut the buffers at prefix sums, the
exclusive scan leaves 0 on rank 0, the maximum with location prefers the smallest rank and the
device maximum the smallest index, and a reduction may combine the ranks along any tree. A kernel
is a loop that visits its threads in an arbitrary order, one atomic operation at a time. A shared
file keeps a record of every open, write, cut and close with the rank that made it and whether it
succeeded, and the contracts of the writers are stated over that record.

The numbers are unbounded except where a width matters: the int32 scores of the element mode, the
wrap-around of the 64-bit degree sums, the modulo 2^64 size sum and the signed file offsets of the
patch file, and the narrowing cast of the row lengths.

## Where the code and its comments differ

* `src/io/stps_binary.cpp:91-93` says that bounding M and total_K keeps the size sum from wrapping.
  It does so exactly for files below 4611686018427387896 = 2^62 - 8 bytes with coordinates and
  below 2^63 - 16 bytes without (`Stps.SumWrapsExactly`). Since the last offset must lie inside the
  file too, a file whose sections do not fill it opens only if it has coordinates, its size is a
  multiple of 8, and it has 6148914691236517208 bytes or more; from there on such files exist for
  every size (`Stps.OpensHonestlyExactly`, in numbers `Stps.WrappedExample`). Such a file opens but
  never reads back whole (`Stps.WrappedUnreadable`).
* `src/usc/usc_patch_selector_impl.cu:734-735` calls the setup check exact. The values it sums were
  already narrowed to int32 at line 722; `ByElement.NarrowedSumExact` shows that the sum is exact if
  and only if every shard row fits int32.
* `src/usc/usc_patch_selector_impl.hpp:24` gives the limit as INT32_MAX - P; the code at line 741 of
  the implementation uses INT32_MAX - P - 1, and so does the model.
* `src/usc/usc_patch_selector_impl.cu:514` speaks of an early-out of the kernel on scores at or
  below 0. The score update kernel has none; the model follows the kernel, and a switched-off
  score stays -1 because its patch shares nothing with later winners (`ByPatch.SlotUpdate`).

## Model

| member | source | states |
|---|---|---|
| BruteForce.CountUncovered | src/usc/brute_force.cpp:23-26 | the recomputed score of a patch is the number of its elements not yet covered |
| BruteForce.FindBest | src/usc/brute_force.cpp:18-34 | the scan returns the smallest index among the patches with the largest positive gain, or reports that every gain is 0 |
| BruteForce.CoverAll | src/usc/brute_force.cpp:37-43 | the covered set becomes the old set plus the patch, and the count grows by exactly the new elements |
| BruteForce.Commit | src/usc/brute_force.cpp:37-46 | taking a patch covers it, flags it and no other, and counts its gain |
| BruteForce.BruteForceSelect | src/usc/brute_force.cpp:7-50 | the reference loop terminates and reports a greedy selection: every round takes the first largest gain, and it stops exactly when N is covered or nothing gains |
| GreedyCover.GreedyResultUnique | src/usc/brute_force.cpp:16-47 | there is only one greedy selection sequence for a list of patches and a universe size |
| GreedyCover.SelectionUnique | tests/test_solver_equivalence.cpp:17-28 | two reports that both meet the greedy specification are equal: sequence, covered count, iterations |
| GreedyCover.RunPrefix | src/usc/brute_force.cpp:16-47 | every prefix of a run is a run, and its next entry was the pick of that round |
| GreedyCover.RunDistinct | tests/test_solver_equivalence.cpp:60-63 | no patch is selected twice, so a selection never has more entries than there are patches |
| GreedyCover.GreedyCovers | tests/test_solver_equivalence.cpp:59 | if the patches cover the universe, the greedy result covers all of it |
| GreedyCover.CoveredExactly | src/usc/brute_force.cpp:37-43 | an element is covered exactly when some selected patch holds it |
| GreedyCover.GreedyInWords | src/usc/brute_force.cpp:16-47 | on the sets alone: every entry covers something new while elements are missing, no patch would have covered more, none with a smaller index as much; the end is full coverage or no patch with a missing element |
| GreedyCover.SelectionInWords | include/stPS/usc_patch_selector.hpp:46-49 | a report names the run's patches in order by the callers' IDs, with the number covered and the number of rounds |
| GreedyGuarantee.RoundDrop | src/usc/brute_force.cpp:16-47 | one greedy round lowers the harmonic potential of any competing cover by at least 1 |
| GreedyGuarantee.RunSpendsPotential | src/usc/brute_force.cpp:16-47 | after k rounds at least k of the potential of any cover is spent |
| GreedyGuarantee.GreedyWithinHarmonicFactor | README.md:5-7 | for every cover C of the universe by the same patches, greedy selects at most H(d)*|C| patches, d the largest patch size |
| GreedyGuarantee.ReportWithinHarmonicFactor | README.md:5-7 | every reported greedy selection over a coverable universe has at most H(d)*|C| iterations |
| GreedyGuarantee.HarmonicLog | README.md:5-7 | H(d) is at most the number of binary digits of d |
| GreedyGuarantee.ReportWithinLogFactor | README.md:5-7 | with patches below 2^k elements, a report has at most k iterations per patch of any cover |
| Csr.BuildPatchCsr | src/core/csr.cpp:5-26 | the store holds the lists end to end with prefix-sum offsets: patch p reads back as list p |
| Csr.CsrOfHolds | src/core/csr.cpp:8-25 | the offsets ascend from 0 to the data size and cut the data back into the lists |
| InvertedIndexes.BuildInvertedIndex | src/core/inverted_index.cpp:19-96 | sort, count and fill produce exactly the transpose: keys ascending and exactly the occurring elements, rows ascending, nonempty and exact, as many entries as the store |
| InvertedIndexes.TransposeExact | src/core/inverted_index.cpp:8-17 | patches_of(e) lists p exactly when e is in patch p, each once, and is empty for an element that does not occur |
| InvertedIndexes.TransposeTwice | src/core/inverted_index.cpp:19-96 | reading the index back patch by patch gives back every patch of the store |
| InvertedIndexes.CountRuns | src/core/inverted_index.cpp:57-65 | the number of keys is the number of runs of equal elements in sorted order |
| InvertedIndexes.FillGroups | src/core/inverted_index.cpp:71-88 | keys, offsets and data are the runs of the sorted pairs, one group per key |
| Sorting.StableOrder | src/core/inverted_index.cpp:48-55 | the order lists every position once, ascending by the two keys, ties in input order |
| Bitset.RaiseBit | src/core/bitset.hpp:23-28 | raising a bit adds that ID to the set and grows it by one unless it was there |
| Kernels.BuildNewlyCovered | src/usc/usc_patch_selector_impl.cu:51-66 | in whatever order threads claim slots, the list is the uncovered elements of the range, each once, and the count is their number; the rest of the buffer is untouched |
| Kernels.SetBits | src/usc/usc_patch_selector_impl.cu:33-43 | in any thread order the bits raised are the old ones plus the listed IDs |
| Kernels.SearchKeys | src/usc/usc_patch_selector_impl.cu:99-105 | the in-kernel binary search finds the first key not below the ID, without reading outside the keys |
| Kernels.ResolveRanges | src/usc/usc_patch_selector_impl.cu:95-113 | each listed element contributes one thread per index entry of its row, none if it is absent |
| Kernels.ScoreUpdate | src/usc/usc_patch_selector_impl.cu:85-124 | in any order of the atomic decrements every score drops by the number of listed elements its patch contains |
| Kernels.WireScoreUpdate | src/usc/usc_patch_selector_impl.cu:232-266 | the int32 variant reaches the same scores and no intermediate value leaves int32 |
| Kernels.ThreadsCount | src/usc/usc_patch_selector_impl.cu:74-79 | a launch decrements exactly the index entries of the listed elements, each once |
| Kernels.TouchedAdds | src/usc/usc_patch_selector_impl.cu:76-79 | disjoint sets of elements decrement disjoint index entries, so no incidence is decremented twice over the rounds |
| Kernels.TouchedAll | src/usc/usc_patch_selector_impl.cu:76-79 | when every element has been served, the decrements are all index entries |
| Collectives.LeftmostMax | src/usc/usc_patch_selector_impl.cu:396-421 | the maximum and, among equals, the smallest position |
| Collectives.Exscan | src/core/patch_set.cpp:154-158 | each rank receives the sum over the ranks below it |
| Collectives.RecvCounts | src/core/patch_set.cpp:130-140 | reading one column of the gathered P*P table gives a rank's receive counts |
| Collectives.CutUnique | src/core/patch_set.cpp:118-146 | a buffer and its counts determine its segments |
| Collectives.AlltoallvRoundTrip | src/core/patch_set.cpp:164-177 | sending everything back with the two count arrays swapped restores every buffer |
| Collectives.AnswersPairUp | src/core/patch_set.cpp:164-185 | each rank gets back the answer to exactly the entry it sent, at the same position |
| Collectives.AlltoallvEach | src/usc/usc_patch_selector_impl.cu:646-664 | arrays exchanged with one count layout arrive aligned: mapping entries before or after the exchange is the same |
| Collectives.AlltoallvExpand | src/ups/ups_pattern_stats.cu:281-295 | items of w words exchanged as words with w times the counts arrive whole and in order |
| Routing.RouteByTarget | src/core/patch_set.cpp:115-128 | count, prefix sum and write heads produce the send buffer with one segment per target, items in input order |
| Routing.RoutedExchange | src/core/patch_set.cpp:142-146 | after routing and exchange rank t holds the items bound for t, sender by sender |
| ByPatch.PatchRank.constructor | src/usc/usc_patch_selector_impl.cu:298-324 | scores start at the patch sizes, nothing is covered, and the inverted index is the transpose |
| ByPatch.PatchRank.LocalBest | src/usc/usc_patch_selector_impl.cu:398-413 | a rank offers its first best score, and -1 if it has no patch |
| ByPatch.PatchRank.BuildNewly | src/usc/usc_patch_selector_impl.cu:443-458 | the winner lists exactly its uncovered elements, and the count is their number |
| ByPatch.PatchRank.Absorb | src/usc/usc_patch_selector_impl.cu:480-510 | raising the listed bits and updating scores keeps every score equal to the number of missing elements, or -1 once switched off |
| ByPatch.PatchRank.Disable | src/usc/usc_patch_selector_impl.cu:512-521 | the winner of the round ends at exactly -1 and no other score changes |
| ByPatch.GainDrops | src/usc/usc_patch_selector_impl.cu:74-76 | a patch loses exactly what it shares with the newly covered elements |
| ByPatch.SlotUpdate | src/usc/usc_patch_selector_impl.cu:74-84 | one decrement per shared element is the exact change of a score, and a switched-off score stays -1 |
| ByPatch.OfferIsPick | src/usc/usc_patch_selector_impl.cu:416-421 | the best local offer at the smallest rank is the greedy pick over all slots, and its score is its gain |
| ByPatch.NoOffer | src/usc/usc_patch_selector_impl.cu:423 | if no offer is positive, no patch of any rank gains anything |
| ByPatch.WinnerGain | src/usc/usc_patch_selector_impl.cu:443-457 | on the winner's rank the patch minus the bits that are up is exactly what the patch would newly cover |
| ByPatch.HitsAreShared | src/usc/usc_patch_selector_impl.cu:74-76 | the index entries that reach a patch from a set of elements are as many as the elements they share |
| ByPatch.ShareWinner | src/usc/usc_patch_selector_impl.cu:425-471 | the broadcast of winner_score entries ships all and only the newly covered elements, and every rank logs the same ID and count |
| ByPatch.Round | src/usc/usc_patch_selector_impl.cu:396-524 | one round either stops with nothing left to gain and no state changed, or extends the same greedy run by its pick on every rank |
| ByPatch.Solve | src/usc/usc_patch_selector_impl.cu:339-532 | for any number of ranks the loop terminates with the greedy selection on every rank; covered_count is the number of bits up on every rank |
| ElementShards.ShardsTile | src/usc/usc_patch_selector_impl.cu:607-612 | the static ranges start at 0 and end at N |
| ElementShards.EvenShards | src/usc/usc_patch_selector_impl.cu:603-612 | with z = ceil(N/P), stated as the smallest share that holds N on P ranks, rank r owns exactly the elements from r*z up to (r+1)*z that there are |
| ElementShards.OwnerHolds | src/usc/usc_patch_selector_impl.cu:608-612 | every element lies in the range of the rank it is sent to |
| ElementShards.OwnerUniqueRank | src/usc/usc_patch_selector_impl.cu:608-636 | and in no other range |
| ElementShards.LocalSizesSum | src/usc/usc_patch_selector_impl.cu:614-618 | the parts of a set inside the shards add up to the set |
| ElementShards.BuildSubStore | src/usc/usc_patch_selector_impl.cu:674-688 | sorting, histogram and prefix sums give a store whose row s holds exactly the received elements of slot s, ascending |
| ElementShards.ExchangeIncidences | src/usc/usc_patch_selector_impl.cu:658-664 | the two exchanges of slots and elements deliver the same pairs as one exchange of pairs |
| ElementShards.Arrivals | src/usc/usc_patch_selector_impl.cu:614-664 | each (slot, element) incidence arrives at exactly the rank that owns the element |
| ElementShards.Redistribute | src/usc/usc_patch_selector_impl.cu:573-692 | every rank ends with, for every slot, exactly the part of that patch in its shard, ascending, in shard-local IDs |
| ByElement.RowLengthsAddUp | src/usc/usc_patch_selector_impl.cu:614-618 | the rows of a slot add up over the ranks to the size of the whole patch |
| ByElement.PartialsSum | src/usc/usc_patch_selector_impl.cu:165-190 | partial scores sum to the gain of an unselected patch, and to -P minus its winning score for a selected one |
| ByElement.PartialMoves | src/usc/usc_patch_selector_impl.cu:165-266 | how one partial score moves in a round, the early disable of the winner included |
| ByElement.SumsDecide | src/usc/usc_patch_selector_impl.cu:832-840 | the first largest sum is the greedy pick; if it is not positive nothing is left to gain |
| ByElement.EverySumFits | src/usc/usc_patch_selector_impl.cu:731-749 | once a patch passes the setup check, every partial and the sum over every group of ranks lies in -2147483648..2147483647 in every state of every run |
| ByElement.ReduceGroup | src/usc/usc_patch_selector_impl.cu:828-830 | along any reduction tree every intermediate value is an int32 and the result is the sum |
| ByElement.AllReduceSum | src/usc/usc_patch_selector_impl.cu:823-831 | all ranks receive the same sums of the partial scores |
| ByElement.ElemRank.Commit | src/usc/usc_patch_selector_impl.cu:165-190 | the commit kernel: no effect but an empty range once done, done raised on no positive score, otherwise slot, count, range and disable |
| ByElement.ElemRank.Update | src/usc/usc_patch_selector_impl.cu:195-266 | the three update kernels raise exactly the bits of the committed range and lower each partial by its shared elements |
| ByElement.ElemRank.Step | src/usc/usc_patch_selector_impl.cu:837-850 | commit and update kernels together keep the rank in step with the extended selection |
| ByElement.Round | src/usc/usc_patch_selector_impl.cu:822-851 | one enqueued round extends the greedy run on every rank, raises done on all ranks in the same round, and past done changes no score, bit, slot or counter |
| ByElement.SelectSlots | src/usc/usc_patch_selector_impl.cu:819-863 | for any batch size the blind batches end with the greedy result, all ranks leaving after the same batch |
| ByElement.NarrowedSumExact | src/usc/usc_patch_selector_impl.cu:719-739 | the sum the check looks at is the patch size if and only if every row length fits int32, and never more |
| ByElement.NarrowExact | src/usc/usc_patch_selector_impl.cu:722 | the narrowed length is the length exactly up to 2147483647, and always congruent to it modulo 2^32 |
| ByElement.NarrowedExample | src/usc/usc_patch_selector_impl.cu:722 | a row of 2^32 elements is narrowed to 0 |
| ByElement.InitialSum | src/usc/usc_patch_selector_impl.cu:736-739 | the checked sum of a slot is the size of its patch |
| ByElement.WireCheck | src/usc/usc_patch_selector_impl.cu:740-749 | the check finds the first slot whose patch is too large, or none is |
| ByElement.OutcomeInNumbers | src/usc/usc_patch_selector_impl.cu:740-749 | solved exactly for at most 2147483647 slots whose patches have at most 2147483646 - P elements; a refused patch is the first larger one, under its caller's ID |
| ByElement.Solve | src/usc/usc_patch_selector_impl.cu:563-877 | solved exactly for at most 2147483647 slots whose patches have at most 2147483646 - P elements, and then every rank returns the greedy selection, for any P and batch size |
| AmortisedWork.NothingMissing | src/usc/usc_patch_selector_impl.cu:423 | when a greedy selection ends, no patch has an uncovered element, whether the universe is covered or not |
| AmortisedWork.PatchModeWork | src/usc/usc_patch_selector_impl.cu:68-84 | in every state a patch-partitioned solve can end in, the decrements of all ranks add up to the sizes of all patches |
| AmortisedWork.SolveByPatch | src/usc/usc_patch_selector_impl.cu:339-532 | the solve ends with the greedy selection on every rank, and its decrements over all rounds and ranks are exactly the sum of the patch sizes |
| AmortisedWork.ElementModeWork | src/usc/usc_patch_selector_impl.cu:229-266 | the same total in every state an element-partitioned solve can end in, although no rank holds a whole patch |
| AmortisedWork.SolveByElement | src/usc/usc_patch_selector_impl.cu:819-863 | the blind batches end with the greedy result on every rank after exactly that number of decrements |
| AmortisedWork.StoresTotal | src/usc/usc_patch_selector_impl.cu:76-79 | the stores of all ranks hold each incidence of each patch once |
| PatchSet.LocalUnique | src/core/patch_set.cpp:97-108 | the sorted distinct hashes of a rank |
| PatchSet.RouteHashes | src/core/patch_set.cpp:115-128 | one segment of hashes per target rank, counts and buffer |
| PatchSet.TargetMonotone | src/core/patch_set.cpp:76-79 | larger hashes never go to smaller ranks |
| PatchSet.ReceivedHashes | src/core/patch_set.cpp:142-146 | a rank receives exactly the hashes, of any rank, whose target it is |
| PatchSet.BucketsAreGlobal | src/core/patch_set.cpp:148-162 | the buckets in rank order concatenate to the globally sorted distinct hashes |
| PatchSet.AnswerIsGlobal | src/core/patch_set.cpp:164-171 | an owner's answer is the index of the hash in the global list |
| PatchSet.AnswerSlots | src/core/patch_set.cpp:164-171 | one answer per arrival slot, in arrival order |
| PatchSet.TranslateThrough | src/core/patch_set.cpp:179-205 | the lookup never misses, and every patch becomes its sorted duplicate-free ID list |
| PatchSet.GatherRecvCounts | src/core/patch_set.cpp:130-140 | after the gather of the count rows every rank holds its column: the count table transposed |
| PatchSet.MapWithSplitters | src/core/patch_set.cpp:110-206 | for any number of ranks and any sorted splitters the result is the one-process numbering: shards, starts, N and every translated patch; each shard holds exactly the hashes its splitters bind for it |
| PatchSet.IdIsIndex | tests/helpers/local_setup.cpp:18-31 | an ID is the index of its hash in the sorted list of distinct hashes |
| PatchSet.MappedIsLocal | tests/helpers/local_setup.cpp:8-38 | the ranks' translated patches in slot order are the one-process translation |
| PatchSet.ShardIsReverseMap | src/core/patch_set.cpp:187-194 | shard entry i of a rank is the hash with ID shard_start + i |
| SampleSort.LocalSample | src/core/patch_set.cpp:32-51 | 128 samples per rank, evenly spaced; too few hashes repeat the last one, none at all give zeros |
| SampleSort.SamplesInNumbers | src/core/patch_set.cpp:36-43 | sample i is hash i, or the last one past the end, for up to 128 hashes, and the hash at i(n-1)/127 rounded down for more |
| SampleSort.ComputeSplitters | src/core/patch_set.cpp:26-72 | splitter r is entry 128(r+1) of the sorted samples; sorted, one fewer than ranks |
| SampleSort.SamplesBound | src/core/patch_set.cpp:64-70 | whatever the samples repeat, at most 128 of all of them are bound for rank 0, and at most 127 for any other rank besides those equal to the splitter that opens it |
| SampleSort.LoadBound | src/core/patch_set.cpp:18-79 | for rank sizes of any kind, empty and short ones included, no rank receives more than gap*(127 + 2P) hashes, gap any positive bound on (n_q - 1)/127 over the distinct hashes n_q of the ranks |
| SampleSort.MapHashesToElementIds | src/core/patch_set.cpp:83-207 | the mapping as run, with its own splitters, is the one-process numbering, and every shard stays within the load bound |
| Partition.BehindCut | src/data/partition.cpp:14-15 | item p of m lies behind the cut before rank r exactly when m*r < (p+1)*P |
| Partition.EvenParts | src/data/partition.cpp:14-15 | every rank gets m / P items or one more |
| Partition.SlicePatchesByRank | src/data/partition.cpp:9-25 | rank r's slice holds patch p, under ID p, exactly when m*r < (p+1)*P <= m*(r+1); it has m / P patches or one more, in order |
| Partition.SliceWithCoords | src/data/partition.cpp:27-41 | the same slice, with the coordinates of exactly the same patches |
| Partition.PartsTile | src/data/partition.cpp:14-15 | the parts of all ranks concatenate to the list: nothing lost, nothing twice |
| Solver.ReferenceCovers | tests/helpers/local_setup.cpp:18-38 | numbering by hash yields patches that cover [0, N) |
| Solver.ReferenceSizes | tests/helpers/local_setup.cpp:18-38 | a numbered patch has as many elements as the patch has distinct hashes |
| Solver.SelectReference | tests/test_solver_equivalence.cpp:45-49 | one-process setup and brute force |
| Solver.SelectByPatch | src/usc/usc_patch_selector_impl.cu:298-324 | raw hashes to selection in patch-partitioned mode: the reference selection under the callers' IDs on every rank |
| Solver.SelectByElement | src/usc/usc_patch_selector_impl.cu:563-756 | the same in element-partitioned mode, solved exactly within the limits 2147483647 and 2147483646 - P |
| Solver.PatchSelect | src/usc/usc_patch_selector_impl.cu:903-916 | bad IDs are reported, with the first such rank, exactly when some rank has not one ID per patch; otherwise patch mode always answers and element mode exactly for at most 2147483647 patches of at most 2147483646 - P distinct hashes each, with the greedy selection on every rank |
| Solver.ModesAgree | include/stPS/usc_patch_selector.hpp:46-49 | for arbitrary caller IDs both modes return the same report |
| Solver.SelectionCovers | tests/test_solver_equivalence.cpp:59-63 | a reported selection covers all N elements, repeats no patch, and its iterations are its length |
| Solver.SolveSplit | tests/test_solver_equivalence.cpp:30-57 | a patch set split by the library rule: all ranks of both modes report exactly what brute force reports, and element mode solves exactly within its two limits |
| TopK.LexMin | src/ups/ups_pattern_stats.cu:36-41 | one of the two points, with the smaller x, and of equal x the smaller y |
| TopK.StatOrder | src/ups/ups_pattern_stats.cu:28-32 | before means a larger count, or an equal count and a smaller hash; of two hashes exactly one comes first |
| TopK.InvertReverses | src/ups/ups_pattern_stats.cu:85-93 | the complement of a 64-bit count reverses the order of counts |
| TopK.SortedUnique | src/ups/ups_pattern_stats.cu:28-32 | the output order and the contents determine a list |
| Reduce.ReduceByKey | src/ups/ups_pattern_stats.cu:208-214 | a reduction over key-sorted pairs folds each run of equal keys, in order, into one value |
| Reduce.SortAndReduce | src/ups/ups_pattern_stats.cu:192-214 | with the stable sort in front, each distinct key folds all its values in input order |
| Reduce.StableSelect | src/ups/ups_pattern_stats.cu:194-200 | a stable sort keeps the values of every key and their order |
| PatternReference.CountIsLength | tests/test_pattern_stats.cpp:52-60 | an ascending list of the patches that hold a hash has as many entries as the count |
| PatternReference.CountIsHolders | tests/test_pattern_stats.cpp:52-60 | the count is the number of patches that contain the hash |
| PatternReference.StatInWords | tests/test_pattern_stats.cpp:50-70 | a statistic counts the patches that hold its hash and names, of all its locations, the one with the smallest x and then the smallest y |
| PatternReference.CountRanks | tests/test_pattern_stats.cpp:52-60 | counting rank by rank counts the whole program |
| PatternReference.ReferenceUnique | tests/test_pattern_stats.cpp:50-70 | the sorted reference list is unique |
| PatternReference.ReferenceSize | tests/test_pattern_stats.cpp:122-132 | it has one entry per distinct hash |
| LocalEntries.RunsPairWithKeys | src/ups/ups_pattern_stats.cu:220-236 | the i-th run of hash-sorted occurrences belongs to the i-th index key; the two counts never disagree |
| LocalEntries.Degrees | src/ups/ups_pattern_stats.cu:238-245 | adjacent differences of the offsets are the row lengths |
| LocalEntries.DegreeCounts | src/ups/ups_pattern_stats.cu:238-245 | a row length is the number of the rank's patches that contain the hash |
| LocalEntries.Summarise | src/ups/ups_pattern_stats.cu:174-245 | per distinct local hash its ID, its patch count and its smallest location |
| OwnerRouting.OwnerIsShard | src/ups/ups_pattern_stats.cu:258-266 | the search through the shard starts finds the one shard that holds an ID, empty shards included |
| OwnerRouting.SortedIsPacked | src/ups/ups_pattern_stats.cu:258-260 | with ascending targets the items are their own packed send buffer |
| OwnerRouting.ExchangeEntries | src/ups/ups_pattern_stats.cu:281-295 | IDs, degrees and coordinate pairs exchanged separately arrive as the same triples |
| OwnerReduce.FoldIsSum | src/ups/ups_pattern_stats.cu:43-47 | 64-bit addition with wrap-around is addition as long as the total fits |
| OwnerReduce.Scatter | src/ups/ups_pattern_stats.cu:73-84 | in any thread order every run lands in its own slot and all other slots stay 0 |
| OwnerReduce.ReduceArrivals | src/ups/ups_pattern_stats.cu:297-354 | every slot gets the sum of the degrees and the smallest location that arrived for it |
| PatternStats.ArrivalWeight | src/ups/ups_pattern_stats.cu:297-338 | degrees meeting at the owner add up to the number of patches of the whole program that contain the hash |
| PatternStats.ArrivalRep | src/ups/ups_pattern_stats.cu:297-345 | the smallest arriving location is the smallest of all occurrences |
| PatternStats.SlotIsStat | src/ups/ups_pattern_stats.cu:297-354 | a shard slot is exactly the statistic of its hash |
| TopK.InvertedOrderIsStatOrder | src/ups/ups_pattern_stats.cu:85-93 | one stable sort on the complemented count yields count descending, hash ascending |
| TopK.ShardTop | src/ups/ups_pattern_stats.cu:356-395 | a shard offers the first min(k, size) of its sorted statistics |
| TopK.GlobalTopIsLocalTop | src/ups/ups_pattern_stats.cu:397-399 | an entry among the first k overall is among the first k of its shard |
| TopK.MergeIsExact | src/ups/ups_pattern_stats.cu:397-443 | merging the shards' best k and keeping k is exact for any split into shards |
| PatternStats.MergeTops | src/ups/ups_pattern_stats.cu:397-444 | refusal exactly when the offered candidates exceed INT_MAX/8, otherwise the k best of all statistics |
| PatternStats.TopUnique | src/ups/ups_pattern_stats.cu:28-32 | every rank derives the identical list, of length min(k, N) |
| PatternStats.TopInWords | src/ups/ups_pattern_stats.cu:28-32 | on the fields alone: counts fall, equal counts are ordered by hash, every entry is a statistic, and every statistic left out has a smaller count than every entry, or the same and a larger hash |
| PatternStats.CheckShape | src/ups/ups_pattern_stats.cu:459-467 | the shape check accepts exactly equal shapes |
| PatternStats.OfferedBound | src/ups/ups_pattern_stats.cu:397-399 | the ranks offer at most k candidates each and at most one per distinct hash |
| PatternStats.PatternStatistics | src/ups/ups_pattern_stats.cu:159-478 | for any number of ranks and any k: the first rank with ill-shaped input is reported exactly when there is one; refused exactly when the shards offer more than 268435455 candidates; otherwise the min(k, N) statistics with the largest counts, equal counts by smaller hash, as the one-process reference has them |
| Bytes.EncodeAt | src/io/stps_binary.cpp:12-23 | byte i of a value is its digit of 256^i: the least significant byte first |
| Bytes.WordByte | src/io/stps_binary.cpp:19-23 | byte 8j + i of a word array is byte i of word j, least significant first |
| Bytes.DecodeEncodeLE | src/io/stps_binary.cpp:12-23 | a 64-bit value read back from its little-endian bytes |
| Bytes.EncodeDecodeLE | src/io/stps_binary.cpp:12-23 | bytes rewritten from the value they hold |
| Bytes.EncodeSlice | src/io/stps_binary.cpp:19-23 | entry i of a word array starts at byte 8i |
| Stps.SumWrapsExactly | src/io/stps_binary.cpp:91-105 | the bounds on M and total_K keep the size sum below 2^64 for every header if and only if the file is below 2^62 - 8 bytes with coordinates, 2^63 - 16 without |
| Stps.OpensHonestlyExactly | src/io/stps_binary.cpp:73-120 | every file of a size that opens has sections that fill it, if and only if it has no coordinates, or is below 6148914691236517208 bytes, or its size is no multiple of 8 |
| Stps.WrappedExample | src/io/stps_binary.cpp:73-120 | a file of 6148914691236517208 bytes opens with a header, given in numbers, whose sections take 2^64 bytes more |
| Stps.WrappedUnreadable | src/io/stps_binary.cpp:91-154 | a file accepted that way never reads back: its coordinates end past the file |
| Stps.ReadsSlice | src/io/stps_binary.cpp:125-170 | on a file whose sections fill it a slice read fails only for a bad range, falling offsets or offsets past the hashes, and otherwise returns exactly that window; no read leaves its section |
| Stps.OpensLaid | src/io/stps_binary.cpp:73-120 | such a file opens exactly when the end offsets are 0 and total_K |
| Stps.FileWordsAre | src/io/stps_binary.cpp:205-230 | which number stands at which place: patch count, hash count, zero, the number of hashes before each patch, the hashes, then x and y of each location |
| Stps.SerialisedBytes | src/io/stps_binary.cpp:194-230 | the eight letters of the magic, then byte 8 + 8j + i is byte i of word j, least significant first |
| Stps.WritePatchFile | src/io/stps_binary.cpp:194-230 | the writer refuses exactly an ill-shaped coordinate list and otherwise emits magic, header, offsets, hashes and coordinates, every byte in place |
| Stps.WriteThenOpen | src/io/stps_binary.cpp:73-120 | a written file opens with its patch count, hash count and version |
| Stps.WriteThenRead | tests/test_patch_io.cpp:57-111 | a written file reads back any slice: patches, IDs and coordinates |
| Stps.AllRanksReadBack | tests/test_patch_io.cpp:123-165 | the slices of all P ranks concatenate to what was written |
| Stps.FullSliceHonest | src/io/stps_binary.cpp:91-170 | a file whose patches all read back has sections that fill it |
| Stps.ReadThenWrite | src/io/stps_binary.cpp:73-230 | an accepted file whose patches all read back rewrites to the same bytes, the reserved word cleared |
| StpsReader.FileHandle.SeekTo | src/io/stps_binary.cpp:53-57 | a position that does not fit a signed 64-bit offset is refused |
| StpsReader.FileHandle.ReadExact | src/io/stps_binary.cpp:59-63 | all bytes or a truncation error |
| StpsReader.OpenPatchFile | src/io/stps_binary.cpp:73-120 | the constructor accepts, and refuses with the same first error, exactly as the file decides |
| StpsReader.Reader.Slice | src/io/stps_binary.cpp:125-170 | read_slice returns the window of the file or the first error its checks meet |
| StpsReader.SplitSlice | src/io/stps_binary.cpp:156-169 | hashes and locations are cut at the same offsets |
| ParallelFile.SharedFile.Pwrite | src/io/parallel_file.cpp:40-45 | a write fails, or writes nothing, or a positive number of leading bytes lands at the offset |
| ParallelFile.WriteKeeps | src/io/parallel_file.cpp:37-47 | a short write of one rank keeps every byte already written by any rank |
| ParallelFile.WritePieces | src/io/parallel_file.cpp:63-71 | in any interleaving of short writes the failed ranks are exactly those that could not open and those with a failed write; writes start in the rank's own range, front to back, none after a failure; if no rank fails the file begins with the sequential serialisation |
| ParallelFile.AgreeOrThrow | src/io/parallel_file.cpp:23-35 | all ranks go on or all throw, each knowing whether the error was its own |
| ParallelFile.PiecesTile | src/io/parallel_file.hpp:11-16 | head and data ranges are disjoint and tile the file |
| ParallelFile.WriteSharedFile | src/io/parallel_file.cpp:58-78 | over any prior content every rank returns exactly when no open, write, cut or close failed, and then the file is complete and every rank has closed it; otherwise every rank throws, with an error of its own exactly if one of its own calls failed, and after a failed open or write nothing is cut |
| StatsFile.FillBuffer | src/ups/stats_file.cpp:37-55 | a rank gives up exactly when one of its lines is not 90 bytes; otherwise its buffer is its lines, with the header in front on rank 0 |
| StatsFile.BuffersTile | src/ups/stats_file.cpp:57-61 | line offsets computed from the index alone tile the file |
| StatsFile.LinesInPlace | src/ups/stats_file.cpp:57-61 | line i of the finished file stands at header length + 90*i |
| StatsFile.WidthsByPart | src/ups/stats_file.cpp:38-55 | some rank gives up exactly when some line of the whole list has another width |
| StatsFile.WritePatternStatsFile | src/ups/stats_file.cpp:17-63 | refused exactly for an empty header or a line of other than 90 bytes; otherwise all ranks return exactly when no call failed, with the header and all lines in place, and else all throw |
| UniqueHashes.HashFileBytes | include/stPS/unique_hashes.hpp:13-22 | the eight letters of the magic, then the count and every hash, each as eight bytes, least significant first |
| UniqueHashes.WriteUniqueHashShards | src/ups/unique_hashes.cpp:14-29 | all ranks return exactly when no call failed, and then the shards written at 16 + 8*shard_start make one globally sorted file |
| UniqueHashes.WriteUniqueHashesFile | src/ups/unique_hashes.cpp:31-38 | from raw patches, for any number of ranks, the same file and count, again returning exactly when no call failed |
| UniqueHashes.HashFileReadsBack | include/stPS/unique_hashes.hpp:13-22 | magic, count and strictly ascending hashes read back from the file |

## Left out

- ByElement.Solve: requires every shard row to fit int32 (`ByElement.ShortRows`), as the int send counts at line 619 of the implementation already need; `ByElement.NarrowedSumExact` states what the check sees otherwise.
- Solver.SelectByElement: the same requirement on the rows, passed on to `ByElement.Solve`.
- Solver.PatchSelect: the same requirement, in element mode only.
- Solver.SolveSplit: the same requirement, for its element-partitioned part.
- Kernels.BuildNewlyCovered: the slot counter of the list kernels is a 32-bit unsigned in the code (src/usc/usc_patch_selector_impl.cu:56 and 63) and unbounded here, and so are the grid sizes cast from list lengths and from winner_score (lines 450, 483-485 and 499).
- PatternStats.PatternStatistics: points are pairs of reals, so negative zero and non-finite coordinates, and the check that refuses the latter (src/ups/ups_pattern_stats.cu:468-475), are not modelled; the number of patches must fit 64 bits; the optional hash file it can write is `UniqueHashes.WriteUniqueHashShards` on the same shards.
- PatternStats.CheckShape: in the code only the rank with the ill-shaped input throws; the model ends the whole program with the first such rank, as `Solver.PatchSelect` does for a wrong number of IDs.
- TopK.SortStats: the host's partial sort is a full sort of the candidates; only its first k entries are used.
- ParallelFile.WriteSharedFile: the descriptor that is released without looking at the result when the first phase throws (src/io/parallel_file.cpp:49-54) is not among the calls of the model.
- StatsFile.WritePatternStatsFile: the text of a line and of the header is a parameter. In the code only the rank with the bad line throws; the model ends the whole program with the first such rank.
- ParallelFile.SharedFile.Pwrite: a write may return 0 any finite number of times; a file that returns 0 for ever, on which the retry loop would not end, is left out. File offsets are not bounded by the signed offset type.
- Stps.WritePatchFile: failures of opening, writing and flushing the file are not modelled, nor is running out of memory while reading.
- Overflow of the int message counts and of the int sizes handed to the device sorts: total sizes are taken to fit.
- The MPI, NCCL, CUDA and CUB libraries themselves, device memory, streams, barriers and launch errors.
- The order of collectives on one communicator: every rank is taken to reach the same calls.
- The words inside the dense bitsets: a bitset is a sequence of booleans, and shifts and masks are not modelled.
- Reuse of one selector object for several solves: each solve starts from fresh state.
- Profilers, printing, command line drivers, output path comparison and the terminate handler.
- The synthetic data generator, which only feeds demonstrations and tests.
