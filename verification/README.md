# Prime+probe cache noise measurement, verified

This project models the cache noise profiler and its visualizer and proves that the measurement
chain fits together: the allocator finds a buffer whose lines sit at their own place of the cache,
the two access loops turn that placement into an exact count of foreign cache lines, the result
matrix reaches the output in the right layout, and the parallel readers combine it correctly.

The end-to-end statement is `Measurement.Measure`. If the buffer search succeeds, every dataset in
the output file shows, in row s, exactly min(k, ways) slow cells, in the highest columns, where k is
the number of distinct lines of cache set s that other code touched while the profiler yielded. For a buffer of one hugepage the search succeeds
exactly when a free hugepage is aligned (`AllocContract.SearchComplete`); for larger buffers no such
guarantee exists (`AllocSizes.CompleteExactly`).

| file | content |
|---|---|
| Words.dfy | 64-bit registers, signed comparison, wrap-around; division lemmas |
| Geometry.dfy | cache geometry, buffer layout |
| Lru.dfy | LRU sets and their reference definition, stack distance |
| PrimeProbe.dfy | what the two access orders do to the cache |
| Profile.dfy, Rounds.dfy | `prime`, `probe`, `profile` |
| SysInfo.dfy | pagemap translation, hugepage size |
| Alignment.dfy, Alloc.dfy, AllocContract.dfy, AllocSizes.dfy, AllocExamples.dfy | `test_alignment`, `alloc_aligned`, `free_aligned` and their guarantees |
| Decimal.dfy, Output.dfy | numerals, text and HDF5 output |
| Visualize.dfy, Statistics.dfy | parallel images and statistics |
| ToggleSmt.dfy | SMT grouping and switching |
| Measurement.dfy | the whole measurement |

`dafny verify dfyconfig.toml` checks everything.

## Assumptions about the environment

- The cache replaces lines in LRU order and is indexed by physical line number. The victim, the code
  between iterations and the latency of each load are arbitrary. Code of the program itself between
  `prime` and the end of `probe` touches no other line.
- Geometry: line size, set count and ways are at least 1, their product is the total size, which
  fits the 32-bit field. The line size divides the hugepage size. The base page size is a power of
  two, at least 8, and divides the hugepage size. Physical addresses have at most 54 bits.
- The kernel is an arbitrary function from the current mapping to an answer. `mmap` backs a region
  by frames nobody else in the process holds. `munmap` of an unmapped range succeeds. The completeness results
  assume that `mmap` fails only when no placement is possible, that the pagemap is readable, and that
  virtual address space does not run out before the pool.
- HDF5 converts signed to unsigned integers by clamping negative values to 0, as its documentation
  states. `H5Dwrite` is called with a signed memory type, so cells of 2^31 and more are lost.
- A core without an `online` file counts as online, and its file cannot be created.
- `/proc/meminfo` is not empty. The iteration count fits a positive `int`.

## Where the code does not do what it promises

- `alloc_aligned` returns ERROR_NONE whenever at least one buffer was rejected, because the clean-up at
  src/alloc.c:91 overwrites `err`. If the search then ran out of tries or memory, there is no buffer
  (`AllocExamples.FalseSuccess` is a concrete case); if a later try stopped because the pagemap could not
  be read, the caller gets a mapped buffer that was never found aligned. `AllocContract.TruthfulInGeneral`
  is the exact condition for all buffers, `AllocContract.TruthfulExactly` the one for one-hugepage buffers
  in terms of the pool.
- The search does not find every buffer that could be aligned: with two or more hugepages an honest
  kernel can make it fail always (`AllocSizes.HonestKernelDefeats`).
- The comment at src/profile.c:53 says the loop continues while 0 < way, but `jnl` continues while
  0 <= way. Without that, way 0 would never be primed.
- The sum and mean of the video statistics count the first value of each slice twice
  (`Statistics.SumRightExactly`), and with more processes than filled slices the parent waits forever
  (`Statistics.AllSlicesFilled`).
- The script switches SMT off correctly only because printing the status sorts each group first
  (tools/toggleSMT.py:46): the core that stays is the one with the least id string, so cpu0, which usually
  has no `online` file, is never written. Of `cpu2` and `cpu10` it is `cpu10` that stays
  (`ToggleSmt.TenBeforeTwo`).
- `disable_smt` on a machine that already has offline cores switches one of them on, because all
  offline cores share the id 'unknown' (`ToggleSmt.SwitchedOnExactly`).

## Model

| member | source | states |
|---|---|---|
| Profile.Machine.Prime | src/profile.c:21-68 | register by register, the nested do-while loops terminate and leave the LRU cache as after the set-by-set, ways-descending trace; on an aligned buffer every set then holds exactly the buffer, way 0 most recent |
| Profile.Machine.PrimeSet | src/profile.c:34-55 | the inner loop loads ways-1 down to 0 inclusive and stops when the signed counter is -1 |
| Profile.Machine.Probe | src/profile.c:70-142 | the loops leave the cache as after the set-by-set, ways-ascending trace, and cell set*ways+way of the result is the low word of the time of that load |
| Profile.Machine.ProbeSet | src/profile.c:81-128 | the inner loop appends one timing per way, upwards, and leaves earlier results alone |
| Profile.Machine.BufferOffset | src/profile.c:40-45 | the 64-bit xor/add/imul chain computes (way*set_count+set)*line_size without wrapping and stays inside the buffer |
| Profile.Machine.TimedLoad | src/profile.c:101-117 | two low-word counter readings around a load give its elapsed count modulo 2^32 even if the counter wraps |
| Words.ElapsedWraps | src/profile.c:103-113 | subtracting the low words of two readings gives the elapsed count modulo 2^32 for any start |
| Profile.MatrixFromTrace | src/profile.c:102-134 | the linear result buffer is the set-major matrix of load times |
| Profile.CellTiming | src/profile.c:79-134 | cell set*ways+way times the load of way `way` of set `set`, taken in the cache state after all earlier loads of probe |
| PrimeProbe.VisitedOnce | src/profile.c:32-61 | wherever the buffer lies, both traces have one entry per line, and line i is loaded at exactly one position: set*ways+(ways-1-way) for prime, set*ways+way for probe, with set = i % set_count and way = i / set_count |
| PrimeProbe.PhysicalOnce | src/profile.c:32-61 | on an aligned buffer the same holds of the physical lines: each is loaded exactly once by prime and once by probe |
| PrimeProbe.TracePrefix | src/profile.c:79-134 | what probe has loaded before (set, way): all lower sets, and the lower ways of the set |
| Geometry.LineIndexBijection | src/profile.c:40-45 | (set, way) -> way*set_count+set is a bijection onto the line indices of the buffer |
| Lru.RunSetIsRecent | src/profile.c:21-68 | environment: the operational LRU set equals the first `ways` of the distinct lines ordered by last access, for every trace and start |
| Lru.StackDistance | src/profile.c:70-142 | environment: a line loaded again hits iff fewer than `ways` distinct other lines of its set came in between |
| Lru.RunProjects | src/profile.c:21-142 | environment: a trace acts on one set only through the accesses that map to it |
| Lru.OppositeHit | src/profile.c:51-55 | loading one way and reading back the other way: line w hits iff w plus the number of foreign lines is below the associativity |
| Lru.SameDirectionHit | src/profile.c:51-55 | reading back in the same direction hits iff there was no foreign line at all |
| PrimeProbe.Placement | src/alloc.c:30-54 | on an aligned buffer, offset (way*set_count+set)*line_size reaches a physical line of cache set `set`, with cache line number way*set_count+set |
| PrimeProbe.PlacementInjective | src/alloc.c:30-54 | different (set, way) reach different physical lines |
| PrimeProbe.PrimeFills | src/profile.c:21-68 | from any cache state, prime leaves exactly the buffer in each set, recency order 0..ways-1 |
| PrimeProbe.ProbeFills | src/profile.c:70-142 | from any cache state, probe leaves exactly the buffer in each set, recency order ways-1..0 |
| PrimeProbe.NoiseHit | src/profile.c:153-157 | prime, any victim, probe: way w of a set hits iff w + (distinct victim lines in the set) < ways, from any cache state |
| PrimeProbe.ExactNoise | src/profile.c:153-157 | the missed ways of a set are exactly the min(k, ways) highest ones, k being the number of distinct victim lines in it |
| PrimeProbe.SameDirectionThrashes | src/profile.c:34-55 | if the first pass ran in probe order, a set would hit iff the victim left it alone: one line would make all ways miss |
| Rounds.ProfileCache | src/profile.c:144-165 | for every iteration count, every disturbance and every victim schedule: unless a write fails, the number of matrices is that of the rounds before termination, or `iterations` if that is not 0 and smaller; matrix j depends only on the victim of iteration j, and the file or stream holds exactly these matrices |
| Rounds.MeasureRound | src/profile.c:153-157 | one iteration yields the matrix determined by its victim, and leaves each set filled by probe |
| Rounds.NoiseFromProbe | src/profile.c:153-157 | the timings of probe are those of the hits and misses that the victim alone determines |
| Rounds.SlowCells | src/profile.c:102-134 | if hits and misses are separated by a threshold, row s of the stored matrix has exactly min(k, ways) slow cells, in the highest columns |
| Rounds.PrintedCell | src/output.c:13-26 | printing with dim_x = ways puts the cell of (set, way) into row set, column way |
| Rounds.PrintedTiming | src/output.c:13-26 | the printed value is the elapsed count of the load of buffer line way*set_count+set when it is below 2^32 |
| Rounds.RunRoundTrip | src/output.c:13-31 | the text of a whole run parses to the rows of all its matrices, in order |
| SysInfo.PageShift | src/sys_info.c:267-270 | the shift loop counts the halvings of the page size |
| SysInfo.Log2Pow2 | src/sys_info.c:267-270 | on a power of two the loop finds the exponent |
| SysInfo.EntryRoundTrip | src/sys_info.c:250-254 | decoding recovers frame number and present bit of an entry |
| SysInfo.GetPhysicalAddress | src/sys_info.c:260-286 | ERROR_SYSCONF for page size 0; otherwise the 64 bits at byte 8*(addr/page_size) of the pagemap decide: unreadable, bit 63 clear, or (data mod 2^54)*page_size + addr mod page_size |
| SysInfo.EntryOfPage | src/sys_info.c:231-286 | for every layout with the entry of page p at byte 8*p as frame + flags*2^54 + present*2^63 and arbitrary flags: frame*page_size + offset if present, ERROR_PAGE_ENTRY if not |
| SysInfo.TranslateExact | src/sys_info.c:267-283 | for a power-of-two page size and a frame inside the address space the target is frame*page_size + offset, without overflow |
| SysInfo.TranslateInjective | src/sys_info.c:260-286 | two addresses have the same target iff they are equal, when pages do not share frames |
| Alignment.TranslateMapped | src/sys_info.c:260-286 | on a mapped hugepage the pagemap route yields frame*hugepage_size + offset at every byte |
| Alignment.TranslateAdditive | src/sys_info.c:260-286 | inside a hugepage translation is additive |
| SysInfo.GetHugepageSize | src/sys_info.c:293-325 | the digits of the first labelled line, in order, times 1024; the error iff no line begins with "Hugepagesize:"; the digit buffer is never overrun |
| SysInfo.SizeInMeminfo | src/sys_info.c:302-322 | any lines without the label, then "Hugepagesize:" and a number n with no other digits, then anything: the size is n*1024; without such a line the error |
| SysInfo.SizeOfLine | src/sys_info.c:302-322 | a labelled line spelling n with no other digits yields n*1024 |
| Alignment.TestAlignment | src/alloc.c:30-54 | the sampling loop returns the verdict that `TestFrom` defines and FirstFailure characterises |
| Alignment.FirstFailure | src/alloc.c:32-53 | for every pagemap, the verdict is the code of the first sample that fails, and ERROR_NONE when all pass |
| Alignment.TestLineMapped | src/alloc.c:35-50 | one sample on a mapped buffer asks exactly whether its line is in place |
| Alignment.SampleCovers | src/alloc.c:32-51 | a sample in place puts every line of its hugepage in place |
| Alignment.SamplingExact | src/alloc.c:30-54 | test_alignment returns ERROR_NONE iff every line of the buffer is in place, and ERROR_NOT_ALIGNED otherwise, for any number of hugepages |
| Alloc.CoveringLength | src/alloc.c:112-115 | the loop yields the least positive multiple of the hugepage size that covers the buffer |
| Alloc.FreeAligned | src/alloc.c:107-121 | exactly the hugepages of the buffer are unmapped |
| Alloc.Kernel.Mmap | src/alloc.c:74-80 | a feasible placement maps its frames behind consecutive hugepages, any other answer is MAP_FAILED and changes nothing |
| Alloc.SearchLoop | src/alloc.c:71-88 | mapping, rejected buffers, *buffer and err after the loop, for every kernel |
| Alloc.SearchLayout | src/alloc.c:73-88 | after the loop the mappings are the initial ones, the rejected regions and the last candidate, all disjoint |
| Alloc.AllocAligned | src/alloc.c:56-105 | the loops end in the outcome whose mappings, buffer and code the AllocContract lemmas characterise; ERROR_NO_HUGEPAGES without hugepages |
| AllocContract.Conservation | src/alloc.c:73-104 | the final mappings are the initial ones, plus exactly the last candidate iff the loop stopped on it and err then reads ERROR_NONE; in particular when the search ended with ERROR_NONE |
| AllocContract.SearchSound | src/alloc.c:82-87 | a search that ends with ERROR_NONE holds a mapped buffer with every line in place |
| AllocContract.FoundIsUsable | src/alloc.c:73-104 | and it is still mapped and in place after the clean-up |
| AllocContract.SearchComplete | src/alloc.c:71-88 | for buffers of one hugepage the search ends with ERROR_NONE iff some free hugepage is aligned |
| AllocContract.TakesOneFrame | src/alloc.c:84-86 | each rejected try removes one more frame from the pool |
| AllocContract.TruthfulExactly | src/alloc.c:90-104 | for buffers of one hugepage, ERROR_NONE means a usable buffer iff the pool is empty or holds an aligned hugepage |
| AllocContract.TruthfulInGeneral | src/alloc.c:90-104 | for buffers of any size, every kernel and every readability of the pagemap, ERROR_NONE means a usable buffer iff nothing was rejected, or the search succeeded, or a later try stopped on an error and its untested buffer is in place anyway |
| AllocContract.TruthfulWhenReadable | src/alloc.c:90-104 | with a readable pagemap: iff nothing was rejected or the search succeeded |
| AllocSizes.SuccessNeedsPlacement | src/alloc.c:71-88 | for buffers of any size and every kernel: the search succeeds only if some placement was aligned from the start |
| AllocSizes.HonestKernelDefeats | src/alloc.c:71-88 | for every cache that needs two or more hugepages there is an honest kernel with which the search fails from every mapping, whatever the pool holds and however many tries there are |
| AllocSizes.CompleteExactly | src/alloc.c:71-88 | every honest kernel lets the search succeed iff the buffer needs a single hugepage and an aligned placement exists |
| AllocSizes.PossibleExactly | src/alloc.c:71-88 | some honest kernel lets the search succeed iff an aligned placement exists, for buffers of any size |
| AllocSizes.HonestKernelExists | src/alloc.c:74-80 | the assumptions about the kernel can be met on every platform |
| AllocExamples.TwoPagesIncomplete | src/alloc.c:71-88 | a 4 MiB cache and an honest kernel where a two-hugepage buffer could be aligned, but the search takes the frames in the wrong order and fails with the pool empty |
| AllocExamples.FalseSuccess | src/alloc.c:90-104 | a concrete machine on which alloc_aligned returns ERROR_NONE without a buffer |
| Decimal.ValuePrint | src/output.c:14-22 | reading back a printed number gives the number |
| Decimal.PrintInjective | src/output.c:45 | different counters give different dataset names |
| Decimal.PrintValue | src/output.c:14-22 | every digit string without a leading zero is the print of its value |
| Decimal.NoLeadingZero | src/output.c:45 | no number is printed with a leading zero |
| Output.PrintMatrix | src/output.c:12-31 | for every point at which fprintf starts to fail: the strings written so far, and ERROR_IO_HDF iff not all could be written |
| Output.PrintRow | src/output.c:13-30 | the same for one row |
| Output.PrintedLine | src/output.c:14-28 | the text of row r is "set r: ", its values separated by commas, and a newline |
| Output.TextRoundTrip | src/output.c:13-31 | a printed matrix parses to exactly its rows, indices and values |
| Output.RowRoundTrip | src/output.c:13-30 | one printed line parses to its index and values, whatever follows |
| Output.Writer.WriteDataset | src/output.c:33-66 | counter, file and code for every library failure; from a consistent file a write succeeds iff fewer than 2^64 datasets exist, and then appends one |
| Output.Writer.WriteMatrix | src/output.c:10-71 | dispatch on the output type, and what stays unchanged |
| Output.FileLookup | src/output.c:45-55 | after n writes the numeral of k is a name iff k < n, it gives the k-th dataset, and there are n distinct names |
| Output.NextName | src/output.c:45-52 | the next name is free until the counter has wrapped |
| Output.StoredExactly | src/output.c:54 | a matrix written as signed integers is stored unchanged iff every cell is below 2^31 |
| Visualize.WrittenIsReadable | tools/visualize.py:214-222 | every file the writer leaves can be read by number |
| Visualize.ImageWorker | tools/visualize.py:19-42 | every point of the result is the sum of that point over the datasets of the slice, zero when the slice is empty |
| Visualize.GenerateImage | tools/visualize.py:45-59 | for every number of workers and every arrival order, every point of the image is the sum of that point over all datasets of the file |
| Visualize.SeriesWritten | tools/visualize.py:213-214 | the datasets read by their numbers are the ones that were written, in order |
| Visualize.HeatmapOfWritten | tools/visualize.py:213-222 | cell i of the heatmap of a written file is the sum of the cells i of all datasets |
| Visualize.BarsOfWritten | tools/visualize.py:213-220 | bar y of a written file is the sum of the rows y of all datasets |
| Visualize.SlicesPartition | tools/visualize.py:29-32 | dataset `key` lies in the slice of exactly one worker, number key / ceil(n/workers), and there is such a worker |
| Visualize.InCoreOrder | tools/visualize.py:29-40 | in core order the results of the workers add up to the sum of all datasets |
| Visualize.FoldPermutation | tools/visualize.py:55-57 | the sum over the queue does not depend on the order |
| Visualize.RowSumAt | tools/visualize.py:216-220 | folding yields the sum of each row |
| Visualize.BarsAreRowSums | tools/visualize.py:214-222 | folding rows before summing over datasets equals the row sums of the heatmap |
| Statistics.SliceStats | tools/visualize.py:85-96 | maximum, minimum, count, and a sum that counts the first value twice; nothing for an empty slice |
| Statistics.VideoWorker | tools/visualize.py:62-96 | the statistics of exactly the values of the datasets of one slice |
| Statistics.MergedStats | tools/visualize.py:103-119 | for every arrival order: a result iff no slice is empty; then maximum, minimum and count of all values of the file, and their sum plus the first value of the datasets number 0, ceil(n/workers), 2*ceil(n/workers), ... |
| Statistics.StatisticsOfWritten | tools/visualize.py:103-119 | on a written file, maximum and minimum are those of all written cells, and the count is their number |
| Statistics.AllSlicesFilled | tools/visualize.py:73-76 | no slice is empty iff ceil(n/workers)*(workers-1) < n |
| Statistics.SumRightExactly | tools/visualize.py:85-94 | the merged sum is the true sum iff every slice starts with 0 |
| Statistics.SumTooLarge | tools/visualize.py:85-94 | a concrete file whose reported sum is twice the true one |
| ToggleSmt.ParsePhysicalCores | tools/toggleSMT.py:81-91 | one group per physical id in order of first appearance, holding the cores with that id |
| ToggleSmt.Partition | tools/toggleSMT.py:84-89 | a core is in a group iff it has the physical id of the group |
| ToggleSmt.MembersExist | tools/toggleSMT.py:84-89 | no group is empty |
| ToggleSmt.MembersStable | tools/toggleSMT.py:87 | a group keeps the original order |
| ToggleSmt.GroupSizes | tools/toggleSMT.py:84-91 | the sizes of the groups add up to the number of cores |
| ToggleSmt.Sort | tools/toggleSMT.py:46 | environment: the library sort yields a permutation in key order |
| ToggleSmt.LexExactly | tools/toggleSMT.py:46 | the order of the sort is that of strings: smaller at the first difference, or a shorter beginning |
| ToggleSmt.TenBeforeTwo | tools/toggleSMT.py:46 | so cpu10 comes before cpu2 |
| ToggleSmt.PhysicalCore.Str | tools/toggleSMT.py:45-50 | printing a group sorts it in place by the id strings |
| ToggleSmt.PhysicalCore.DisableSmt | tools/toggleSMT.py:52-55 | it succeeds iff every other online core has an `online` file; then exactly the first core of the group is online; otherwise the cores before the one without a file are switched and the rest are as found; files outside the group are untouched |
| ToggleSmt.PhysicalCore.EnableSmt | tools/toggleSMT.py:57-59 | afterwards all cores of the group are online, with or without a file; files outside the group are untouched |
| ToggleSmt.DisableAll | tools/toggleSMT.py:109-111 | the same for all groups, in any order; even if it stops early, no first core that was online is off |
| ToggleSmt.Toggle | tools/toggleSMT.py:94-111 | parsing, sorting, printing and switching: with 'd' a core ends up online iff no core of its physical id has an id string before its own; this succeeds iff every other online core has a file, and a least core that was online stays online in any case; with 'e' all cores are online; with another answer nothing changes |
| ToggleSmt.LargerGoesOff | tools/toggleSMT.py:46-55 | of two siblings whose ids differ first in a character, the one with the larger character ends up offline |
| ToggleSmt.OneCorePerId | tools/toggleSMT.py:109-111 | after a successful switch-off exactly one core is online per physical id that occurs, and as many cores in all as there are ids |
| ToggleSmt.BootCoreNotWritten | tools/toggleSMT.py:46-55 | if only cpu0 has no `online` file, the sort puts it first in its group, it is never written, and the switch-off succeeds |
| ToggleSmt.SwitchedOnExactly | tools/toggleSMT.py:52-55 | switching off turns some core on iff some core was offline |
| ToggleSmt.SecondRun | tools/toggleSMT.py:72-76 | on a machine that had every core online, a second switch-off keeps the cores left by the first one and switches the least of the others back on |
| ToggleSmt.SecondRunCount | tools/toggleSMT.py:72-76 | so after it one core more is online than there are physical cores, unless the first run had nothing to switch off |
| Measurement.VictimIsForeign | src/alloc.c:73-88 | code running outside the hugepage pool never touches a line of the buffer |
| Measurement.FileShowsNoise | src/profile.c:151-160 | looking up dataset j gives the noise of iteration j |
| Measurement.Measure | src/main.c:277-302 | allocation, profiling and storage together, for buffers of any size: if the search succeeds, the file is readable, holds one set_count x ways dataset per iteration, and row s of dataset j has exactly min(k, ways) slow cells, k being the distinct lines of set s that the victim of iteration j touched |
| Measurement.MeasureOneHugepage | src/main.c:277-302 | the same for buffers of one hugepage whenever a free hugepage is aligned, whatever an honest kernel answers |

## Left out

- Timing magnitudes, `cpuid` and `mfence` semantics, register constraints of the inline assembly,
  replacement policies other than LRU.
- File, process and device access itself: `fopen`, `/proc`, `/sys`, perf events, signals, process
  spawning. Their outcomes are parameters. Termination is the number of rounds the environment allows.
- Failure of `malloc`, of `get_hugepagenr`, and of `get_hugepagesize` inside `alloc_aligned`.
- SearchComplete: stated for buffers of one hugepage; for all larger buffers it is false
  (`AllocSizes.CompleteExactly`).
- TruthfulExactly: stated for buffers of one hugepage, for the same reason; TruthfulInGeneral covers the rest.
- `MeasureData.__getitem__` with more than one combined block, and the iterator end.
- The mean as a fraction, floating point, and numpy integer widths: sums are unbounded integers.
- The flag bits of a pagemap entry other than `present`.
- `benchmark`, `cache_info_new`, `cache_info_fill`, plotting, argument parsing, the other toggle scripts.
- The printed status text of the SMT script, and the reading of its inputs: Toggle starts from the cores
  found. Its environment: no file can be created in `/sys/devices/system/cpu`.
- GetHugepageSize: the value is meaningful only when the size fits an `int`; C leaves the overflow undefined,
  the model wraps to 32 bits.
