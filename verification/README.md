# A Dafny model of the ROCm Validation Suite's algorithmic core

The ROCm Validation Suite stresses and validates AMD GPUs. Most of it is glue around vendor libraries; this project
models the parts that compute something between those calls, and proves what they promise. Floating-point values are
exact reals, integers are unbounded except where a 32- or 64-bit width matters, and bytes are 8-bit vectors.

`dafny verify dfyconfig.toml` checks everything.

| files | what they model |
|---|---|
| `Decimal`, `ConfigList` | list properties of the configuration: splitting at a delimiter, conversion to unsigned integers, the list property itself |
| `Json`, `LogNodes`, `JsonRoundTrip`, `JsonPrefix` | a reader for the JSON the logger writes (sections 2, 4, 5, 6 and 7 of RFC 8259, without escapes, fractions and exponents), the node classes and their printer, the proof that reading undoes printing, and the proof that no object text is a proper prefix of another |
| `JsonLogger`, `LoggerRuns` | the logger's static flags and file, whole runs of actions with worker threads flushing records under the file mutex, runs that are stopped |
| `StreamGeometry`, `StreamKernels`, `StreamSums`, `StreamDot`, `StreamStress` | BabelStream: size checks and index map, kernels as interleaved threads on shared arrays, the dot product's reductions, the main loop against `check_solution`, the statistics |
| `MxAlign`, `MxPack` | MX data generation: moving data to their block scales, packing FP4 and FP6 |
| `HostGemm`, `NormCheck`, `NormError`, `RotatingBuffer` | the host side of the BLAS tests: reference multiplication, scaled norms, norm error, rotating device buffers |
| `CopyTime`, `PoolSearch`, `HsaTraffic` | the HSA transfer engine: copy times, the search for buffers as the runtime's answers record it, buffers, signals and transfers |
| `Timer` | the timer's two threads |
| `IndexMath`, `RealMath`, `Wrappers` | shared arithmetic and an option type |

Concurrency is explicit. A kernel launch is a loop that lets any unfinished thread take its next load or store; OpenMP
loops and reduction levels take their iterations in any order; workers flush in any order their own queues allow; the
timer is a transition system in which every event reads or writes at most one of its shared fields.

## What the code does not do

Where a promise of the code or of its comments is not kept for all inputs, the code is modelled as it stands and the
exact condition is proved:

- `check_solution`'s prediction is right, for a positive number of iterations, if and only if copy, mul, add and triad
  are all enabled (`StreamStress.GoldPredictsIff`). Its calls are commented out (`babel.so/src/rvs_stress.cpp:266`,
  `:494`), so nothing checks a partial run today.
- The file-wide `triad_only` flag would make that prediction wrong for every full run once it is set
  (`StreamStress.StaleTriadFlag`).
- The stream constructor multiplies in 32 bits before it checks divisibility: an accepted array is really split without
  remainder if and only if that product did not wrap (`StreamGeometry.AcceptedSizesFitIff`; a configuration for which it
  does is `StreamGeometry.WrappedSizesAreAccepted`).
- A kernel launch for a lane and chunk shape outside the launch table covers the array if and only if the shape moves
  eight elements per thread (`StreamGeometry.CoverageIff`; `StreamGeometry.LaunchCoversIff` with the wrapped product).
- The fallback instance of `dot` is compiled for 1024 threads. With fewer it folds slots of shared memory that nobody has
  written into the result; they are harmless if and only if there is a thread for every slot
  (`StreamSums.StaleNeverMattersIff`, `StreamDot.Dot`).
- MX alignment reads inside its input if and only if the block length divides the depth or there is one row
  (`MxAlign.ReadsInRangeIff`).
- FP6 packing loses data unless every third element of a group, and every element past the packed length, is zero
  (`MxPack.Fp6RoundTripIff`; where the bits go instead, `MxPack.PackingMisplacesThird`), and reads behind its input if and
  only if two or three elements are left over from the last group (`MxPack.PackReadsInRangeIff`).
- `calculate_norm('F')` is called the Frobenius norm, but it adds square roots of ratios where squares are meant: it equals
  the Frobenius norm if and only if all non-zero entries have the same magnitude, and exceeds it otherwise
  (`NormCheck.FrobeniusIff`). The norm error built on it is still zero exactly for equal matrices
  (`NormError.CheckNormError`).
- On rocBLAS the minimum leading dimension is chosen by comparing a 0/1 flag with the library's enumeration; the reads it
  allows stay inside matrices A and B under the conditions of `HostGemm.RocReadsInsideAIff` and
  `HostGemm.RocReadsInsideBIff`. The consistency check reads output D in columns of C's leading dimension
  (`HostGemm.OutputCheckInsideIff`).
- The rotating size is multiplied in 32 bits: the copies cover the request exactly under the condition of
  `RotatingBuffer.CopiesCoverRequestIff`, and a request of 4 GiB is served by one copy
  (`RotatingBuffer.FourGiBAreNotCovered`).
- `SendTraffic` leaves the forward signal behind if and only if the reverse allocation fails, and its 32-bit loop bound gives
  the requested number of timed transfers if and only if the two counts do not overflow (`HsaTraffic.SendTraffic`,
  `HsaTraffic.TimedIterationsIff`).
- A record without children leaves a dangling comma (`JsonRoundTrip.RecordReads`), and append mode puts a comma before the
  first record (`JsonLogger.FileParsesIff`).
- Stopping the logger freezes the JSON file if and only if the flags are not zero, and a run stopped before its end leaves
  no JSON text (`LoggerRuns.StopFreezesIff`, `LoggerRuns.StoppedRunParsesIff`).
- The timer's deadline test succeeds up to, but not including, one millisecond early (`Timer.DueIff`).
- Callbacks of a periodic timer are an interval apart, short of a millisecond, whenever the latest start is over
  (`Timer.TicksAreApart`); a start of a running periodic timer that is slow to write its deadline can double a tick
  (`Timer.OverlappingStartDoublesTick`).
- A timer can be started again without risk if and only if it has been stopped, or has only been started for periodic
  ticks since and is started for periodic ticks again; otherwise some schedule terminates the program
  (`Timer.StartIsSafeIff`).
- `str_split` never returns for an empty delimiter and a non-empty string (`ConfigList.SplitLoopTerminatesIff`).

## Model

| member | source | states |
|---|---|---|
| Decimal.NatTextReadsBack | src/rvslognodeint.cpp:61-66 | decimal printing: the text of a number is made of digits, has no leading zero and reads back as the number |
| Decimal.DigitsAppend | include/rvs_util.h:115-133 | the value of a text of digits is base ten, most significant digit first |
| Decimal.LeadingZero | include/rvs_util.h:115-133 | zeros in front change no value |
| ConfigList.PiecesRejoin | src/rvs_util.cpp:51-66 | the reference leftmost splitter loses nothing, and none of its pieces contains the delimiter |
| ConfigList.SplitLoopTerminatesIff | src/rvs_util.cpp:56-64 | the splitting loop ends if and only if the delimiter is non-empty or the string is empty |
| ConfigList.ConvertibleTexts | src/rvs_util.cpp:74-79 | a number is written with the characters 0 to 9 alone, leading zeros allowed, no sign and no blank, and names less than 2^64 |
| ConfigList.StrSplit | src/rvs_util.cpp:51-66 | the tokens are exactly the non-empty pieces of the reference splitter, in order |
| ConfigList.ConvertedLength | include/rvs_util.h:115-133 | as many numbers as texts come out if and only if every text is a 64-bit unsigned decimal, and then each is its text's value in the element type |
| ConfigList.StrArrToUintArr | include/rvs_util.h:115-133 | the values of the convertible texts, and -1 if and only if some text is not convertible |
| ConfigList.ActionBase.PropertyGetUintList | include/rvsactionbase.h:93-125 | missing key, "all", malformed list and list of values, each with its status, flag and output |
| ConfigList.SplitUndoesJoin | src/rvs_util.cpp:51-66 | pieces free of a one-character delimiter survive being joined and split again, wherever the joined text begins |
| ConfigList.PrintedListParses | include/rvsactionbase.h:93-125 | a printed list of numbers parses to those numbers modulo 2^16 or 2^32, unless one needs more than 64 bits, which makes it malformed |
| ConfigList.PrintedListRoundTripIff | include/rvsactionbase.h:93-125 | parsing undoes printing if and only if every value is below 2^16 or 2^32, as the element type asks |
| Json.QuotedReads | src/rvslognodestring.cpp:61-66 | a quoted text without quote, backslash and control characters reads back as itself and consumes just its characters |
| Json.NumberReads | src/rvslognodeint.cpp:61-66 | a printed integer, negative ones included, reads back before any non-digit |
| Json.CharacterClasses | src/rvslognodestring.cpp:61-66 | the reader's blanks and the characters that need no escape are those of sections 2 and 7 of RFC 8259 |
| LogNodes.NodeMeanings | src/rvslognoderec.cpp:75-102 | what every class of node stands for, and which level it answers with |
| LogNodes.AsInt32Is | src/rvslognoderec.cpp:75-102 | the time stamp's 32-bit words are printed as signed numbers congruent to them |
| LogNodes.TimeTextIs | src/rvslognoderec.cpp:75-102 | the time stamp: seconds right-justified in six columns, a dot, microseconds left-justified in six |
| JsonRoundTrip.MemberReads | src/rvslognode.cpp:80-95 | string, integer and group nodes read back as the member they stand for, before any rest and under any blank indentation, unless a record below them has no child |
| JsonRoundTrip.ElementReads | src/rvsminnode.cpp:85-105 | every well-sorted record, minimal record and list reads back as the value it stands for, if and only if every record in it has a child |
| JsonRoundTrip.MinNodeReads | src/rvsminnode.cpp:85-105 | the minimal record's case, named or not, children allowed to be missing |
| JsonRoundTrip.ListNodeReads | src/rvslognodelist.cpp:84-100 | the list's case: an object with one member holding an array of elements |
| JsonRoundTrip.RecordReads | src/rvslognoderec.cpp:75-102 | the full record's case: level, padded time stamp, then the children; without children it reads as an error |
| JsonRoundTrip.MembersRead | src/rvslognode.cpp:85-91 | the children loop prints a comma-separated member list |
| JsonRoundTrip.ElementsRead | src/rvslognodelist.cpp:90-96 | the children loop of a list prints a comma-separated element list |
| JsonRoundTrip.DanglingComma | src/rvslognoderec.cpp:89-99 | what follows the time stamp's comma in a childless record is not a member list |
| JsonRoundTrip.IndentationNeverMatters | src/rvslognoderec.cpp:75-102 | two printings of a tree under any blank indentations read as the same document |
| JsonLogger.Logger.WriteRow | src/rvsliblogger.cpp:542-566 | appends exactly the row if logging has not been stopped with non-zero flags and a file is named, and nothing otherwise, with the status of each case |
| JsonLogger.Logger.JsonStartNodeCreate | src/rvsliblogger.cpp:394-407 | names the file if need be and writes the head of the document |
| JsonLogger.Logger.JsonActionStartNodeCreate | src/rvsliblogger.cpp:409-425 | opens the document only for the first action, writes the comma only between actions, and resets the first-record flag |
| JsonLogger.Logger.LogRecordFlush | src/rvsliblogger.cpp:468-531 | every level and mode: a record is written, behind a comma if it is not the first or the mode is append, if and only if its level is one of the six and not above the configured one; how the first-record flag changes, and which status is returned |
| JsonLogger.FlushWrites | src/rvsliblogger.cpp:468-531 | the flush that runs are made of writes a record under that very condition |
| JsonLogger.RecordsOfRequests | src/rvsliblogger.cpp:484-500 | the records of an action are the requested ones in order, without those whose level is none of the six or above the configured one |
| JsonLogger.Logger.JsonActionEndNodeCreate | src/rvsliblogger.cpp:432-437 | closes the action's array |
| JsonLogger.Logger.JsonEndNodeCreate | src/rvsliblogger.cpp:448-456 | closes the document, or fails when no file was ever named |
| LoggerRuns.StopFreezesIff | src/rvsliblogger.cpp:740-750 | after Stop nothing that is called adds to the file, if and only if the flags are not zero |
| LoggerRuns.StopWithoutFlagsIsUnseen | src/rvsliblogger.cpp:542-546 | stopping with zero flags changes nothing any later sequence of calls writes |
| LoggerRuns.StoppedRunParsesIff | src/rvsliblogger.cpp:542-566 | a run that would leave a JSON text, stopped after any number of its calls with non-zero flags, leaves one if and only if it had already ended, whatever is called afterwards |
| LoggerRuns.OnlyAppends | src/rvsliblogger.cpp:558-562 | no sequence of calls ever takes anything out of the file |
| JsonLogger.FlushAllText | src/rvsliblogger.cpp:502-527 | a sequence of flushes, whoever issued them, appends the kept records in lock order with commas exactly in between |
| JsonLogger.RunText | src/rvsliblogger.cpp:394-531 | the text of a whole run: head of the first action's module, the actions with commas between them, tail |
| JsonLogger.FileParsesIff | src/rvsliblogger.cpp:394-531 | the final file is one JSON document if and only if every kept record is complete and append mode kept nothing; its arrays then hold exactly the records RecordsOfRequests describes, in lock order |
| JsonLogger.Record.constructor | src/rvsliblogger.cpp:351-379 | a full record begins with the action, module and level-name members, a minimal one with nothing |
| JsonLogger.Record.Add | src/rvsminnode.cpp:72-74 | the child goes behind the ones already there |
| JsonLogger.BuiltRecordsAreLegal | src/rvsliblogger.cpp:351-379 | a record made by LogRecordCreate and grown with legal members is well-sorted and complete, so FileParsesIff applies to it |
| JsonLogger.BuiltRecordReads | src/rvsliblogger.cpp:351-379 | what a reader finds in a full record: level, time stamp, action, module, the name of the level (trace is called unknown, although it has one), then the added members |
| JsonLogger.MinimalRecordReads | src/rvsliblogger.cpp:362-365 | a minimal record holds the added members alone |
| JsonLogger.PlayAction | src/rvsliblogger.cpp:468-531 | whatever the schedule of the workers, an action has the effect of one lock order, which keeps every worker's own order |
| LoggerRuns.PlayRun | src/rvsliblogger.cpp:394-531 | a whole run on the logger object: its file reads as the document of the actions played, in the lock orders that occurred, if these are legal; complete records and no append mode are enough |
| StreamGeometry.AcceptedSizesFitIff | babel.so/src/rvs_stream.cpp:161-189 | sizes that pass the constructor's checks split the array exactly if and only if the 32-bit product of threads, lane elements and chunks is the true one, or the array is empty |
| StreamGeometry.ReadyMeans | babel.so/src/rvs_stream.cpp:161-184 | a lane of an accepted configuration moves the dwords asked for, or one element longer than these; the blocks make up the array, counted with the 32-bit product |
| StreamGeometry.RefusedIff | babel.so/src/rvs_stream.cpp:161-184 | which sizes are refused, and for which of the reasons |
| StreamGeometry.WrappedSizesAreAccepted | babel.so/src/rvs_stream.cpp:172-184 | concrete sizes that pass the checks although the array is not split by them |
| StreamGeometry.AcceptedSizesFit | babel.so/src/rvs_stream.cpp:161-189 | for covering shapes of a device's size that product does not wrap, so the split is exact |
| StreamGeometry.LanesAreDisjoint | babel.so/src/rvs_stream.cpp:505-514 | two lanes touch the same element if and only if they are the same thread, chunk and lane element |
| StreamGeometry.TouchedExactly | babel.so/src/rvs_stream.cpp:505-514 | a launch touches exactly the indices below threads x lane elements x chunks |
| StreamGeometry.IndexNeverWraps | babel.so/src/rvs_stream.cpp:505-514 | the index computed in 32-bit arithmetic is the exact one whenever the touched range fits in 32 bits |
| StreamGeometry.CoverageIff | babel.so/src/rvs_stream.cpp:524-537 | the launched instance covers exactly the configured array if and only if lanes are of two or four elements in one, two or four chunks, a thread moves eight elements, or there is no thread |
| StreamGeometry.LaunchedShapes | babel.so/src/rvs_stream.cpp:524-537 | what a launch touches, shape by shape: the six shapes with an instance are launched as they are, any other moves eight elements per thread |
| StreamGeometry.LaunchCoversIff | babel.so/src/rvs_stream.cpp:524-537 | for every accepted configuration, wrapped or not: the launch covers the array if and only if the instance moves per block what the checks divided by, and stays inside it if and only if it moves no more |
| StreamGeometry.InitCoversOnce | babel.so/src/rvs_stream.cpp:235-251 | every index of a whole block belongs to exactly one thread of the initial kernel's grid and no other index does; these are all indices if and only if the block size divides the array |
| StreamKernels.KernelsMean | babel.so/src/rvs_stream.cpp:371-700 | what each of the six kernels makes of the three elements, with the numbers they are compiled with; reading changes nothing |
| StreamKernels.LaunchPartitions | babel.so/src/rvs_stream.cpp:505-514 | the threads of a launch partition the elements, with an explicit inverse of the index map |
| StreamKernels.LoadStep | babel.so/src/rvs_stream.cpp:512 | a load, at any point of any interleaving, sees the value from before the launch |
| StreamKernels.StoreStep | babel.so/src/rvs_stream.cpp:512 | a store completes exactly one element and disturbs no other |
| StreamKernels.HipStream.RunThreads | babel.so/src/rvs_stream.cpp:500-516 | threads that interleave their loads and stores in any way leave what applying the kernel once to every element leaves |
| StreamKernels.HipStream.Launch | babel.so/src/rvs_stream.cpp:518-560 | a launch of any of the six kernels applies the kernel once to every element the launch touches and leaves the others alone, whatever the shape; for lanes of two or four elements in one, two or four chunks these are the first chunks x threads x lane elements, otherwise the first eight per thread |
| StreamKernels.HipStream.ExtentIs | babel.so/src/rvs_stream.cpp:524-537 | the same number for a stream of any shape |
| StreamKernels.HipStream.InitArrays | babel.so/src/rvs_stream.cpp:235-251 | with the threads of the grid in any order, all elements of whole blocks get the initial values and the others keep theirs |
| StreamKernels.NewStream | babel.so/src/rvs_stream.cpp:141-189 | a stream results if and only if the checks accept the sizes, with the exact conditions under which its launches cover its arrays and stay inside them; they always do for the six shapes with an instance, with fewer than 65536 threads |
| StreamSums.ThreadsSumEverything | babel.so/src/rvs_stream.cpp:782-795 | the strided partial sums of all threads add up to the sum over the whole array |
| StreamSums.HalvingKeepsSum | babel.so/src/rvs_stream.cpp:760-766 | folding the upper half of the shared array onto the lower half, as far as there are threads, keeps the sum of the slots that count |
| StreamSums.ReducedIsActivePlusStale | babel.so/src/rvs_stream.cpp:747-777 | the reduction gives the sum of the threads' slots plus that of certain slots without a thread |
| StreamSums.StaleNeverMattersIff | babel.so/src/rvs_stream.cpp:863 | slots without a thread never change the result if and only if there is a thread for every slot |
| StreamDot.ReduceLevel | babel.so/src/rvs_stream.cpp:760-763 | one level of the reduction, its threads in any order, adds each upper slot to its lower one where there is a thread for it |
| StreamDot.Reduce | babel.so/src/rvs_stream.cpp:747-777 | the tree reduction leaves the sum of all slots that count in the first one, for every power of two and any number of threads |
| StreamDot.ThreadPartial | babel.so/src/rvs_stream.cpp:782-792 | a thread's accumulator is the sum of the products over its own chunks and lane elements |
| StreamDot.BlockSum | babel.so/src/rvs_stream.cpp:794-807 | a block contributes the sum of its threads' partial sums plus what the stale slots of its shared memory contribute |
| StreamDot.RunBlocks | babel.so/src/rvs_stream.cpp:779-808 | the blocks' results add up to the dot product of the elements touched, plus the stale slots |
| StreamDot.Dot | babel.so/src/rvs_stream.cpp:811-872 | dot() returns exactly the dot product of the elements touched with 1024 threads in any shape and with 512 in the six shapes that have an instance; that plus the stale slots when the fallback runs with fewer than 1024; and the sum of what the block buffer held when it launches nothing |
| StreamStress.GoldPredictsIff | babel.so/src/rvs_stress.cpp:549-570 | the scalar recurrence describes a run of k > 0 iterations if and only if copy, mul, add and triad are enabled |
| StreamStress.GoldClosedForm | babel.so/src/rvs_stress.cpp:552-570 | the predicted values in closed form: 0.096, 0.04 and 0.14 times 0.96 to the power of the further iterations |
| StreamStress.GoldRatios | babel.so/src/rvs_stress.cpp:560-570 | the predicted values are positive, decay and keep fixed ratios |
| StreamStress.TriadOnlyRun | babel.so/src/rvs_stress.cpp:474-480 | the triad-only loop is described by the recurrence's triad_only branch |
| StreamStress.StaleTriadFlag | babel.so/src/rvs_stress.cpp:563-569 | with the flag left on, the prediction differs from the full one for every k > 0 |
| StreamStress.RunStress | babel.so/src/rvs_stress.cpp:187-254 | after k iterations every element a launch touches has gone through k rounds of the enabled subtests and the others are unchanged, every enabled subtest has exactly k timings and the others none, and the sum is the dot product of the final arrays |
| StreamStress.CollectedCounts | babel.so/src/rvs_stress.cpp:187-252 | which of the seven lists of timings belongs to which subtest |
| StreamStress.PredictGold | babel.so/src/rvs_stress.cpp:552-570 | check_solution's loop computes the recurrence |
| StreamStress.DistanceZeroIff | babel.so/src/rvs_stress.cpp:576-581 | an accumulated error is never negative, and zero if and only if every value is the predicted one |
| StreamStress.AverageZeroIff | babel.so/src/rvs_stress.cpp:576-581 | the same for the average error |
| StreamStress.DistanceOfShift | babel.so/src/rvs_stress.cpp:576-581 | values that are all off by d accumulate the error n times d |
| StreamStress.AverageOfShift | babel.so/src/rvs_stress.cpp:576-581 | and are off by d on average |
| StreamStress.CheckSolution | babel.so/src/rvs_stress.cpp:549-599 | which of the four validations complain, for any arrays, sum and tolerance |
| StreamStress.RunAndCheck | babel.so/src/rvs_stress.cpp:549-599 | the main loop followed by the check, whose call stands commented out behind it: a full run from the default start values, under any thread interleaving, draws no complaint about the arrays, and none about the sum when dot is enabled |
| StreamStress.Summarise | babel.so/src/rvs_stress.cpp:316-338 | extremes and mean of the samples without the first; min time <= average <= max time, and Min <= Avg <= Max bandwidth |
| StreamStress.ReportSubtests | babel.so/src/rvs_stress.cpp:316-338 | exactly the enabled subtests of a run with at least two iterations are reported, each with the extremes and the mean of its own timings without the first, in order |
| MxAlign.DataMeetsItsScale | src/rvs_blas.cpp:2363-2373 | the datum moved to a position belongs to the block whose scale that position uses |
| MxAlign.PositionMeans | src/rvs_blas.cpp:2363-2373 | row and depth of an element decide its scale and, within that block, its datum |
| MxAlign.FirstBlockMeans | src/rvs_blas.cpp:2351-2373 | the first block, as the comment's table has it |
| MxAlign.PositionUndoesDataId | src/rvs_blas.cpp:2363-2373 | the index map has a left inverse, so no datum is used twice |
| MxAlign.DataIdUndoesPosition | src/rvs_blas.cpp:2363-2373 | and it is a right inverse too, so every datum is used |
| MxAlign.ReadsInRangeIff | src/rvs_blas.cpp:2363-2373 | all reads stay inside the matrix if and only if the block length divides the depth or there is one row |
| MxAlign.DataIdsPermute | src/rvs_blas.cpp:2363-2373 | with whole blocks the index map is a permutation, and every scale index is below the number of scales |
| MxAlign.AlignmentPermutes | src/rvs_blas.cpp:2363-2373 | the same wherever the reads stay inside, a single row with a partial last block included |
| MxAlign.PermutedIsRearranged | src/rvs_blas.cpp:2320-2325 | reading a sequence through a permutation gives a rearrangement of it |
| MxAlign.ScaleCount | src/rvs_blas.cpp:217-221 | the constructor's scale size is the number of blocks |
| MxAlign.GetAlignedFloat | src/rvs_blas.cpp:2320-2396 | the data come out rearranged, each at its position, with the reference value of that datum under its own scale |
| MxAlign.AlignLoop | src/rvs_blas.cpp:2362-2374 | the loop's iterations may run in any order |
| MxPack.UnpackData4 | src/rvs_blas.cpp:2251-2262 | FP4 unpacking: the low nibble, then the high one, of every byte |
| MxPack.NibbleOrder | src/rvs_blas.cpp:2251-2262 | a byte is its first nibble and, four bits higher, its second |
| MxPack.PackData4 | src/rvs_blas.cpp:2295-2303 | FP4 packing of consecutive pairs; bytes behind the packed data are not touched |
| MxPack.PackUndoesUnpack4 | src/rvs_blas.cpp:2447-2455 | FP4 packing undoes unpacking on every byte string |
| MxPack.UnpackUndoesPack4Iff | src/rvs_blas.cpp:2447-2455 | FP4 unpacking undoes packing if and only if the length is even and every element is a nibble |
| MxPack.AlignPacked4 | src/rvs_blas.cpp:2447-2455 | unpack, align, pack: every nibble position holds the generator's nibble for it, and the reference value is that nibble under its block's scale |
| MxPack.UnpackData6 | src/rvs_blas.cpp:2225-2250 | FP6 unpacking of any byte string, including the elements the loop never reaches |
| MxPack.ElementsAreSixBits | src/rvs_blas.cpp:2225-2250 | unpacking takes the bits of three bytes six at a time, from the lowest |
| MxPack.PackingMisplacesThird | src/rvs_blas.cpp:2285-2291 | packing puts three of four elements where unpacking looks for them, and of the third only two bits, two places too high |
| MxPack.PackReadsInRangeIff | src/rvs_blas.cpp:2278-2293 | FP6 packing reads inside its input if and only if at most one element is left over from the last group |
| MxPack.UnpackedCanBePackedIff | src/rvs_blas.cpp:2440-2444 | unpacked FP6 data can be packed in range if and only if not just two bytes are left over |
| MxPack.PackData6 | src/rvs_blas.cpp:2275-2293 | FP6 packing, wherever it reads in range: group by group, bytes behind the whole groups not touched |
| MxPack.Group6RoundTripIff | src/rvs_blas.cpp:2285-2291 | four six-bit elements survive packing if and only if the third is zero |
| MxPack.Bytes6RoundTripIff | src/rvs_blas.cpp:2285-2291 | which three-byte groups survive unpacking and packing, for every set of elements the loop leaves out |
| MxPack.Fp6RoundTripIff | src/rvs_blas.cpp:2440-2446 | FP6 packing undoes unpacking of the whole groups of any byte string if and only if every dropped element was zero |
| HostGemm.ColumnMajorFitsIff | src/rvs_blas.cpp:150-153 | a column-major matrix fits its computed size if and only if the leading dimension is at least its row count |
| HostGemm.OperandFitsIff | src/rvs_blas.cpp:2030-2043 | an operand, transposed or not, is read inside its storage if and only if its leading dimension is at least its stored row count |
| HostGemm.OperandMeans | src/rvs_blas.cpp:2030-2043 | where an element of an operand, transposed or not, is read, and how much is stored for it |
| HostGemm.RocReadsInsideAIff | src/rvs_blas.cpp:138-151 | the exact condition under which the rocBLAS branch's leading dimension keeps reads of matrix A inside it |
| HostGemm.RocReadsInsideBIff | src/rvs_blas.cpp:138-152 | the same for matrix B |
| HostGemm.OutputCheckInsideIff | src/rvs_blas.cpp:2005-2012 | the consistency check of output D, read in columns of C's leading dimension, stays inside D if and only if its last element does |
| HostGemm.HipLtLeadingSuffices | src/rvs_blas.cpp:190-210 | the matrix layouts of the hipBLASLt branch lie inside their buffers, for every leading dimension asked for |
| HostGemm.InnerProduct | src/rvs_blas.cpp:1662-1666 | the accumulator is the strided inner product |
| HostGemm.MulRow | src/rvs_blas.cpp:1660-1668 | one row of the result, all other rows and the padding unchanged |
| HostGemm.HostMatrixMul | src/rvs_blas.cpp:1643-1670 | every C(i, j) becomes alpha times the product's entry plus beta times its old value, and no other cell changes |
| HostGemm.DiagonalOperand | src/rvs_blas.cpp:1660-1668 | multiplying by a diagonal matrix takes each column of the left operand times its diagonal entry |
| HostGemm.IdentityOperand | src/rvs_blas.cpp:1660-1668 | the identity with alpha = 1 gives the left operand back plus beta times the old value; alpha = 0 leaves only that |
| HostGemm.ResultScales | src/rvs_blas.cpp:1660-1668 | in general the product counts alpha times |
| HostGemm.AccuracyReference | src/rvs_blas.cpp:2028-2098 | the same for each of the four transpose combinations under the strides the caller chooses, with all reads in range |
| HostGemm.PaddingIsOutside | src/rvs_blas.cpp:1668 | the cells between m and ldc of a column belong to no element, so they are among the unchanged ones |
| NormCheck.AbsorbKeeps | src/rvs_blas.cpp:1683-1694 | one element adds its square root to sumsq times root(scale), and scale stays the largest magnitude, whichever branch is taken |
| NormCheck.Lassq | src/rvs_blas.cpp:1675-1698 | the pair after a column stands for the column's largest magnitude and sum of roots |
| NormCheck.Combssq | src/rvs_blas.cpp:1703-1722 | combining two pairs takes the larger scale and adds what they stand for |
| NormCheck.CalculateNormF | src/rvs_blas.cpp:1761-1780 | the column-by-column computation equals a closed form over all m x n entries, whatever the padding holds |
| NormCheck.NormBounds | src/rvs_blas.cpp:1761-1780 | the norm lies between the largest magnitude and that times the root of the number of entries |
| NormCheck.NormZeroIff | src/rvs_blas.cpp:1761-1780 | the norm is zero if and only if every entry is |
| NormCheck.NormScales | src/rvs_blas.cpp:1761-1780 | scaling every entry by c scales the norm by c |
| NormCheck.NormOfMagnitudes | src/rvs_blas.cpp:1761-1780 | the norm does not see signs |
| NormCheck.FrobeniusIff | src/rvs_blas.cpp:1761-1780 | the norm is at least the Frobenius norm, and equal to it if and only if all non-zero entries have one magnitude |
| NormError.CopyTight | src/rvs_blas.cpp:1825-1834 | the copies hold exactly the m x n entries without the padding |
| NormError.Axpy | src/rvs_blas.cpp:1787-1795 | the element-wise difference |
| NormError.CheckNormError | src/rvs_blas.cpp:1809-1841 | the error is the norm of the entry-wise difference over the norm of the reference, both without padding; it is zero if and only if the matrices agree on every element |
| NormError.DeviationIsError | src/rvs_blas.cpp:1809-1841 | a second matrix that deviates from the reference by the share t in every element, whatever the padding holds, has the absolute value of t as its error |
| NormError.ZerosHaveErrorOne | src/rvs_blas.cpp:1809-1841 | a second matrix of zeros has the error 1 |
| RotatingBuffer.BlockCountRange | src/rvs_blas.cpp:261-262 | at least one copy, and never more than there are timed calls |
| RotatingBuffer.CopiesCoverRequestIff | src/rvs_blas.cpp:253-262 | for every request: the copies hold the rotating size, or there is one per timed call, if and only if the request is below 4 GiB, fits one copy, there is at most one timed call, or what the wrap-around leaves asks for one copy per timed call |
| RotatingBuffer.NoCopyTooMany | src/rvs_blas.cpp:253-262 | one copy fewer would not hold what the wrap-around leaves |
| RotatingBuffer.FourGiBAreNotCovered | src/rvs_blas.cpp:262 | a concrete request that is not covered |
| RotatingBuffer.RequestWrapsAt4GiB | src/rvs_blas.cpp:262 | only the low twelve bits of the requested number of MiB count |
| RotatingBuffer.CopyToCopies | src/rvs_blas.cpp:477-495 | copy after copy equals the host matrix up to the first one the device refuses; true is returned if and only if it refuses none, and nothing is tried after a refusal |
| RotatingBuffer.EveryCallSeesHostMatrix | src/rvs_blas.cpp:1225-1226 | every call gets a slice inside the allocation that equals the host matrix |
| RotatingBuffer.ConsecutiveCallsAreDisjoint | src/rvs_blas.cpp:1225-1226 | any block_count consecutive calls use pairwise disjoint slices |
| RotatingBuffer.CopiesRepeat | src/rvs_blas.cpp:1225-1226 | a slice comes back after block_count calls |
| CopyTime.CopyTicksMeasureUnion | src/rvshsa.cpp:543-584 | for well-formed intervals the copy time is the number of ticks in the union of the two copies |
| CopyTime.CopyTicksBounds | src/rvshsa.cpp:543-584 | symmetric, between the longer copy and both together, and exactly both together when they do not overlap |
| HsaTraffic.Runtime.GetCopyTime | src/rvshsa.cpp:543-584 | the method computes that time from the profiles of its two signals |
| HsaTraffic.Agent.ProcessMemPool | src/rvshsa.cpp:431-514 | a pool is listed if and only if it is global and allocatable, and both lists grow together |
| HsaTraffic.FindAgent | src/rvshsa.cpp:523-530 | the first agent on the node, or -1 when there is none |
| PoolSearch.EveryDestinationDenied | src/rvshsa.cpp:626-712 | what a fruitless search says: every destination pool that is large enough was asked, and refused or had its last access request denied |
| PoolSearch.EverySourceFruitless | src/rvshsa.cpp:607-717 | the same for source pools: each refused, or gave a buffer no destination pool would serve |
| PoolSearch.AdmittedMeans | src/rvshsa.cpp:626-712 | which answers of the runtime a destination pool that admits the transfer has had |
| PoolSearch.UsableMeans | src/rvshsa.cpp:607-717 | the same for a pair of pools, both of them large enough |
| HsaTraffic.AllocateDestination | src/rvshsa.cpp:626-712 | the runtime's answers are those of a search through the destination pools in order that ends at the first one to admit the transfer, whose buffer is returned, or at none, leaving nothing allocated |
| HsaTraffic.Allocate | src/rvshsa.cpp:599-726 | two fresh buffers, given by the pools that are returned, of the first pair that admits the transfer; -1 exactly after a search that found no pair, with nothing left allocated and the caller's pointers untouched |
| HsaTraffic.Acquire | src/rvshsa.cpp:785-841 | after a refusal no buffer is left; a signal is left if and only if the refused request was the third of the iteration, the reverse allocation |
| HsaTraffic.Release | src/rvshsa.cpp:887-899 | everything an iteration holds is given back once |
| HsaTraffic.Iterate | src/rvshsa.cpp:844-900 | one iteration starts exactly its lanes' copies, between live buffers, adds to the duration when they ran unless it is a warm one, and keeps or gives back its handles |
| HsaTraffic.SendTraffic | src/rvshsa.cpp:744-918 | success if and only if both agents exist and everything asked for, between these two, was granted; every buffer is given back exactly once and none is used afterwards; a signal is left if and only if the last request was a refused reverse allocation, so never in one direction; the iterations measured are exactly those after the warm ones, 10^9 times the duration is the number of ticks in which a copy was under way in them, and on success all iterations have been carried out |
| HsaTraffic.DurationCountsTicks | src/rvshsa.cpp:878-885 | in any state between iterations too, the duration in nanoseconds counts the ticks of the union of each measured iteration's copies |
| HsaTraffic.FollowsMeans | src/rvshsa.cpp:782-841 | request by request: buffers, then a signal, and in both directions the same again with the two agents exchanged |
| HsaTraffic.CarriedMeans | src/rvshsa.cpp:782-900 | how many requests and iterations there are when nothing is refused |
| HsaTraffic.TimedIterationsIff | src/rvshsa.cpp:785 | hot_calls transfers are timed if and only if warm_calls + hot_calls does not overflow 32 bits |
| Timer.DueIff | include/rvstimer.h:126-127 | the deadline test succeeds if and only if less than a millisecond is missing |
| Timer.DueBeforeDeadline | include/rvstimer.h:126-127 | a concrete early tick |
| Timer.NextKeepsInv | include/rvstimer.h:80-144 | every statement of either thread keeps the protocol's invariant |
| Timer.RunKeepsInv | include/rvstimer.h:80-144 | so does every interleaved run |
| Timer.EveryRunIsSafe | include/rvstimer.h:119-144 | in every run a callback runs only when less than a millisecond of the interval it was armed for is missing, and a timer never started for periodic ticks has called back at most as often as it was started |
| Timer.TicksWaitTheirInterval | include/rvstimer.h:80-144 | a timer only ever started for one interval never calls back before that interval, short of a millisecond, has passed since it was armed |
| Timer.TicksAreApart | include/rvstimer.h:80-144 | pace: if the clock never goes back and the latest start before a callback asked for v milliseconds and is over, then without another start the test behind the next callback reads the clock more than v milliseconds, short of one, after the test behind this one; for every interleaving, whatever went before |
| Timer.FirstTickWaits | include/rvstimer.h:80-144 | the first callback after any start of a timer that is not running comes no earlier than the interval, short of a millisecond, after start() was called |
| Timer.NextTickCanCome | include/rvstimer.h:119-144 | no periodic tick is the last one: the timer thread can go on to its next callback by itself |
| Timer.IntervalTakesEffect | include/rvstimer.h:80-89 | the interval of the latest start is the one in force once that start is over, whatever went before |
| Timer.OverlappingStartDoublesTick | include/rvstimer.h:80-144 | while a start of a periodic timer that is running is under way, two callbacks can come of the same reading of the clock |
| Timer.OneTickPerStart | include/rvstimer.h:80-144 | each single-tick start of a timer that is not running calls back at most once until the next start, whatever went before, not earlier than a millisecond before its own interval is over, and exactly once if its thread runs to the end without a stop |
| Timer.NoCallbackAfterStop | include/rvstimer.h:100-112 | once stop() has returned no callback begins until the next start() |
| Timer.StopReturnsJoined | include/rvstimer.h:107-109 | stop() returns only with the timer thread joined and the flag down |
| Timer.StopProgress | include/rvstimer.h:119-144 | while stop() waits, the timer thread can always step until it has exited, and every step brings it closer |
| Timer.WorkerTerminates | include/rvstimer.h:119-144 | after the flag is down the timer thread takes at most seven more steps |
| Timer.StartIsSafeIff | include/rvstimer.h:80-89 | in every state a disciplined program can be in when it calls start(): no run with that one start terminates the program, if and only if the timer has been stopped or has only had, and is given, periodic starts |
| Timer.ForbiddenStartCanCrash | include/rvstimer.h:80-144 | every other start has a schedule, without stops and further starts, that terminates the program |
| Timer.DisciplinedRunsNeverCrash | include/rvstimer.h:80-89 | no run crashes that starts only joined timers or restarts periodic ones |
| Timer.DisciplinedProgramIsSafe | include/rvstimer.h:80-144 | a program that has kept to the discipline from the beginning is in a state StartIsSafeIff speaks of |
| Timer.RestartAfterTickCrashes | include/rvstimer.h:80-89 | restarting after a single tick without stop() terminates the program |
| Timer.TickedStateIsReachable | include/rvstimer.h:119-144 | such a state is reached by an ordinary run |

## Left out

- Foreign calls (HIP, rocBLAS, hipBLASLt, hipRAND, HSA, DGen, the clocks): their results are arbitrary values within a contract.
- Rounding, NaN, infinities and the guard against denormals in the read kernel: values are exact reals; `sqrt` is any function whose square gives back every non-negative number; the block count's float quotient is an exact one.
- Data races inside single statements: each shared read or write is one atomic step, in one global order.
- ConfigList.StrSplit: positions are unbounded where the source keeps them in `int`; an empty delimiter with a non-empty string is excluded because the loop does not end (SplitLoopTerminatesIff).
- ConfigList.ActionBase.PropertyGetUintList: excludes only the case in which the splitter does not return: an empty delimiter with a value that is neither empty nor "all".
- JsonLogger.FileParsesIff: asks for names without quote, backslash and control characters, because the printer escapes nothing, and covers runs that are not stopped (see LoggerRuns.StoppedRunParsesIff for those that are).
- JsonLogger.Record.Add: child vectors are values of the node, not shared heap objects; deleting nodes is not modelled.
- The logger's console and plain-text output, the patching of an existing file in append mode, and file-system failures.
- StreamGeometry.AcceptedSizesFit: the special case of AcceptedSizesFitIff for covering shapes and fewer than 65536 threads per block, far above what a device allows.
- StreamKernels.NewStream: the device memory check is left out.
- StreamKernels.HipStream.Launch: a launch that would reach beyond the arrays, which LaunchCoversIff tells from the sizes, is excluded.
- StreamDot.Dot: more than 1024 threads per block, the kernels' launch bound, are excluded outside the launch table.
- StreamStress.RunStress: duration mode is the same loop for however many iterations begin in time; the clock is not modelled.
- StreamStress.Summarise: needs two samples, as the source does (with one it reads past the end of the vector).
- MxAlign.GetAlignedFloat: asks for reads inside the matrix (the condition of ReadsInRangeIff), a scale for every block begun, and at least one row.
- MxPack.PackData6: input that would make it read behind its end is excluded, exactly as PackReadsInRangeIff says.
- MxPack.AlignPacked4: under GetAlignedFloat's conditions; the FP8 path is GetAlignedFloat alone; for FP6 alignment and packing are proved separately, and their composition is left out because packing is lossy there.
- HostGemm.HostMatrixMul: dimensions and strides are non-negative and products do not overflow `int`; batches and strides between them are not modelled.
- HostGemm.AccuracyReference: asks for leading dimensions of at least the stored row counts, which OperandFitsIff shows to be necessary for non-empty operands.
- NormCheck.CalculateNormF: the 'O' and 'I' norms, negative leading dimensions and negative increments are not modelled.
- NormError.CheckNormError: a zero reference norm is excluded; the source divides by it.
- RotatingBuffer.CopyToCopies: matrices A and B; the scale copies of A go to the first slot only (`src/rvs_blas.cpp:509-510`), and device-side initialisation, C and D are left out.
- RotatingBuffer.CopiesCoverRequestIff: a total size of zero, by which the source would divide, is excluded.
- HsaTraffic.AllocateDestination: with two GPUs the second access status overwrites the first, so only the destination agent's grant is promised; failed property queries of pools are left out.
- HsaTraffic.SendTraffic: copies that fail to start (the wait that follows would not end) and profiler intervals that end before they start are left out.
- Timer.NoCallbackAfterStop: callbacks that do not return, or that call start() or stop() themselves, are left out.
- GST, IET, EDP and gm workers, PCI decoding, GPU lists, configuration readers and module entry points.
