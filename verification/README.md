# vqro's single-series storage engine, modelled and proved in Dafny

The project follows a datapoint from a client write to a client read:

1. `WriteBuffer` keeps it in memory, in fixed-size allocations (`WriteBuffer.dfy`).
2. A flush gathers the sorted buffer (`GatherSlots.dfy`) and spreads it over the sparse files of the
   series' directory, or over new files put between them (`Directory.dfy`, `SparseFile.dfy`, `FileIO.dfy`).
3. A read locates a file, walks on from it, adds what the buffer has beyond, and does so again for each
   chunk of the answer (`Directory.dfy`, `SparseFile.dfy`, `Series.dfy`).
4. A sparse file that grew may be rewritten as a dense or constant file (`Conversion.dfy`).

Beside it stand the worker queues that run all this (`Worker.dfy`), the names of files (`FileNames.dfy`)
and the keys of series (`SeriesKey.dfy`).

What the source changes in place is a class here, with loops and invariants; each method is proved
against a function on values. The laws are proved about those functions:

| file | what it is about |
|---|---|
| `Numbers.dfy`, `Datapoints.dfy`, `Outcomes.dfy` | positive numbers; points, windows, order; what a call can come to |
| `LogView.dfy` | what an append-only log with repeats means |
| `Reads.dfy` | a read in progress; what one file and what the buffer adds |
| `FileSearch.dfy` | the search for the first file, step by step |
| `FileList.dfy`, `SeriesReads.dfy` | reads over all files; chunks |
| `FileWrites.dfy`, `FileOrder.dfy`, `WriteOutcomes.dfy` | writes over all files; when they stay apart in time; when they return |
| `History.dfy` | every run of appends, sorts and flushes; end-to-end reads |
| `CppDivision.dfy`, `PositionalFiles.dfy`, `DenseFile.dfy` | files addressed by position |
| `FileValues.dfy` | arrays of records through a file descriptor |

## How a call that goes wrong is modelled

The search for a file can run forever, a gather vector can make the source write memory that is not its own, and
the standard library can be handed something it promises no result for. A call comes to `Returned`, `Hangs`,
`Corrupts` or `Undefined`; nothing is said about what follows the last three. There are two ways to the last:

- A buffer flagged as unsorted is sorted by `std::stable_sort`, over iterators whose prefix steps return the position
  before the step (`vqro/db/datapoint_buffer.h:51-52`). That is not what the library asks of an iterator, and a step
  back whose value is used lands one point too far on. Which buffers the library sorts all the same is a parameter of
  the results, `works` (`sortWorks` in the classes), a predicate on buffers that may hold of none: where it holds the
  buffer is put in stable order, where not nothing is said. Loops that only move the iterator, and
  `std::upper_bound`, do not use what a step gives and are taken as they are meant.
- `std::upper_bound` over a buffer whose points up to a bound do not all stand in front of the others
  (`GatherSlots.SplitsAt`), which takes a buffer flagged as sorted that is not.

Which functions are what:

- As written, for every input over an ordered list of files: `SearchExact` and the loop `FindFirstPotentialFile`;
  `GetIOVector` and the slots it fills; `DirectoryRead`, `DirectoryWrite`, `ChunkedRead`, `CallOutcome`, `ReadChunked`,
  `Read`, `SortOutcome`, `FlushOutcome`, `RunOutcome`, `RunThenRead`, `FlushThenRead`, `FlushingRead` and the methods
  proved against them. `ReadOutcome` is a read with a buffer that is sorted.
- Values of calls that return: `ReadDirectory`, `SeriesRead`, `Chunks`, `WriteFiles`, `WriteDirectory`, `Do` and
  `Run` say what such a call gives. Reads walk from the file the search returns. `WriteDirectory`, `Do` and `Run` write
  from `Located`, the file the search's comment promises; `FileSearch.FoundIsLocated` shows that over files in strict
  order it is the one a search that returns has found. Lemmas about these functions carry no promise that the call
  returns; the ones with rows below that do are stated about the outcomes.

## Main results

- `History.EveryRunAsWritten`: after any allowed run of writes, sorts and flushes from an empty series, the state
  has been reached and is in step with everything accepted if and only if every sort and flush of the run returned.
  Allowed means that each ordered batch starts no earlier than the buffered end, and that each flush satisfies the
  condition of `FileOrder.WriteKeepsSeparateExactly`. `History.EveryRunConserves`: whatever the batches, a run that
  has returned holds each accepted point exactly once.
- `History.ReadIsHistory`: a read after an allowed run, with a buffer that is empty or newer than the files, gives the
  current points of everything accepted in its window, for any read buffer size, if and only if the sorts, flushes and
  searches return and those points do not overlap.
- `History.FlushTransparent`: a flush of newer points changes no read that returned, if and only if the flush and the
  read after it return. `History.FlushingReadShows`: nor do flushes between the chunks of a read that returns.
  `History.NewerFlushExact`: which of these flushes return, in terms of the number of files, the room of the last one,
  the limit and the allocation size. `History.ThirdFileIsFinal`: with a third file none of them ever does.
- `FileSearch.HaltsExactly`: when the search for the first file returns. `SeriesReads.CursorsExactly`,
  `SeriesReads.ChunkSizeExact`: which chunked reads return, and that the size of the buffer decides it.
- `GatherSlots.SlotsRightExactly`, `WriteOutcomes.CursorsExactly`: when a gather vector holds its pieces, and which
  cursors of a directory write make the code as written store the points it should.
- `LogView.ViewIsFold`: the sort, the lookahead and the back-scan of a sparse read compute the fold of the log
  by the rule "the last write with the first write's duration".
- `WriteOutcomes.ReturnedSeparateExactly`: the condition under which a directory write keeps the files apart.
- `Conversions.DenseConversionExact`, `Conversions.ConstantConversionExact` and the two about windows: which
  conversions keep a file's meaning. `Conversions.DenseBranchExact`: hardly any dense one does.
  `DenseFiles.AppendExact`: which points may be added to a dense file.
- `Workers.QueueSafe`, `Workers.SeriesInOrder`, `Workers.StopLimits`: every interleaving of the worker threads.

## Where the code differs from what it promises

- The search computes its middle without adding `left` (`vqro/db/datapoint_directory.cc:141`). It loops forever as
  soon as it has to go left with three or more files still in view (`FileSearch.HaltsExactly`). When it returns it
  has found the file its comment promises, unless several files start at exactly that time (`FileSearch.FoundExactly`).
- Gather slots are numbered by allocation and counted as if the write began at the start of one
  (`vqro/db/write_buffer.h:72-75`, `101-102`). `GatherSlots.SlotsRightExactly` says when that is right;
  `WriteOutcomes.LateCursorCorrupts` that a write which still has points to store past the first allocation of
  the buffer never is.
- The iterator over buffered points has its increments and decrements swapped: `it++` gives the position it has moved
  to (`vqro/db/datapoint_buffer.h:51-54`). A dense write fills its slots through it (`vqro/db/dense_file.cc:108`), so
  each slot gets the value of the next point, and the last one whatever stands behind the buffer: `beyond`, any value
  at all. `DenseFiles.AppendExact`: what is added is right only if all values are one and the same.
  `Conversions.DenseBranchExact`: of the files the optimizer makes dense, it keeps only those that start one duration
  after time zero, with a zero; there the zero that a hole in the file reads as shifts the values back. Sorts of the
  buffer go through the same iterator, see above.
- `sorted` is not checked across two appends (`vqro/db/write_buffer.cc:31`, `45-47`): `History.AppendHonestExactly`.
- A full file is passed over before its min is looked at (`vqro/db/datapoint_directory.cc:79-82`):
  `FileOrder.FullFileBreaks`. A limit can cut a timestamp in two; newer points then still keep the looser order of
  `WriteOutcomes.NewerLooseExact`.
- `max_timestamp` is raised by what is buffered, not by what is written, up to a bound (`vqro/db/sparse_file.cc:133-139`).
  `FileWrites.Raised` is that maximum; reads are proved with it.
- A sparse read ends at the first overlap (`vqro/db/sparse_file.cc:102-106`): `Reads.ReadViewComplete`; and how much is
  lost depends on the size of the read buffer: `SeriesReads.OverlapShowsBufferSize`.
- Dense files: the write offset ignores the file's start (`Conversions.DenseFullExact`), inner gaps are not padded
  (`DenseFiles.AppendExact`), NaN slots do not move the clock of a read (`PositionalFiles.PaddingExact`), and an
  unaligned end is rounded down (`PositionalFiles.DenseWindowExact`). Files with an unaligned start give points at other
  times than those they stand for (`PositionalFiles.UnalignedDenseWindow`, `UnalignedConstantWindow`). Alignment is
  counted from time zero and goes too far for unaligned times before zero (`CppDivision.AlignExact`). The space left in
  a read is never checked; the reads of `DenseFile.dfy` stop there and report it.
- A conversion reads the sparse file with an ordinary read buffer and then deletes it; what did not fit is lost
  (`Conversions.DenseConversionExact`, `Conversions.ConstantConversionExact`). As written both conversions throw in a
  directory of sparse files, because the constructor of a dense file asks for the size of a file that does not exist
  yet (`vqro/db/dense_file.h:30`), and the write of a constant file renames one that does not exist
  (`vqro/db/constant_file.cc:96-97`): `Conversions.EveryConversionThrows`. The results about what a conversion keeps are
  about one that finds an empty file under the new name.
- A constant file's name lacks its value and is accepted by no parser (`FileNames.ConstantNameLost`); the name of an
  optimized sparse file is accepted only if a byte behind its terminator is zero (`FileNames.SparseRoundTrip`).
- A short read that is not a whole number of records drops bytes and goes on behind them (`FileValues.ReadExact`).
- Any series with two labels or more shares its key with a series of one label (`SeriesKeys.KeyUniqueExactly`).

## Model

| member | source | states |
|---|---|---|
| LogView.StableSortSpec | vqro/db/sparse_file.cc:88-91 | the sort orders its input, is a permutation of it, and keeps the order of points with equal timestamps |
| LogView.ViewIsFold | vqro/db/sparse_file.cc:88-127 | what a sparse file shows is, in strictly increasing time order, exactly the fold of its log into a map in which a repeat counts only with the duration written first |
| LogView.OtherDurationIgnored | vqro/db/sparse_file.cc:108-110 | a repeat with another duration than the first changes nothing |
| LogView.ViewUnique | vqro/db/sparse_file.cc:88-91 | two logs with the same writes in the same order at each timestamp show the same |
| Reads.ReadOperation.constructor | vqro/db/read_op.h:17-30 | a new read has emitted nothing and starts at its start time |
| Reads.ReadOperation.Append | vqro/db/read_op.h:49-52 | the point is added to the emitted ones, the clock moves to its end, one slot less is left |
| Reads.ReadOperation.Advance | vqro/db/read_op.h:44-47 | the clock moves to the end of the point under the cursor; duration zero counts as one |
| Reads.ReadOperation.ClearBuffer | vqro/db/read_op.h:56 | forgets the emitted points and keeps the clock |
| Reads.ContinuesMeans | vqro/db/read_op.h:44-57 | a sequence each of whose points starts where the one before has ended is one inside the window without overlaps |
| Reads.ReadViewContinues | vqro/db/sparse_file.cc:102-127 | one file's share of a read never overlaps and stays in the window |
| Reads.ReadViewIsWindow | vqro/db/sparse_file.cc:93-127 | a file without overlaps in the window gives the first points of the window, as many as there is space for |
| Reads.ReadViewComplete | vqro/db/sparse_file.cc:102-106 | with enough space a file gives its whole window if and only if the points in it do not overlap |
| Reads.OverlapLosesLaterPoints | vqro/db/sparse_file.cc:102-106 | a concrete file in which a point that overlaps nothing is lost behind an overlap |
| Reads.TakeGreedyIsWindow | vqro/db/series.cc:41-48 | the loop over the buffer gives the first points of the window if they do not overlap |
| Reads.TakeGreedyResume | vqro/db/series.cc:41-48 | a loop over the buffer that filled up goes on as if it had never stopped |
| FileSearch.SearchExact | vqro/db/datapoint_directory.cc:133-150 | over any ordered list of mins, repeats included, the search ends if and only if the halving probes meet no older file while three or more are in view, and every run that ends returns the file `Found` |
| FileSearch.HaltsExactly | vqro/db/datapoint_directory.cc:140-148 | it ends if and only if there are at most two files, or the time is before the last probe (the second or third file), or is exactly where a probed file starts |
| FileSearch.FoundExactly | vqro/db/datapoint_directory.cc:133-150 | the file returned is the last that starts at or before the time, unless the file behind it starts at that time too; then it is one that starts there |
| FileSearch.EqualMinsFoundEarly | vqro/db/datapoint_directory.cc:140-148 | two lists with equal mins, one of which is searched right |
| FileSearch.StuckForever | vqro/db/datapoint_directory.cc:140-148 | a search that has turned left with three files in view never ends |
| FileSearch.NewestNeverFound | vqro/db/datapoint_directory.cc:140-148 | with three files or more, a timestamp newer than all of them is never found |
| FileSearch.ThreeFilesHang | vqro/db/datapoint_directory.cc:140-148 | the smallest such input |
| FileList.SkipOldFiles | vqro/db/datapoint_directory.cc:42-51 | no file before one that starts at or before the window has a point in it |
| FileList.ReadFilesIsWindow | vqro/db/datapoint_directory.cc:46-60 | walking the files gives the first points of the window in time order |
| FileList.DirectoryReadExact | vqro/db/datapoint_directory.cc:42-60 | over files without overlaps in the window a directory read gives the first points of the window over all files if and only if its search returns |
| FileWrites.ViewsShowLog | vqro/db/datapoint_directory.cc:72-129 | files that keep apart in time show together what one log of all their points shows, and partition it |
| WriteOutcomes.CursorsExactly | vqro/db/datapoint_directory.cc:72-129 | the gather vectors of a write are all right if and only if every cursor at which it writes is in the first allocation, no slot is cut off, and no point up to a bound stands behind one after it |
| WriteOutcomes.DirectoryWriteExact | vqro/db/datapoint_directory.cc:64-130 | a directory write returns, with the files of `WriteDirectory`, if and only if its search returns and its cursors are early enough |
| WriteOutcomes.SmallBufferGathers | vqro/db/datapoint_directory.cc:72-129 | a buffer that fits one allocation is always gathered right |
| WriteOutcomes.LateCursorCorrupts | vqro/db/datapoint_directory.cc:72-129 | a write that still has points to store once it is past the first allocation always goes wrong |
| WriteOutcomes.ReturnedConserves | vqro/db/datapoint_directory.cc:64-130 | after a write that returns the stored multiset has grown by exactly the buffered points |
| WriteOutcomes.ReturnedDistributes | vqro/db/datapoint_directory.cc:72-129 | a write that returns has dealt the buffer out in order: old files keep log and min and get a next stretch appended, new files are a next stretch and start at its first point |
| WriteOutcomes.ReturnedIsAppend | vqro/db/datapoint_directory.cc:64-130 | after a write that returns, files that kept apart show the same as appending the buffer to one log, and have the same writes in the same order at each timestamp, whether or not a limit binds |
| FileWrites.NextTakes | vqro/db/datapoint_directory.cc:96-106 | a file that takes the current point takes at least that one, so the loop never falls through to a new file behind it |
| FileWrites.NextNew | vqro/db/datapoint_directory.cc:113-128 | a new file takes at least one point |
| FileWrites.DistributesKeepsStart | vqro/db/datapoint_directory.cc:119-128 | files that start at their first point still do after a write |
| WriteOutcomes.ReturnedSeparateExactly | vqro/db/datapoint_directory.cc:72-129 | a write returns with files apart in time if and only if it returns and every file's overflow is newer than all it holds, the next file is not full, and no timestamp is cut in two |
| WriteOutcomes.RoomyWriteExact | vqro/db/datapoint_directory.cc:72-129 | where no size limit binds, that is if and only if it returns |
| WriteOutcomes.NewerWriteExact | vqro/db/datapoint_directory.cc:72-129 | where the buffer is newer than everything stored, also if a limit binds, that is if and only if there are at most two files and the buffer fits in the last one, or its last new file begins in the first allocation and it has no more allocations than a full file; with a third file it never returns |
| WriteOutcomes.NewerLooseExact | vqro/db/datapoint_directory.cc:72-129 | with repeated timestamps in the buffer the looser order, in which nothing is stored after the next file's min, is kept on the same condition |
| FileOrder.FullFileBreaks | vqro/db/datapoint_directory.cc:77-82 | passing over a full file that starts after the current point always leaves the files out of order |
| SeriesReads.ReadAdvances | vqro/db/series.cc:28-54 | a call that returned something has moved the clock forward |
| SeriesReads.CursorsExactly | vqro/db/db.cc:107-118 | a read without overlaps on disk returns if and only if the search ends from its start and from the end of each full buffer |
| SeriesReads.OneCallExact | vqro/db/series.cc:28-54 | with room to spare a read returns the window on disk and what the buffer has beyond it, if and only if the search from its start ends; otherwise it hangs |
| SeriesReads.ChunkedReadExact | vqro/db/db.cc:107-118 | for every buffer size the chunks handed to the callback are together that same whole if the search ends from all of the read's cursors; otherwise the read hangs |
| SeriesReads.ChunkSizeExact | vqro/db/db.cc:107-118 | a chunked read and a single large one come to the same if and only if the chunked one returns or both hang at the start |
| SeriesReads.SmallBufferHangs | vqro/db/db.cc:107-118 | three files that a large buffer reads and a buffer of one never finishes |
| SeriesReads.FewFilesReturn | vqro/db/db.cc:107-118 | with at most two files every read returns |
| SeriesReads.ChunksContinue | vqro/db/db.cc:107-118 | no chunked read ever returns overlapping points or points outside the window |
| SeriesReads.DiskReadExact | vqro/db/db.cc:107-118 | for every buffer size a chunked read of files returns its window if and only if it returns and the points in it do not overlap |
| SeriesReads.OverlapShowsBufferSize | vqro/db/db.cc:107-118 | with an overlap the answer depends on the buffer size |
| SeriesReads.WholeIsWindow | vqro/db/series.cc:28-54 | when disk and buffer do not overlap, the whole is the window of both |
| History.AppendHonestExactly | vqro/db/write_buffer.cc:29-51 | an append leaves the sorted flag true of the buffer if and only if an ordered batch does not start before the end of a buffer flagged as sorted |
| History.FlagCanLie | vqro/db/write_buffer.cc:31-47 | two batches after which the flag is wrong |
| History.StepHolds | vqro/db/series.cc:22-72 | an allowed append, sort or flush that returns keeps files and buffer in step with the history of accepted points |
| History.EveryRunAsWritten | vqro/db/series.cc:22-72 | an allowed run from an empty series has returned in step with everything accepted if and only if the library can do each of its sorts and each of its flushes returns |
| History.EveryRunConserves | vqro/db/series.cc:22-72 | after any run that has returned, files and buffer hold exactly the multiset of accepted points, and each file starts at the first point written to it |
| History.ReadIsHistory | vqro/db/db.cc:89-119 | a read after an allowed run whose buffer is empty or newer than the files returns the current points of all accepted writes in its window if and only if every sort and flush of the run and the read's own sort and searches return, and those points do not overlap |
| History.ReadBeforeFlush | vqro/db/series.cc:28-54 | with a buffer newer than the files a read returns the window over files and buffer if and only if its sort and its searches return and the window has no overlap |
| History.ReadAfterFlush | vqro/db/series.cc:62-72 | the flush and a read after it return that window if and only if the flush and the searches return and it has no overlap |
| History.FlushTransparent | vqro/db/series.cc:28-72 | hence a flush changes no such read that returned, for any two buffer sizes, if and only if the flush and the read after it return |
| History.FewFilesTransparent | vqro/db/series.cc:28-72 | which they do with at most two files before and after, a buffer that fits one allocation and a sort that works |
| History.NewerFlushExact | vqro/db/series.cc:62-72 | what a flush of newer points comes to: without a sort that works it is undefined, with three files it hangs, and otherwise it returns if and only if the buffer fits in the last file, or its last new file begins in the first allocation and it has no more allocations than a full file |
| History.ThirdFileIsFinal | vqro/db/series.cc:62-72 | once there are three files no flush of newer points returns, after any run from there |
| History.PlainRead | vqro/db/db.cc:107-118 | the read, one task per chunk, is the read as one loop |
| History.FlushingReadShows | vqro/db/db.cc:107-118 | whenever newer points are flushed between the chunks, a read that returns hands on the window of what files and buffer showed at its start, if it has no overlap |
| History.SmallFlushingRead | vqro/db/db.cc:107-118 | with at most two files, one allocation and a sort that works it always returns |
| WriteBuffers.WriteBuffer.constructor | vqro/db/write_buffer.cc:23-26 | a new buffer is empty and sorted |
| WriteBuffers.WriteBuffer.ValueAt | vqro/db/write_buffer.h:37-40 | indexing by quotient and remainder is indexing the plain sequence |
| WriteBuffers.WriteBuffer.GetNextDatapoint | vqro/db/write_buffer.cc:54-66 | the slot for the next point exists afterwards, in the last allocation or a new one, and nothing stored has changed |
| WriteBuffers.WriteBuffer.Store | vqro/db/write_buffer.cc:39-43 | the sequence grows by the point |
| WriteBuffers.WriteBuffer.Append | vqro/db/write_buffer.cc:29-51 | the sequence grows by the batch without its NaNs; the flag stays true only if the kept points are in order |
| WriteBuffers.KeptSpec | vqro/db/write_buffer.cc:36-37 | what a batch keeps stands at increasing places of the batch, and only places that hold a NaN are left out |
| WriteBuffers.WriteBuffer.IsEmpty | vqro/db/write_buffer.h:123 | tells whether the sequence is empty |
| WriteBuffers.WriteBuffer.Sort | vqro/db/write_buffer.h:125 | where the library sorts this buffer the sequence becomes its stable sort, in place; otherwise the result is undefined |
| WriteBuffers.WriteBuffer.Clear | vqro/db/write_buffer.h:127-133 | the buffer is empty, sorted and without allocations |
| WriteBuffers.WriteBuffer.GetIOVector | vqro/db/write_buffer.h:46-108 | the pieces together are exactly the points from `pos` on that both limits allow, and each is stored at the slot with its allocation's number, of as many slots as were counted beforehand; undefined exactly where the sort or the upper bound is |
| WriteBuffers.WriteBuffer.GatherSorted | vqro/db/write_buffer.h:61-107 | the same for a buffer that is flagged as sorted |
| GatherSlots.SlotCountExactly | vqro/db/write_buffer.h:70-74 | the slots counted are never more than the pieces, and as many if and only if the limit, counted as if the write began at the start of an allocation, cuts none off |
| GatherSlots.CollectPieces | vqro/db/write_buffer.h:86-107 | the loop stores the pieces of the stretch both limits allow, each at the slot with its allocation's number |
| GatherSlots.PiecesAre | vqro/db/write_buffer.h:89-105 | there is one piece per allocation touched, each in the next allocation |
| GatherSlots.PiecesCover | vqro/db/write_buffer.h:89-105 | the pieces lie end to end over the stretch, none across an allocation |
| GatherSlots.TakePiece | vqro/db/write_buffer.h:90-99 | one piece ends at the buffer's, the allocation's or the limit's end, whichever is first |
| GatherSlots.HoldsExactly | vqro/db/write_buffer.h:101-102 | slot j holds piece j for all j, none missing and none stored outside, if and only if there are as many slots as pieces and the first allocation is number zero |
| GatherSlots.IntactExactly | vqro/base/fileutil.cc:61-64 | that is exactly when no store went astray and no slot is left unset |
| GatherSlots.SlotsRightExactly | vqro/db/write_buffer.h:69-105 | and it is so if and only if nothing is written, or the write starts in the first allocation and the limit, counted from zero, cuts no slot off |
| GatherSlots.SlotsRightAtStart | vqro/db/write_buffer.h:69-105 | it is so for every write from the start of the buffer |
| GatherSlots.SlotsCutShort | vqro/db/write_buffer.h:72-75 | two writes for which it is not |
| FileIO.WriteVector | vqro/base/fileutil.cc:61-84 | whatever the partial writes and interruptions, file and remaining vector together are the original bytes, and what is left is exactly what the calls were not good for; done means all are in the file |
| FileIO.WriteSome | vqro/base/fileutil.cc:64-81 | one successful call moves bytes from the front of the vector to the end of the file and leaves exactly the rest |
| FileIO.AdvanceVector | vqro/base/fileutil.cc:71-81 | skipping whole pieces and trimming one drops exactly the bytes written |
| FileValues.ReadValues | vqro/base/fileutil.h:70-94 | the buffer holds the whole records of each call, each byte from the place the calls so far put it |
| FileValues.InPlaceExactly | vqro/base/fileutil.h:78-90 | every byte comes from its own place if and only if no record is cut in two before more is read |
| FileValues.ReadExact | vqro/base/fileutil.h:78-90 | and that is exactly when, whatever the file holds, its front is what is read |
| FileValues.WriteValues | vqro/base/fileutil.h:97-114 | file and remaining bytes together are the original bytes under any partial writes, and what is left is exactly what the calls were not good for; done means all are written |
| SparseFiles.WriteOperation.constructor | vqro/db/write_op.h:21-25 | a write starts at the front of its buffer |
| SparseFiles.WriteOperation.Complete | vqro/db/write_op.h:32 | tells whether the cursor is at the end |
| SparseFiles.WriteOperation.Gather | vqro/db/write_op.h:47-54 | the points found in the slots are the ones from the cursor on that both limits allow, if and only if the upper bound is defined and the slots are right; otherwise the write ends as `VectorOutcome` says |
| SparseFiles.SparseFile.RemainingWritableDatapoints | vqro/db/sparse_file.cc:174-179 | how many more records the size limit has room for |
| SparseFiles.SparseFile.Read | vqro/db/sparse_file.cc:71-128 | the read grows by the run over the file's current points from the clock on, and the clock follows it |
| SparseFiles.EmitWindow | vqro/db/sparse_file.cc:102-127 | the loop over the sorted log emits one current point per timestamp until window, space or run ends |
| SparseFiles.ChoosePoint | vqro/db/sparse_file.cc:111-126 | one round consumes one run of equal timestamps and yields its current point |
| SparseFiles.LastWithFirstDuration | vqro/db/sparse_file.cc:117-123 | the back-scan finds the last point of the run with the first one's duration |
| SparseFiles.NextTimestamp | vqro/db/sparse_file.cc:111-115 | the lookahead stops at the next timestamp |
| SparseFiles.SparseFile.BufferMax | vqro/db/sparse_file.cc:132-139 | the loop's maximum, once compared with the old max, is `Raised`: over ordered points the later of the old max and the last buffered timestamp cut at the bound |
| FileWrites.RaisedOrdered | vqro/db/sparse_file.cc:132-139 | over ordered points the running maximum is the last timestamp, cut at the bound, and never below the old max |
| SparseFiles.SparseFile.Write | vqro/db/sparse_file.cc:131-171 | the log grows by exactly the writable points and the max to `Raised`, if and only if the vector can be built and used; a file beyond the size is queued for conversion, once; otherwise the write ends there |
| Directories.DatapointDirectory.FindFirstPotentialFile | vqro/db/datapoint_directory.cc:133-150 | over any ordered list of mins the loop returns the file `Found`, or runs forever exactly when `Halts` is false |
| Directories.DatapointDirectory.Read | vqro/db/datapoint_directory.cc:30-61 | a read that returns has added what the file found and those behind it give; it hangs exactly when the search does |
| Directories.Walk | vqro/db/datapoint_directory.cc:46-60 | the loop over the files gives each file's share in turn |
| Directories.SkipOldFiles | vqro/db/datapoint_directory.cc:48-51 | passing over files that end before the clock changes nothing in the answer |
| Directories.DatapointDirectory.Write | vqro/db/datapoint_directory.cc:64-130 | the write comes to what `DirectoryWrite` says: it returns with those files, objects and order, or hangs, or finds a vector that is not intact |
| Directories.DatapointDirectory.WriteFrom | vqro/db/datapoint_directory.cc:72-129 | the loop ends, since each pass moves the cursor or leaves a file behind, with the buffer dealt out if and only if all vectors are right |
| Directories.DatapointDirectory.Pass | vqro/db/datapoint_directory.cc:72-129 | one pass leaves exactly one file behind |
| Directories.TryFile | vqro/db/datapoint_directory.cc:75-106 | an existing file is passed over, written to, or found to start in the future |
| Directories.CreateFile | vqro/db/datapoint_directory.cc:113-126 | a new file starts at the current point and takes what lies before the next file, up to the limit |
| Directories.DatapointDirectory.InsertAt | vqro/db/datapoint_directory.cc:109-128 | the new file stands in front of the iterator and all others stay as they are |
| SeriesStore.Series.constructor | vqro/db/series.cc:13-19 | a new series is empty |
| SeriesStore.Series.Write | vqro/db/series.cc:22-25 | a client write is the append step of `History` |
| SeriesStore.Series.Read | vqro/db/series.cc:28-54 | the call comes to what `CallOutcome` says: it returns with the points added, its clock where the next call goes on and the series at most sorted, or hangs in the search, or has no defined sort |
| SeriesStore.Series.ReadBuffer | vqro/db/series.cc:38-53 | the buffer's part of it; with space left the read is over |
| SeriesStore.AppendFrom | vqro/db/series.cc:41-48 | the loop over the buffer adds the points that start late enough |
| SeriesStore.Series.FlushBufferedDatapoints | vqro/db/series.cc:62-72 | the flush comes to what `FlushOutcome` says, for every buffer: it returns with the buffer written and empty, or hangs with the buffer sorted, or finds a vector that is not intact, or a sort or upper bound that is not defined |
| SeriesStore.DatabaseRead | vqro/db/db.cc:107-118 | the read comes to what `ReadChunked` says, and if it returns hands on exactly its chunks |
| SeriesStore.ReadChunk | vqro/db/db.cc:108-117 | one round of it |
| CppDivision.AlignExact | vqro/db/dense_file.cc:56-57 | the start is rounded up to a multiple of the duration, one multiple too far for unaligned times before zero |
| PositionalFiles.EmitExact | vqro/db/dense_file.cc:75-81 | emitting values gives the points back if and only if they are one duration apart from the start of the read |
| PositionalFiles.PaddingExact | vqro/db/dense_file.cc:75-81 | slots are read back at their own times if and only if no value stands behind a NaN |
| PositionalFiles.DenseWindowExact | vqro/db/dense_file.cc:55-82 | a dense file with an aligned start reads a window that meets it right if and only if the slots of the window hold the values of its points, and the start is not before the file, or is rounded to it, and the end is a multiple of the duration, at or before the rounded start, or past the file |
| PositionalFiles.ConstantWindowExact | vqro/db/constant_file.cc:69-85 | the same for a constant file with an aligned start, whose values cannot differ |
| PositionalFiles.UnalignedDenseWindow | vqro/db/dense_file.cc:55-82 | a dense file with an unaligned start reads right only windows without points, and those if and only if no value is read |
| PositionalFiles.UnalignedConstantWindow | vqro/db/constant_file.cc:69-85 | a constant one too, if and only if the window or the file ends less than a duration after the rounded start |
| DenseFiles.WritableDatapoints | vqro/db/write_op.h:34-45 | counts the leading points strictly before the bound |
| DenseFiles.BoundIsExcluded | vqro/db/write_op.h:34-45 | so that it stops one tick short of the bound of a gather write |
| DenseFiles.DenseFile.Write | vqro/db/dense_file.cc:85-126 | the file is overlaid with padding and, at the computed slot, the values one point further on; nothing is written behind too wide a gap; an offset before the file fails |
| DenseFiles.FillSlots | vqro/db/dense_file.cc:99-108 | the value array holds the NaNs and then, because the iterator steps before it is read, each following point's value, and last what stands behind |
| DenseFiles.NextValuesExact | vqro/db/datapoint_buffer.h:53 | those are the points' own values if and only if all are one and the same, and what stands behind is too |
| DenseFiles.OverlaySlots | vqro/db/dense_file.cc:117-123 | slot by slot: the new values where they were written, the old ones elsewhere, zeros in a hole |
| DenseFiles.DenseFile.Read | vqro/db/dense_file.cc:55-82 | the read grows by what `DenseRead` says, or runs out of space, or fails |
| DenseFiles.EmitAll | vqro/db/dense_file.cc:75-81 | the loop over the values emits one point per value that is not NaN, one duration apart |
| DenseFiles.AppendExact | vqro/db/dense_file.cc:85-126 | reading a dense file from zero after any points were added gives back the old points and the new if and only if the new ones go on exactly where the old ones end, without gaps, and all have the one value that stands behind them |
| DenseFiles.AppendPads | vqro/db/dense_file.cc:90-125 | the values stored behind a file stand in the slots behind its own and its padding, and the slots are read back at their own times if and only if no padding was needed or there is nothing else |
| DenseFiles.ConstantFile.Write | vqro/db/constant_file.cc:88-100 | only the count grows, by the number of writable points |
| DenseFiles.ConstantFile.Read | vqro/db/constant_file.cc:69-85 | the read grows by one point per duration, or runs out of space, or fails |
| Conversions.IsDense | vqro/db/storage_optimizer.cc:36-52 | decides whether each point has the first one's duration and follows the one before by a whole number of durations, at most 256 |
| Conversions.IsConstant | vqro/db/storage_optimizer.cc:55-65 | decides whether there are enough points and all values compare as equal to the first, for any comparison |
| Conversions.DensePositions | vqro/db/storage_optimizer.cc:36-52 | in an ordered dense buffer every point sits at a whole slot from the first, and slots never fall or jump by more than 256 |
| Conversions.DenseExactly | vqro/db/storage_optimizer.cc:36-52 | an ordered buffer passes if and only if it is long enough and every point is at such a slot with the first one's duration |
| Conversions.DenseImageBound | vqro/db/storage_optimizer.cc:36-52 | so the last of n points is at most at slot (n - 1) * 256 |
| Conversions.DenseFullExact | vqro/db/storage_optimizer.cc:129-146 | a dense file written from any points reads back as those points if and only if their start is aligned, they have no gaps and `ValuesKept` |
| Conversions.ImageExact | vqro/db/dense_file.cc:107-123 | the slots a new file of n points begins with hold their values if and only if it starts at zero and they are all alike with what stands behind, or one duration later with a zero, or later and all are zero |
| Conversions.NotConstantNotFlat | vqro/db/storage_optimizer.cc:91-100 | points converted to dense do not all have the same value |
| Conversions.ConstantFullExact | vqro/db/storage_optimizer.cc:107-126 | a constant file reads back as the points if and only if their start is aligned, they have no gaps and all have its value |
| Conversions.DenseConversionExact | vqro/db/storage_optimizer.cc:76-101 | the dense conversion of a sparse file reads as the sparse file did if and only if its start is aligned, it has no gaps, its values are kept and it fits the read buffer |
| Conversions.DenseBranchExact | vqro/db/storage_optimizer.cc:91-100 | with values that are not all alike, the only ones converted to dense, and whatever stands behind them, that is if and only if the file starts one duration after zero, with a zero, has no gaps and fits the read buffer |
| Conversions.ConstantConversionExact | vqro/db/storage_optimizer.cc:76-101 | the constant conversion does if and only if its start is aligned, it has no gaps, all its values are the first one and it fits the read buffer |
| Conversions.DenseConversionWindow | vqro/db/storage_optimizer.cc:76-101 | a dense conversion of points on the grid reads a window that meets it as the sparse file did if and only if it does not start before zero, `ReadsRight`, the slots of the window hold its values, and it does not reach beyond what the read buffer held |
| Conversions.ConstantConversionWindow | vqro/db/storage_optimizer.cc:76-101 | the same for the constant conversion, which may start anywhere and has no slots |
| Conversions.ReadStartsAtMin | vqro/db/storage_optimizer.cc:86-89 | what is read from a whole file starts at the file's min |
| Conversions.ConvertSparseToDense | vqro/db/storage_optimizer.cc:129-146 | it throws if and only if there is no file under the new name; otherwise the points have been written to what was found there |
| Conversions.ConvertSparseToConstant | vqro/db/storage_optimizer.cc:107-126 | it throws if and only if something is to be written and there is no file under the name with count zero; otherwise the new file starts at the old one's min and counts the points |
| Conversions.HandleSparseFileTooBig | vqro/db/storage_optimizer.cc:76-104 | a file that is not dense is left alone, a constant one goes to a constant file, any other to a dense file, or the conversion throws |
| Conversions.EveryConversionThrows | vqro/db/storage_optimizer.cc:107-146 | in a directory of sparse files every conversion throws |
| Workers.InvariantOnEveryRun | vqro/base/worker.h:58-118 | over all interleavings: each queue is what was pushed and not yet started, in order; a claim finds a task; a worker runs only its own tasks; the queues are bounded |
| Workers.QueueSafe | vqro/base/worker.h:58-105 | no claim meets an empty queue, and queued plus admitted tasks are at most limit - 1 + producers |
| Workers.LimitExceeded | vqro/base/worker.h:61-68 | that bound is reached, for every limit and number of producers |
| Workers.StartedAtMostOnce | vqro/base/worker.h:64-105 | each task has been started or is queued as often as it was pushed |
| Workers.SeriesInOrder | vqro/db/db.cc:150-152 | tasks of one series start in the order they were pushed, for any number of workers |
| Workers.SeriesExclusive | vqro/db/db.cc:150-152 | two workers never run tasks of one series at the same time |
| Workers.StopLimits | vqro/base/worker.h:48-54 | once its flag is cleared a worker claims at most one task more, and none if it has yet to test the flag |
| FileNames.NumberRoundTrip | vqro/db/sparse_file.cc:48-54 | a printed 64-bit number is parsed back, up to the first character that is not a digit |
| FileNames.SparseRoundTrip | vqro/db/sparse_file.cc:32-68 | a sparse name comes back as the same triple, except that an optimized one is refused if and only if the stray byte is not zero |
| FileNames.DenseRoundTrip | vqro/db/dense_file.cc:26-52 | a dense name comes back |
| FileNames.ConstantNameLost | vqro/db/constant_file.cc:20-66 | a constant file's printed name is accepted by none of the three parsers |
| FileNames.DocumentedConstantName | vqro/db/constant_file.cc:31-65 | with the value appended as its comment says it comes back, exactly when the value's text is read back as that value |
| FileNames.FormatsExclusive | vqro/db/datapoint_directory.cc:170-182 | no string at all is accepted by two of the parsers |
| FileNames.SparseNamesDiffer | vqro/db/sparse_file.cc:32-36 | different sparse files have different names |
| SeriesKeys.OrderIgnored | vqro/db/db.cc:124-125 | label sets give the same ordered labels if and only if they are equal |
| SeriesKeys.BuildKey | vqro/db/db.cc:126-133 | the loop builds the key |
| SeriesKeys.KeyInjective | vqro/db/db.cc:126-133 | without '=' in names and ';' in values the key determines the labels |
| SeriesKeys.KeyUniqueExactly | vqro/db/db.cc:126-133 | among all label sets a key is one set's alone if and only if it contains exactly one '=' |
| SeriesKeys.TwoLabelsCollide | vqro/db/db.cc:128-133 | any two labels share their key with a single label |
| SeriesKeys.Database.GetSeries | vqro/db/db.cc:122-147 | the series of the key is found, or an empty one created once; no labels is an error; nothing else in the table changes |
| SeriesKeys.SameSeriesExactly | vqro/db/db.cc:137-146 | in any state of the table, label sets without the separators find the same series if and only if they are equal |

## Left out

- SparseFiles.SparseFile.Write: reports that a conversion is queued; the conversion itself is one call of `HandleSparseFileTooBig`, and when a worker gets to it is left out.
- FileIO.WriteVector: works on bytes; how datapoints are laid out as bytes is not modelled, so it is not joined to `SparseFile.Write`.
- Conversions.IsConstant: takes the comparison as a parameter; the source's own, by units in the last place, is left out.
- SeriesStore.DatabaseRead: the callback is the sequence of chunks it is handed; a read buffer of size zero ends the read at once.
- WriteBuffers.WriteBuffer.Sort: what the library makes of a buffer it cannot sort is left out; `sortWorks` says which those are.
- Directories.DatapointDirectory.FindFirstPotentialFile: asks that the list is ordered, as the source sorts it when it loads it; `FileOrder.FullFileBreaks` says which writes leave a list that is not, and nothing is said about searches of one.
- DenseFiles.EmitAll: stops at the end of the buffer, where the source writes on.
- What a call does after it has used a gather vector that is not intact, or a library result that is not defined.
- History.FlushingReadShows: client writes between the chunks of a read are left out; only flushes come in between.
- Dense and constant files inside a directory: directory reads and writes are proved for sparse files, the only kind a write creates.
- The reload of a directory from its file names, and the order in which equal mins are then sorted.
- File descriptors, `rename`, `unlink`, `stat`, permissions, crashes, and collisions of paths: a file is its contents and its two timestamps. A conversion is told which names exist.
- 64-bit overflow of sums of timestamps and durations, negative durations, and the truncation of counts to `int`.
- `datapoint_limit` and `prefer_latest`, which the source carries but does not implement.
- The flusher thread: a flush is one step; its timing, its order over series and its unsynchronised access to the buffers are not modelled.
- Wake-up and liveness of the worker threads: waiting and pushing use different mutexes, so only safety is stated. That a worker whose task hangs serves no other series is not part of the worker model.
- IEEE floats: values are real numbers and one NaN; how a value is printed and parsed is a parameter.
- The search engine, the controller, gRPC and the clients.
