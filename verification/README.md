# External merge sort of a text file, modelled in Dafny

The system sorts the lines of a text file that may not fit in memory. `ExternalSort.sort()` works in four steps:

1. It resets a chunk directory.
2. It reads the entry file line by line with Node's `readline`. It collects lines into chunks until their total `length` reaches six tenths of the memory budget (`heatSize`).
3. It sorts every chunk with the configured comparator and writes it to `<chunkDir>/chunk_<i>.tmp`.
4. It merges the chunk files into the output file. Every chunk file gets a `LineReader` cursor. A cursor that emits a line pauses. A winner is written only when the frontier holds one line from every unfinished cursor, and only the winner's cursor resumes.

With more chunk files than `chunksPointerLimit`, the merge runs in generations. Each generation merges consecutive slices of at most `limit` files into `sub<g>_<prefix>_<k>.tmp` files.

The model covers three versions of the code:
- the current sorter and cursor, `src/ExternalSort.ts` and `src/LineReader.ts`;
- the older `ExternalSort.ts`, which checks the budget before pushing a line and always merges in a single pass;
- the older `ExternalSort.js` with its `LineReader.js`.

How the model represents the system:
- Strings are `seq<char>`. JavaScript's `length` and its `<`/`>` on strings are modelled through an explicit UTF-16 encoding (`Utf16`).
- The file system is a map from paths to contents plus a set of directories (`Workspace.FS`).
- `localeCompare` is a parameter. Only where sortedness is claimed is it assumed to be a total preorder.
- A read stream's `highWaterMark` is a share of the heat size rounded down, and a stream asked for 0 bytes ends without reading. `Config.Buffering` selects the shares: `Floored` as the source computes them, or `AtLeastOne`, raised to one byte. `Pipeline.Sort` and `LegacyPipeline.LegacySort` take it as a parameter.
- `Array.prototype.sort` is modelled as an insertion sort (`Order.SortBy`). Every claim about it is made through sortedness and permutation, or through uniqueness under an antisymmetric order.

Modules, one per file:

| file | module | what it holds |
|---|---|---|
| `wrappers.dfy` | `Wrappers` | `Option` and `Result` |
| `strings.dfy` | `Strings` | decimal rendering of chunk indices; prefixes; ASCII lower-casing |
| `utf16.dfy` | `Utf16` | UTF-16 code units and `length` |
| `order.dfy` | `Order` | comparator order, sortedness, the reference sort, flattening, dropping empty lines |
| `comparator.dfy` | `Comparator` | `_getComparer` and the no-comparer default order |
| `linesplit.dfy` | `LineSplit` | `split(/\r?\n/)`, `readline`'s segmentation, files written one line per `\n` |
| `linereader.dfy` | `LineReader` | the cursor as a state machine, for both variants |
| `splitter.dfy` | `Splitter` | both chunk splitters and `_WriteChunkFile` |
| `merge.dfy` | `Merge` | one pointer merge pass under any event schedule |
| `batching.dfy` | `Batching` | `ProcessChunk` and the generation loop |
| `config.dfy` | `Config` | the constructors and the memory shares |
| `workspace.dfy` | `Workspace` | the chunk directory, chunk and `sub` files, one merge generation on files |
| `pipeline.dfy` | `Pipeline` | `sort()` of `src/ExternalSort.ts` |
| `legacy.dfy` | `LegacyPipeline` | `sort()` of the older `ExternalSort.ts` and `ExternalSort.js` |

## Model

| member | source | states |
|---|---|---|
| Config.NinetyPercentUp | src/ExternalSort.ts:23 | `Math.ceil(heatSize * 0.9)` in exact arithmetic: the result `r` is the least whole number with `10 r >= 9 x` |
| Config.Configure | src/ExternalSort.ts:20-31 | the output, entry and chunk-directory paths are taken as given, and the heat size is `Math.ceil(heatSize * 0.9)`. Each optional field falls back to its default. The cursor limit is the given one only when it is at least 2, otherwise 50. Descending order applies exactly when `orderBy` is `"desc"`. The chunk file prefix defaults to `chunk` |
| Config.LegacyConfigure | ExternalSort.js:7-15 | the older constructors take the three paths as given and set the heat size to `Math.ceil(heatSize * 0.9)`. They have no cursor limit, which the model records as a limit of 0, and their chunk prefix is fixed as `chunk`. `ExternalSort.js` lower-cases `orderBy` before comparing it with `desc`; `ExternalSort.ts` does not |
| Config.Share | src/ExternalSort.ts:79-81 | `Math.floor(x * t / 10)` in exact arithmetic: `10 r <= t x < 10 r + 10` |
| Config.SplitReaderFeeds | src/ExternalSort.ts:79-86 | the entry file's read stream gets a `highWaterMark` of at least one byte exactly when buffers are raised or the configured heat size is at least 5 |
| Config.MergeReaderFeeds | src/ExternalSort.ts:151 | each of the `n` cursors of a merge gets a `highWaterMark` of at least one byte exactly when buffers are raised or `10 n <= 8 heat` |
| Config.MergeReaderFewer | src/ExternalSort.ts:151 | a merge of fewer files gives each cursor at least as large a share: when a merge of `m` files feeds its cursors, so does one of `n <= m` |
| Config.ConfiguredSplitStarves | src/ExternalSort.ts:79 | with the heat size configured as `Math.ceil(heatSize * 0.9)`, the entry file's reader share is 0 exactly when `heatSize` is at most 4 |
| Comparator.DescSwapsAsc | src/ExternalSort.ts:67-75 | the descending comparator is the ascending one with its arguments swapped, in both modes |
| Comparator.GetComparer | src/ExternalSort.ts:67-75 | in ordinal mode the comparator never answers 0: every pair compares as 1 or -1, and a string compared with itself gives -1 |
| Comparator.OrdinalMeaning | src/ExternalSort.ts:72-73 | in ordinal mode, `a` goes before `b` exactly when its UTF-16 code units are lexicographically at most `b`'s (at least, when descending) |
| Comparator.OrdinalTotalOrder | src/ExternalSort.ts:71-74 | both ordinal comparators are total and antisymmetric: sorting by them has exactly one result |
| Comparator.LocaleComparerTotalPreorder | src/ExternalSort.ts:68-70 | if `localeCompare` is a total preorder, both locale comparators are |
| Comparator.ComparerTotalPreorder | src/ExternalSort.ts:67-75 | every comparator `_getComparer` returns is a total preorder, given that `localeCompare` is one in locale mode |
| Comparator.LegacyOrder | ExternalSort.js:13 | descending order applies exactly when `orderBy` lower-cases to `desc` |
| Comparator.LegacyOrderIgnoresCase | ExternalSort.js:13 | `DESC` and `Desc` select descending order; an absent `orderBy` selects ascending |
| Comparator.DefaultIsOrdinalAsc | ExternalSort.js:86 | sorting without a comparer orders strings exactly as the ascending ordinal comparator does |
| Comparator.DefaultSortTotalOrder | ExternalSort.js:86 | the default order is total and antisymmetric |
| Strings.NatToStringInjective | src/ExternalSort.ts:43 | different chunk indices render as different decimal texts |
| Utf16.EncodeInjective | src/ExternalSort.ts:72-73 | different strings have different code-unit sequences, so ordinal comparison separates them |
| LineSplit.SplitLines | src/LineReader.ts:47 | `split(/\r?\n/)` yields at least one part, and no part holds a `\n` |
| LineSplit.SplitSerialized | src/LineReader.ts:47 | a file written one line per `\n` splits into its lines followed by one empty part |
| LineSplit.SplitJoin | src/LineReader.ts:47 | break-free lines joined with `\n` split back into the same lines |
| LineSplit.JoinSplit | src/LineReader.ts:47 | text without `\r` is rebuilt exactly by joining its parts |
| LineSplit.SplitConcat | src/LineReader.ts:47-50 | splitting a concatenation gives the complete parts of the first text, then the split of its last part glued to the second. This is what lets buffers be split one at a time |
| LineSplit.ReadlineSplit | src/ExternalSort.ts:84-94 | the lines `readline` yields contain no `\r` or `\n` |
| LineSplit.ReadlineSerialized | src/ExternalSort.ts:84-94 | lines written one per `\n` and read back through `readline` come back unchanged |
| LineReader.Arrive | src/LineReader.ts:47-50 | splitting each arrival on its own and gluing the old fragment to its first part gives the same complete lines and new fragment as splitting the fragment followed by the arrival. The fragment stays break-free |
| LineReader.ArriveRoundTrip | src/LineReader.ts:47-50 | without `\r`, the complete lines plus the fragment rejoin to exactly the old fragment followed by the arrival |
| LineReader.Keep | src/LineReader.ts:52 | with `filterEmpty`, no empty line is kept |
| LineReader.OnData | src/LineReader.ts:44-54 | the `data` handler pauses the source. Its complete lines are those of splitting the old fragment followed by the arrival, all parts but the last, with empty ones dropped under `filterEmpty`. The last part is the new fragment, and the fragment stays break-free. Nothing else changes, in particular nothing is emitted |
| LineReader.LegacyOnData | LineReader.js:31-46 | the `data` handler of `LineReader.js` queues every part of the old fragment followed by the arrival but the last, empty ones included even when filtering was asked for. The last part becomes the fragment, and nothing else changes |
| LineReader.Close | src/LineReader.ts:110-115 | `close()` destroys the source, marks the input ended and drops the queue |
| LineReader.LegacyClose | LineReader.js:105-111 | `close()` of `LineReader.js` keeps the queue, because it clears a differently named field |
| LineReader.FinishOnce | src/LineReader.ts:87-93 | `finish` is emitted at most once, followed by close |
| LineReader.OnEnd | src/LineReader.ts:56-61 | the `end` handler marks the input ended and emits `end` last, keeping the events so far. It has finished afterwards exactly when it had before, or when neither queue nor fragment is left |
| LineReader.LegacyOnEnd | LineReader.js:48-54 | the `end` handler of `LineReader.js` has finished afterwards exactly when it had before or the queue is empty, even with a fragment left. It marks the input ended and emits `end` last |
| LineReader.Next | src/LineReader.ts:67-85 | `next()` changes nothing while paused. Otherwise it emits the queue head and drops it; or, at the end, emits the fragment and clears it; or, at the end with nothing left, finishes with an empty queue; failing those, it only re-arms the source. The events so far are kept |
| LineReader.Pause | src/LineReader.ts:95-97 | afterwards the cursor is paused, and every other field is as it was |
| LineReader.Resume | src/LineReader.ts:99-102 | afterwards the cursor is not paused, and every other field is as it was |
| LineReader.EndCallIdempotent | src/LineReader.ts:104-108 | calling `end()` twice is calling it once: `end` is emitted at most once |
| LineReader.BasicStep | src/LineReader.ts:37-115 | every transition of either variant keeps the cursor's basic invariants: backpressure, a break-free fragment, at most one `finish` |
| LineReader.Apply | src/LineReader.ts:37-115 | one step of a cursor and its stream: a data step hands over the next arrival and only that one, an end step marks the stream ended, `filterEmpty` never changes, and the events so far are kept |
| LineReader.DataNeverDiscards | src/LineReader.ts:44-47 | a data arrival replaces the queue only when the queue is already empty, so no undelivered line is lost |
| LineReader.InvStep | src/LineReader.ts:37-115 | every transition of the current cursor keeps the invariant: lines emitted so far, followed by lines still to come, are exactly the lines of the file |
| LineReader.RunInv | src/LineReader.ts:37-115 | every schedule of steps keeps the current cursor's emission invariant |
| LineReader.FinishedEmittedAll | src/LineReader.ts:67-93 | once finished, the cursor has emitted exactly the lines of its file, `finish` once, and no line after it |
| LineReader.ReadFile | src/LineReader.ts:21-115 | a file read to the end yields the lines of its whole text, whatever the read-buffer boundaries. Empty lines are dropped when filtering, and there is no trailing empty part |
| LineReader.LinesOfSerialized | src/ExternalSort.ts:174-178 | a chunk file written one line per `\n` and read back yields its lines in order, only the non-empty ones when filtering |
| LineReader.LegacyFilterIgnored | LineReader.js:38 | for `"a\n\nb\n"`, `LineReader.js` queues `a`, an empty line and `b`; the current cursor queues `a` and `b` |
| LineReader.LegacyFinishBeforeLastLine | LineReader.js:48-79 | for the file `a` read as one buffer, `LineReader.js` emits `finish` before the line `a` |
| LineReader.OneBufferEvents | src/LineReader.ts:56-85 | the events of the one-buffer schedule over the file `a`: `finish`, `end`, `a` for `LineReader.js`; `end`, `a`, `finish` for the current cursor |
| LineReader.CurrentFinishAfterLastLine | src/LineReader.ts:56-85 | on the same schedule the current cursor emits the line first and `finish` after it |
| LineReader.LegacyStepAgrees | LineReader.js:31-79 | while what is left to read is empty or ends in `\n`, each `LineReader.js` step is the step the current cursor takes without filtering, and what is left still ends in `\n` |
| LineReader.LegacyRunAgrees | LineReader.js:31-79 | the same holds for every schedule of steps |
| LineReader.LegacyReadsAll | LineReader.js:31-87 | over a text that is empty or ends in `\n`, `LineReader.js` under any schedule, once finished, has emitted every line in order, empty ones included whatever `filterEmpty` says, `finish` once, and no line after it |
| Order.SortedUnique | src/ExternalSort.ts:40 | two sorted permutations of the same lines under an antisymmetric total order are equal |
| Splitter.SplitIntoChunks | src/ExternalSort.ts:90-105 | the push-then-check loop returns chunks that concatenate to the lines. No chunk is empty. Every proper prefix of a chunk stays below the budget, and every chunk but the last reaches it |
| Splitter.ChunkingUnique | src/ExternalSort.ts:94-102 | that description pins the chunks down: two chunkings of the same lines under the same budget are equal |
| Splitter.FlattenNonEmpty | src/ExternalSort.ts:105 | there are no chunks exactly when there are no lines |
| Splitter.LegacySplitIntoChunks | ExternalSort.ts:79-94 | the check-before-push loop returns chunks that concatenate to the lines. Only the first chunk can be empty, and it is empty exactly when the first line alone reaches the budget. A chunk closes exactly when the next line would take its count to the budget |
| Splitter.ChunkBaseInjective | src/ExternalSort.ts:43 | different chunks get different file names |
| Splitter.WriteChunkFile | src/ExternalSort.ts:33-65 | whatever the stream's backpressure, the file holds the sorted chunk one line per `\n`; an empty chunk yields the file `undefined\n` |
| Merge.MinIndex | src/ExternalSort.ts:163-164 | the winner is at most every frontier line, and it is the first such entry, as a stable sort followed by `shift` picks. In ordinal mode the comparator never answers 0, so between identical lines the source may resume a different reader than this one; the text written is the same, as `Merge.MergeIsSort` shows |
| Merge.ProcessLine | src/ExternalSort.ts:161-169 | nothing happens unless the frontier holds one line per unfinished cursor. Otherwise exactly one frontier line moves to the output, and it is at most every frontier line |
| Merge.Push | src/ExternalSort.ts:180-185 | a `line` event moves the head of that cursor's rest to the frontier, paused. The output only grows, by at most one line, and by one exactly when the frontier then holds a line from every unfinished cursor. What was moved and what is waiting is the old frontier plus the new line |
| Merge.FinishCursor | src/ExternalSort.ts:187-191 | a `finish` event closes that cursor and lowers the count of unfinished ones. The output only grows, by one line exactly when the frontier is non-empty and holds a line from each cursor still unfinished; no line is created or lost |
| Merge.WinnerAlwaysPresent | ExternalSort.js:105-113 | `ProcessLine` of `ExternalSort.js` has no check that a winner exists. Both handlers reach it only with a non-empty frontier whenever the counts match, so the missing guard never matters |
| Merge.StartInv | src/ExternalSort.ts:158-159 | the merge starts in a state satisfying its invariant |
| Merge.StepInv | src/ExternalSort.ts:180-191 | every `line` or `finish` event, in any order, keeps the invariant. Each run's lines are exactly once written, waiting or still to come. The output is sorted, and no waiting or future line is below the last written one |
| Merge.FinishRulesAgree | ExternalSort.ts:138-142 | the older `finish` rule (`FilesToFinish > 0`) and the current one (`\|\| linesData.length > 0`) take the same step from every reachable state |
| Merge.ExecInv | src/ExternalSort.ts:171-200 | any schedule of cursor events keeps the invariant |
| Merge.QuietComplete | src/ExternalSort.ts:171-200 | once no cursor can fire, the merge has finished every cursor. It has written every line of every run, in each run's order, and sorted when the runs were |
| Merge.MergeRuns | src/ExternalSort.ts:149-201 | the written lines are a permutation of the runs' lines, sorted when every run is sorted under a total preorder |
| Merge.MergeIsSort | src/ExternalSort.ts:149-201 | under an antisymmetric comparator, every schedule writes exactly the sorted concatenation of the runs |
| Merge.MergeSingle | ExternalSort.ts:122-151 | a pass over a single file copies it in the file's order, sorted or not |
| Batching.ProcessChunk | src/ExternalSort.ts:119-136 | `ProcessChunk` reads every file exactly once, in order, in slices of 2 to `limit` files, each merged into `sub<g>_<prefix>_<k>.tmp`. A lone last file is passed on. The number of slices is the ceiling of `n / limit` |
| Batching.SlicesBounds | src/ExternalSort.ts:123-134 | the number of slices is the ceiling of the quotient |
| Batching.GenerationShrinks | src/ExternalSort.ts:139-142 | a generation over more than `limit` files leaves strictly fewer, so the generation loop ends |
| Batching.Generations | src/ExternalSort.ts:138-146 | the generation loop feeds each generation's outputs to the next. Every generation reads more than `limit` files, and the final merge gets at most `limit` |
| Batching.SubNameInjective | src/ExternalSort.ts:129 | `sub` file names of different generations or positions never coincide |
| Batching.SubNameNotChunk | src/ExternalSort.ts:129 | no `sub` file is named like a chunk file |
| Workspace.ClearDir | src/ExternalSort.ts:203-207 | afterwards nothing exists at or below the chunk directory. Every file and directory outside it stays, files with the same content, and no directory is added |
| Workspace.CreateDir | src/ExternalSort.ts:209-213 | afterwards the directory exists; nothing changes when something already existed at the path |
| Workspace.ClearCreateIdempotent | src/ExternalSort.ts:203-213 | clearing twice is clearing once, and creating twice is creating once |
| Workspace.FreshDir | src/ExternalSort.ts:219-220 | after the reset the chunk directory exists and is empty |
| Workspace.ChunkPathInjective | src/ExternalSort.ts:43 | different chunks get different paths under either naming |
| Workspace.ChunkPathNotSub | src/ExternalSort.ts:129 | a chunk file is never a `sub` file |
| Workspace.WriteMergedReady | src/ExternalSort.ts:149-201 | a merge of ready files (break-free, non-empty lines, sorted under a total preorder) writes a ready file holding exactly the merge of what its cursors read |
| Workspace.WriteMerged | src/ExternalSort.ts:149-201 | the merge writes only its target and adds no directory; every other file keeps its content |
| Workspace.MergeReadFed | src/ExternalSort.ts:151-178 | cursors whose `highWaterMark` is at least one byte read their files whole |
| Workspace.MergeReadStarved | src/ExternalSort.ts:151-178 | cursors whose `highWaterMark` is 0 read no line, so the merge gets nothing |
| Workspace.MergedPool | src/ExternalSort.ts:149-201 | the file a merge of ready files writes holds some of its inputs' lines, and all of them, each as often, when every cursor's buffer is at least one byte |
| Workspace.StarvedMerge | src/ExternalSort.ts:151-176 | as written, a merge of `n` files with `10 n > 8 heat` gives every cursor a `highWaterMark` of 0 and writes an empty file, whatever its inputs held |
| Workspace.TaggedNotTarget | src/ExternalSort.ts:129 | no file a generation writes is one that generation may still read |
| Workspace.Generation | src/ExternalSort.ts:119-136 | a generation turns ready files it may read into ready files for the next one, keeping every file it may still read. When a merge of `limit` files gives each cursor at least one byte, every line is kept |
| Workspace.RunJobs | src/ExternalSort.ts:119-136 | running a generation's jobs writes every `sub` target, and no other file. Every file that is not a target keeps its content |
| Pipeline.WrittenLines | src/ExternalSort.ts:39-56 | a chunk file holds a permutation of its chunk, sorted under a total preorder |
| Pipeline.WriteChunks | src/ExternalSort.ts:94-105 | after the split, chunk file `i` holds the sorted chunk `i` for every `i`, and nothing outside the chunk directory changed |
| Pipeline.Listed | src/ExternalSort.ts:110-112 | the listing keeps exactly the chunk files whose name starts with the prefix. They come in index order, which `Sort` then rearranges as `readdirSync` may |
| Pipeline.PickMultiset | src/ExternalSort.ts:110-112 | the chunk files listed in any order hold the same lines as listed in index order |
| Pipeline.ListedAll | src/ExternalSort.ts:110-111 | when chunk files are named after the prefix, or the prefix is itself a prefix of `chunk_`, the listing finds every chunk file |
| Pipeline.ListedNone | src/ExternalSort.ts:43 | with chunk files named `chunk_<i>.tmp` and a prefix not starting with `c`, the listing finds none |
| Pipeline.ReadBack | src/ExternalSort.ts:174-178 | chunk file `i` reads back as the non-empty lines of what was written, and is ready when it was written sorted |
| Pipeline.ChunksReady | src/ExternalSort.ts:108-115 | the chunk files, listed in any order, are ready for generation 0 and hold the non-empty lines of the listed chunks |
| Pipeline.MergeGenerations | src/ExternalSort.ts:114-146 | the generation loop leaves at most `limit` ready files. They hold the same lines it started with when a merge of `limit` files gives each cursor at least one byte. It changes nothing outside the chunk directory, and nothing at all when there were at most `limit` files |
| Pipeline.FinalRuns | src/ExternalSort.ts:143 | the final merge reads sorted runs under a total preorder. It writes exactly the lines of the files left when its cursors get at least one byte each, and nothing when they get 0 |
| Pipeline.Delivered | src/ExternalSort.ts:222-224 | when every reader is fed and the listing finds every chunk, the output is every non-empty entry line, and the one sorted order under an antisymmetric comparator. When the listing finds none, the output is empty |
| Pipeline.SortEntry | src/ExternalSort.ts:76-226 | whatever order the directory lists the chunk files in: an entry reader with a buffer of 0 reads nothing, so there are no chunks and no output lines. Otherwise the entry lines are split into chunks. When every merge's cursors get at least one byte, the output file holds the non-empty lines of the listed chunks, each as often. A final merge whose cursors get 0 bytes writes nothing. The output is sorted under a total preorder, and other files outside the chunk directory stay as they were |
| Pipeline.SortDelivers | src/ExternalSort.ts:215-226 | from what a run over the entry lines states: when every read stream is fed and the listing finds every chunk, as it always is with raised buffers, the output is a permutation of the non-empty entry lines, and the one sorted order under an antisymmetric comparator. Under the as-written naming with a prefix not starting with `c`, the output is empty |
| Pipeline.Finished | src/ExternalSort.ts:215-226 | after the reset, the run and the optional removal, the output file holds what was written, every file outside the chunk directory is as it was, and the chunk directory remains exactly when `removeChunks` is not set |
| Pipeline.Sort | src/ExternalSort.ts:215-226 | a missing entry file is an error, and so is one that cannot be read after the reset. Otherwise, in any listing order, the output is sorted under a total preorder. When every read stream gets a buffer of at least one byte, as with raised buffers always, the output holds the non-empty lines of the listed chunks. With every chunk listed as well, it is a permutation of the non-empty entry lines, and in ordinal mode exactly their sorted order. As written, an entry reader share of 0 writes nothing, and so does a final merge whose cursors get 0 bytes. The chunk directory remains exactly when `removeChunks` is not set |
| LegacyPipeline.LegacyPool | ExternalSort.ts:97-100 | the `chunk*` files, listed in any order and read as `LineReader.js` reads them, hold every entry line, empty ones included, plus `undefined` when the first line alone reached the budget |
| LegacyPipeline.LegacyChunkRead | LineReader.js:48-79 | a chunk file ends in `\n`, so the early `finish` of `LineReader.js` cannot fire on it: once a cursor finishes it has emitted exactly the lines written, and no line after `finish` |
| LegacyPipeline.LegacyReadBack | ExternalSort.ts:122-130 | chunk files listed in any order read back, through `LineReader.js`, as the bodies written, in that order |
| LegacyPipeline.LegacyRuns | ExternalSort.ts:122-130 | the listed chunk files read back as the chunk bodies in listing order, sorted when every chunk was sorted by the comparator |
| LegacyPipeline.LegacyMergeAll | ExternalSort.ts:97-152 | the single merge writes every entry line, empty ones included, plus `undefined` when the first line alone reached the budget |
| LegacyPipeline.LegacyMergeSorted | ExternalSort.ts:97-152 | when every chunk was sorted by the comparator, the single merge output is sorted |
| LegacyPipeline.LegacyMergeOne | ExternalSort.js:86 | with one chunk, `ExternalSort.js` writes the entry lines in default order |
| LegacyPipeline.LegacyOneRun | ExternalSort.js:86-93 | with one chunk there is one chunk file, and it reads back as the entry lines in default order |
| LegacyPipeline.LegacySortEntry | ExternalSort.ts:66-152 | in any listing order: when the entry reader and the one merge's cursors all get at least one byte, the output holds every entry line, empty ones included, plus the `undefined` line. Otherwise it holds nothing. It is sorted for `ExternalSort.ts`, and in default order for a single `ExternalSort.js` chunk |
| LegacyPipeline.LegacyWritten | ExternalSort.ts:97-152 | the one merge, reading the listed chunk files through cursors with the merge reader's share, writes every entry line plus the `undefined` line when every reader is fed, and nothing otherwise; sorted when every chunk was sorted by the comparator |
| LegacyPipeline.LegacySort | ExternalSort.ts:166-177 | the older `sort()` handles errors and the chunk directory like `src`. In any listing order, when every read stream gets at least one byte, as with raised buffers always, the output is a permutation of the entry lines, empty ones included, plus `undefined` when the first line reached the budget. As written, when a reader share is 0 the output is empty. `ExternalSort.ts` sorts the output. For `ExternalSort.js` a single chunk comes out as the entry lines in default order |
| LegacyPipeline.UndefinedExample | ExternalSort.ts:83-94 | with `heatSize` 5 every reader gets at least one byte and the chunk budget is 3. The entry file `abc\n` is the one line `abc`, which alone reaches the budget, so the output holds `abc` and `undefined` |
| LegacyPipeline.EmptyLineKept | LineReader.js:38 | the entry file `b\n\na\n` is read as `b`, an empty line and `a`; one chunk of them, sorted in default order, is written as `\na\nb\n` |
| LegacyPipeline.DefaultOrderIgnoresDesc | ExternalSort.js:86 | the default order puts `a` before `b`, which a descending comparator does not accept |

## Left out

- I/O, streams and `Promise`s: files are contents in a map and every stream is a list of events. The interleaving of the cursors is a schedule. `Merge.ExecInv` holds for every schedule; `Merge.MergeRuns` runs one particular schedule. The model assumes each merge's writes have landed before its output is read, and the source does not guarantee it. `_MergeChunksByPointers` resolves on the readers' `end` events (src/ExternalSort.ts:193,200), and the writer is never ended or awaited (src/ExternalSort.ts:155). So the next generation, or the caller, may read a `sub` or output file before its last lines are written.
- Write backpressure (`highWaterMark`, `drain`): `accepts` says what each `write` returns. The content of a file does not depend on it (`Splitter.WriteChunkFile`).
- Floating point: the budget shares of 0.9, 0.2, 0.6, 0.8 and 0.1 are exact arithmetic on tenths. A read stream's `highWaterMark` matters only as 0 or at least 1: a stream asked for 0 bytes ends without delivering anything (`Workspace.Streamed`); a larger one delivers the whole file. Writers' `highWaterMark` values are not modelled.
- Pipeline.Sort: with the shares as written, full delivery is promised only when every read stream gets at least one byte (`Pipeline.Fed`). When more chunk files are listed than the cursor limit and a merge of `limit` files starves its cursors, the output is still sorted, but which lines it holds is not stated.
- Pipeline.SortEntry: the same condition as for `Pipeline.Sort`; with more chunk files listed than the cursor limit and starved cursors, only sortedness is stated.
- LegacyPipeline.LegacySort: with the shares as written, the output holds the entry lines only when the entry reader and the one merge's cursors all get at least one byte (`LegacyPipeline.LegacyFed`); otherwise it is empty.
- LegacyPipeline.LegacySortEntry: the same condition as for `LegacyPipeline.LegacySort`.
- `readdirSync` order: a parameter `arrange`, any rearrangement of the names in index order. Every claim of `Pipeline.Sort` and `LegacyPipeline.LegacySort` holds for all of them.
- Text decoding (`StringDecoder`, `encoding`) and the `readline` stream of bytes: files hold decoded text. A read buffer is never empty and never ends between a `\r` and a `\n`.
- `console.log` in `src/LineReader.ts:74`, and the `error` and `open` events: these are output and errors of the runtime.
- `mkdirSync` failing: `Workspace.CreateDir` adds the directory even when its parent is missing. There `Pipeline.Sort` and `LegacyPipeline.LegacySort` return `Ok`, where `mkdirSync` throws `ENOENT` (src/ExternalSort.ts:210-211,220). When a file sits at the path, `existsSync` is true and nothing is created; later writes into it are not checked.
- An output file inside the chunk directory: `Pipeline.Sort` and `LegacyPipeline.LegacySort` make no claim about it.
- An entry file that exists but cannot be read (a directory, or a file inside the chunk directory that the reset deleted): the model returns `EntryUnreadable`. The source rejects later, from a stream.
- Config.Configure: `heatSize` is a `nat` and the cursor limit a whole number. In the source both are `number`: a fractional limit of 2 or more passes the check at src/ExternalSort.ts:28-29 and then drives the slice arithmetic at lines 124, 131 and 139, and a fractional or negative `heatSize` reaches the `Math.floor` shares. Neither is modelled.
- `localeCompare`: a parameter, assumed to be a total preorder only where sortedness is claimed.
- The cursor of the older files: `LegacyPipeline.LegacySort` reads chunk files as `LineReader.js` reads them (`LineReader.LinesOf` without filtering), justified under every schedule by `LineReader.LegacyReadsAll`. Its early `finish` is shown on a concrete input (`LineReader.LegacyFinishBeforeLastLine`) and cannot fire on a chunk file (`LegacyPipeline.LegacyChunkRead`).
- LegacyPipeline.LegacySort: for `ExternalSort.js` with more than one chunk, no order is claimed for the output. Its last chunk is sorted in default order, and a merge of runs that are not all sorted has no order guarantee.
- Pipeline.Sort: sortedness is claimed only under a total preorder. The order of equivalent lines is not stated, because `Array.prototype.sort` and the merge may order ties differently.
- Merge.WinnerAlwaysPresent: a statement about the state `ProcessLine` is entered with; the guard itself is folded into `Merge.ProcessLine`'s test of an empty frontier.

## Findings

| source | as written | input that shows it | evidently intended | confidence | as-written member | corrected member |
|---|---|---|---|---|---|---|
| src/ExternalSort.ts:43 | chunk files are always named `chunk_<i>.tmp`, but the merge lists files starting with `chunkFilename` (line 111) | `chunkFilename: "part"`: no chunk file is listed, and the output file is empty | chunk files named `${chunkFilename}_<i>.tmp`, so every chunk is listed | not executed | Pipeline.ListedNone | Pipeline.ListedAll |
| ExternalSort.ts:83-94 | the budget is checked before the line is pushed, so a first line that alone reaches the budget writes an empty chunk; `_WriteChunkFile` then writes `${undefined}` | `heatSize: 5` (chunk budget 3), entry file `abc\n`: the output holds `abc` and `undefined` | push, then check, so no chunk is empty (as `src/ExternalSort.ts:94-101` does) | not executed | LegacyPipeline.UndefinedExample | Splitter.SplitIntoChunks |
| ExternalSort.js:86 | the last chunk is written without the comparer, so it is sorted in default (ascending code-unit) order | `orderBy: "desc"`, one chunk `b`, `a`: written `a`, `b` | every chunk sorted by the configured comparator | not executed | LegacyPipeline.DefaultOrderIgnoresDesc | LegacyPipeline.LegacyMergeSorted |
| LineReader.js:38 | the result of `filter` is discarded, so empty lines are not dropped | buffer `a\n\nb\n` with `filterEmpty`: queued `a`, an empty line, `b`. So in the older sorters an empty entry line survives the merge: the entry `b\n\na\n` is written as `\na\nb\n` (`LegacyPipeline.EmptyLineKept`) | assign the filtered lines (as `src/LineReader.ts:52` does) | not executed | LineReader.LegacyFilterIgnored | LineReader.OnData |
| LineReader.js:48-54 | `end` finishes when the queue is empty even if a last line without `\n` is still held as the fragment | file `a` in one buffer: events `finish`, `end`, `a` | finish only when the fragment is empty too (as `src/LineReader.ts:57` does) | not executed | LineReader.LegacyFinishBeforeLastLine | LineReader.CurrentFinishAfterLastLine |
| src/ExternalSort.ts:151 | each cursor's `highWaterMark` is `Math.floor(heatSize * 0.8 / n)`, which is 0 when `10 n > 8 heat`; the entry reader's `Math.floor(heatSize * 0.2)` at line 79 is 0 for `heatSize` at most 4 (the same at `ExternalSort.ts:68,102` and `ExternalSort.js:58,94`). A read stream with `highWaterMark` 0 ends without reading, so lines are lost without an error | `heatSize: 4`: the entry file is read as empty and the output is empty; or `heatSize: 10` with 8 chunk files listed and `chunksPointerLimit: 8`: the final merge reads nothing and the output is empty | every reader gets at least one byte, so every line reaches the output | not executed | Workspace.StarvedMerge | Pipeline.Sort |
