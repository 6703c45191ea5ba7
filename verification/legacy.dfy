/**
 * `sort()` of the older ExternalSort.ts and ExternalSort.js: the check-before-push splitter, chunk
 * files `chunk_<i>.tmp` listed by the fixed prefix `chunk`, and one merge of all of them into the
 * output file, with no cursor limit and no generations. ExternalSort.js writes its last chunk
 * without the comparer, so that chunk is sorted by `Array.prototype.sort`'s default order.
 */
module LegacyPipeline {
  import opened Wrappers
  import opened Order
  import opened Comparator
  import opened LineSplit
  import opened Config
  import opened Workspace
  import opened Pipeline
  import Merge
  import Splitter
  import Utf16
  import LineReader

  /** The comparator of the older constructors; ExternalSort.js lower-cases `orderBy` first. */
  function LegacyComparerOf(o: Options, localeCompare: Comparer, js: bool): Comparer {
    GetComparer(LegacyConfigure(o, js).orderBy, LegacyConfigure(o, js).useLocaleOrder, localeCompare)
  }

  function LegacyBudget(o: Options, js: bool): nat {
    Share(LegacyConfigure(o, js).heatSize, 6)
  }

  /** The extra line an empty first chunk adds: its file holds `undefined`. */
  function Extra(lines: seq<string>, budget: nat): multiset<string> {
    if |lines| > 0 && Utf16.Length(lines[0]) >= budget then multiset{"undefined"} else multiset{}
  }

  /** How many chunks are empty. */
  function Empties(chunks: seq<seq<string>>): nat {
    if |chunks| == 0 then 0 else (if |chunks[0]| == 0 then 1 else 0) + Empties(chunks[1..])
  }

  /** The chunk files hold the lines of the chunks plus one `undefined` per empty chunk. */
  lemma {:induction false} FlattenBodies(bodies: seq<seq<string>>, chunks: seq<seq<string>>)
    requires |bodies| == |chunks|
    requires forall i :: 0 <= i < |chunks| && |chunks[i]| > 0 ==> multiset(bodies[i]) == multiset(chunks[i])
    requires forall i :: 0 <= i < |chunks| && |chunks[i]| == 0 ==> bodies[i] == ["undefined"]
    ensures multiset(Flatten(bodies)) == multiset(Flatten(chunks)) + multiset{}["undefined" := Empties(chunks)]
  {
    if |chunks| > 0 {
      FlattenBodies(bodies[1..], chunks[1..]);
      if |chunks[0]| == 0 {
        assert multiset(bodies[0]) == multiset{"undefined"};
      }
    }
  }

  /** Only the first chunk of a check-before-push chunking can be empty, exactly when the first line reaches the budget. */
  lemma LegacyEmpties(lines: seq<string>, budget: nat, chunks: seq<seq<string>>)
    requires Splitter.IsLegacyChunking(lines, budget, chunks)
    ensures multiset{}["undefined" := Empties(chunks)] == Extra(lines, budget)
  {
    if |chunks| > 0 {
      NoEmpties(chunks[1..]);
    }
  }

  lemma {:induction false} NoEmpties(chunks: seq<seq<string>>)
    requires forall k :: 0 <= k < |chunks| ==> |chunks[k]| > 0
    ensures Empties(chunks) == 0
  {
    if |chunks| > 0 {
      NoEmpties(chunks[1..]);
    }
  }

  /** A one-chunk check-before-push chunking holds all the lines, and there are some. */
  lemma OneLegacyChunk(lines: seq<string>, budget: nat, chunks: seq<seq<string>>)
    requires Splitter.IsLegacyChunking(lines, budget, chunks) && |chunks| == 1
    ensures chunks[0] == lines && |lines| > 0
  {
    FlattenOne(chunks[0]);
    assert chunks == [chunks[0]];
  }

  /** Chunk bodies as `_WriteChunkFile` writes them: clean lines, the chunk's own unless it was empty. */
  ghost predicate WrittenFrom(bodies: seq<seq<string>>, chunks: seq<seq<string>>) {
    && |bodies| == |chunks|
    && (forall i :: 0 <= i < |chunks| ==> AllClean(bodies[i]))
    && (forall i :: 0 <= i < |chunks| && |chunks[i]| > 0 ==> multiset(bodies[i]) == multiset(chunks[i]))
    && (forall i :: 0 <= i < |chunks| && |chunks[i]| == 0 ==> bodies[i] == ["undefined"])
  }

  ghost predicate AllSorted(cmp: Comparer, bodies: seq<seq<string>>) {
    forall i :: 0 <= i < |bodies| ==> Sorted(cmp, bodies[i])
  }

  /** What `_WriteChunkFile` wrote for each chunk, sorted by the comparer it got. */
  lemma LegacyBodies(cmp: Comparer, js: bool, lines: seq<string>, budget: nat, chunks: seq<seq<string>>)
    requires AllClean(lines) && Splitter.IsLegacyChunking(lines, budget, chunks)
    ensures WrittenFrom(Bodies(cmp, if js then DefaultSortOrder else cmp, chunks), chunks)
    ensures !js && TotalPreorder(cmp) ==> AllSorted(cmp, Bodies(cmp, cmp, chunks))
  {
    FlattenClean(chunks);
    BodiesWritten(cmp, if js then DefaultSortOrder else cmp, chunks);
    if !js && TotalPreorder(cmp) {
      BodiesSorted(cmp, chunks);
    }
  }

  lemma BodiesWritten(cmp: Comparer, lastCmp: Comparer, chunks: seq<seq<string>>)
    requires forall i :: 0 <= i < |chunks| ==> AllClean(chunks[i])
    ensures WrittenFrom(Bodies(cmp, lastCmp, chunks), chunks)
  {
    var bodies := Bodies(cmp, lastCmp, chunks);
    forall i | 0 <= i < |chunks|
      ensures AllClean(bodies[i])
    {
      var c := if i == |chunks| - 1 then lastCmp else cmp;
      assert bodies[i] == WrittenLines(c, chunks[i]);
      if |chunks[i]| > 0 {
        CleanMultiset(bodies[i], chunks[i]);
      } else {
        assert bodies[i] == ["undefined"];
      }
    }
  }

  lemma BodiesSorted(cmp: Comparer, chunks: seq<seq<string>>)
    requires TotalPreorder(cmp)
    ensures AllSorted(cmp, Bodies(cmp, cmp, chunks))
  {
    var bodies := Bodies(cmp, cmp, chunks);
    forall i | 0 <= i < |chunks|
      ensures Sorted(cmp, bodies[i])
    {
      assert bodies[i] == WrittenLines(cmp, chunks[i]);
    }
  }

  // ---------------------------------------------------------------------------------------------
  // Chunk files as LineReader.js reads them.

  /**
   * The lines LineReader.js emits for file `f`: every part of the text but a trailing empty one,
   * empty lines included, since its filter's result is discarded.
   */
  function LegacyLoaded(fs: FS, f: string): seq<string>
    requires f in fs.files
  {
    LineReader.LinesOf(fs.files[f], false)
  }

  /** One run per file, in the order of `names`. */
  function LegacyLoadAll(fs: FS, names: seq<string>): (runs: seq<seq<string>>)
    requires Present(fs, names)
    ensures |runs| == |names|
    ensures forall k :: 0 <= k < |names| ==> runs[k] == LegacyLoaded(fs, names[k])
  {
    seq(|names|, k requires 0 <= k < |names| => LegacyLoaded(fs, names[k]))
  }

  /**
   * A chunk file ends in a line break, so LineReader.js's early `finish` cannot fire on it: under
   * any schedule and any read-buffer boundaries, once the cursor finishes it has emitted exactly
   * the lines written, empty ones included, and no line after `finish`.
   */
  lemma LegacyChunkRead(body: seq<string>, arrivals: seq<string>, filterEmpty: bool, steps: seq<LineReader.Step>)
    requires AllClean(body) && LineReader.ArrivalsOk(arrivals) && LineReader.Concat(arrivals) == Serialize(body)
    ensures var r := LineReader.Run(LineReader.Start(arrivals, filterEmpty), steps, LineReader.Legacy).reader;
      r.finished ==> LineReader.Emitted(r.events) == body && LineReader.NoLineAfterFinish(r.events)
  {
    SerializeEnds(body);
    LineReader.LegacyReadsAll(arrivals, filterEmpty, steps);
    LineReader.LinesOfSerialized(body, false);
  }

  /** Chunk files read through LineReader.js give back the bodies written, in the listed order. */
  lemma LegacyReadBack(dir: string, fs: FS, bodies: seq<seq<string>>, ix: seq<nat>)
    requires Holds(AsWritten, dir, "chunk", fs, bodies, |bodies|)
    requires forall i :: 0 <= i < |bodies| ==> AllClean(bodies[i])
    requires forall k :: 0 <= k < |ix| ==> ix[k] < |bodies|
    ensures Present(fs, Paths(AsWritten, dir, "chunk", ix))
    ensures LegacyLoadAll(fs, Paths(AsWritten, dir, "chunk", ix)) == Pick(bodies, ix)
  {
    var ps := Paths(AsWritten, dir, "chunk", ix);
    forall k | 0 <= k < |ix|
      ensures ps[k] in fs.files && LegacyLoaded(fs, ps[k]) == bodies[ix[k]]
    {
      LineReader.LinesOfSerialized(bodies[ix[k]], false);
    }
  }

  /** The listing of `chunk*` files, in whatever order, picks every chunk file. */
  lemma ListedChunks(n: nat, ix: seq<nat>)
    requires multiset(ix) == multiset(Listed(AsWritten, "chunk", n))
    ensures multiset(ix) == multiset(Indices(n))
    ensures forall k :: 0 <= k < |ix| ==> ix[k] < n
  {
    assert FindsAll(AsWritten, "chunk");
    ListedAll(AsWritten, "chunk", n);
    Bounded(ix, Indices(n), n);
  }

  /** The one listing of a single chunk file. */
  lemma OneListing(ix: seq<nat>)
    requires multiset(ix) == multiset(Indices(1))
    ensures ix == [0]
  {
    assert Indices(1) == [0];
    assert |ix| == |multiset(ix)| == 1;
    assert ix[0] in multiset(ix);
  }

  /**
   * The `chunk*` files, listed in any order, hold every line of the entry file, empty ones
   * included, plus `undefined` when the first line alone reached the budget.
   */
  lemma LegacyPool(cmp: Comparer, js: bool, dir: string, fs: FS, lines: seq<string>, budget: nat, chunks: seq<seq<string>>,
                   ix: seq<nat>)
    requires AllClean(lines) && Splitter.IsLegacyChunking(lines, budget, chunks)
    requires Holds(AsWritten, dir, "chunk", fs, Bodies(cmp, if js then DefaultSortOrder else cmp, chunks), |chunks|)
    requires multiset(ix) == multiset(Listed(AsWritten, "chunk", |chunks|))
    ensures var cur := Paths(AsWritten, dir, "chunk", ix);
      Present(fs, cur) && multiset(Flatten(LegacyLoadAll(fs, cur))) == multiset(lines) + Extra(lines, budget)
  {
    ListedChunks(|chunks|, ix);
    LegacyBodies(cmp, js, lines, budget, chunks);
    ReadPool(dir, fs, Bodies(cmp, if js then DefaultSortOrder else cmp, chunks), lines, budget, chunks, ix);
  }

  lemma ReadPool(dir: string, fs: FS, bodies: seq<seq<string>>, lines: seq<string>, budget: nat, chunks: seq<seq<string>>,
                 ix: seq<nat>)
    requires Splitter.IsLegacyChunking(lines, budget, chunks)
    requires WrittenFrom(bodies, chunks) && Holds(AsWritten, dir, "chunk", fs, bodies, |bodies|)
    requires multiset(ix) == multiset(Indices(|chunks|))
    ensures var cur := Paths(AsWritten, dir, "chunk", ix);
      Present(fs, cur) && multiset(Flatten(LegacyLoadAll(fs, cur))) == multiset(lines) + Extra(lines, budget)
  {
    PickedPool(bodies, lines, budget, chunks, ix);
    LegacyReadBack(dir, fs, bodies, ix);
  }

  /** The chunk bodies, picked in any order, hold the lines and the extra `undefined`. */
  lemma PickedPool(bodies: seq<seq<string>>, lines: seq<string>, budget: nat, chunks: seq<seq<string>>, ix: seq<nat>)
    requires Splitter.IsLegacyChunking(lines, budget, chunks) && WrittenFrom(bodies, chunks)
    requires multiset(ix) == multiset(Indices(|chunks|))
    ensures forall k :: 0 <= k < |ix| ==> ix[k] < |bodies|
    ensures multiset(Flatten(Pick(bodies, ix))) == multiset(lines) + Extra(lines, budget)
  {
    PickMultiset(bodies, ix, Indices(|chunks|));
    PickAll(bodies);
    FlattenBodies(bodies, chunks);
    LegacyEmpties(lines, budget, chunks);
  }

  /** Runs picked from sorted bodies are sorted. */
  lemma PickSorted(cmp: Comparer, bodies: seq<seq<string>>, ix: seq<nat>)
    requires TotalPreorder(cmp) && AllSorted(cmp, bodies)
    requires forall k :: 0 <= k < |ix| ==> ix[k] < |bodies|
    ensures Merge.RunsSorted(cmp, Pick(bodies, ix))
  {
  }

  /** The listed chunk files read back as their bodies, sorted when every chunk was sorted by the comparer. */
  lemma LegacyRuns(cmp: Comparer, js: bool, dir: string, fs: FS, lines: seq<string>, budget: nat, chunks: seq<seq<string>>,
                   ix: seq<nat>)
    requires AllClean(lines) && Splitter.IsLegacyChunking(lines, budget, chunks)
    requires Holds(AsWritten, dir, "chunk", fs, Bodies(cmp, if js then DefaultSortOrder else cmp, chunks), |chunks|)
    requires multiset(ix) == multiset(Listed(AsWritten, "chunk", |chunks|))
    ensures forall k :: 0 <= k < |ix| ==> ix[k] < |chunks|
    ensures Present(fs, Paths(AsWritten, dir, "chunk", ix))
    ensures LegacyLoadAll(fs, Paths(AsWritten, dir, "chunk", ix)) == Pick(Bodies(cmp, if js then DefaultSortOrder else cmp, chunks), ix)
    ensures !js && TotalPreorder(cmp) ==> Merge.RunsSorted(cmp, LegacyLoadAll(fs, Paths(AsWritten, dir, "chunk", ix)))
  {
    ListedChunks(|chunks|, ix);
    LegacyBodies(cmp, js, lines, budget, chunks);
    ReadRuns(cmp, !js && TotalPreorder(cmp), dir, fs, Bodies(cmp, if js then DefaultSortOrder else cmp, chunks), ix);
  }

  lemma ReadRuns(cmp: Comparer, sorted: bool, dir: string, fs: FS, bodies: seq<seq<string>>, ix: seq<nat>)
    requires Holds(AsWritten, dir, "chunk", fs, bodies, |bodies|)
    requires forall i :: 0 <= i < |bodies| ==> AllClean(bodies[i])
    requires sorted ==> TotalPreorder(cmp) && AllSorted(cmp, bodies)
    requires forall k :: 0 <= k < |ix| ==> ix[k] < |bodies|
    ensures Present(fs, Paths(AsWritten, dir, "chunk", ix))
    ensures LegacyLoadAll(fs, Paths(AsWritten, dir, "chunk", ix)) == Pick(bodies, ix)
    ensures sorted ==> Merge.RunsSorted(cmp, LegacyLoadAll(fs, Paths(AsWritten, dir, "chunk", ix)))
  {
    LegacyReadBack(dir, fs, bodies, ix);
    if sorted {
      PickSorted(cmp, bodies, ix);
    }
  }

  /** The one merge of all chunk files writes every line they hold. */
  lemma LegacyMergeAll(cmp: Comparer, js: bool, dir: string, fs: FS, lines: seq<string>, budget: nat, chunks: seq<seq<string>>,
                       ix: seq<nat>)
    requires AllClean(lines) && Splitter.IsLegacyChunking(lines, budget, chunks)
    requires Holds(AsWritten, dir, "chunk", fs, Bodies(cmp, if js then DefaultSortOrder else cmp, chunks), |chunks|)
    requires multiset(ix) == multiset(Listed(AsWritten, "chunk", |chunks|))
    ensures Present(fs, Paths(AsWritten, dir, "chunk", ix))
    ensures multiset(Merge.MergeRuns(cmp, LegacyLoadAll(fs, Paths(AsWritten, dir, "chunk", ix)), Merge.LegacyRule))
            == multiset(lines) + Extra(lines, budget)
  {
    LegacyPool(cmp, js, dir, fs, lines, budget, chunks, ix);
  }

  /** The one merge of all chunk files, when every chunk was sorted by the comparer, is sorted. */
  lemma LegacyMergeSorted(cmp: Comparer, js: bool, dir: string, fs: FS, lines: seq<string>, budget: nat, chunks: seq<seq<string>>,
                          ix: seq<nat>)
    requires AllClean(lines) && Splitter.IsLegacyChunking(lines, budget, chunks)
    requires Holds(AsWritten, dir, "chunk", fs, Bodies(cmp, if js then DefaultSortOrder else cmp, chunks), |chunks|)
    requires multiset(ix) == multiset(Listed(AsWritten, "chunk", |chunks|))
    requires !js && TotalPreorder(cmp)
    ensures Present(fs, Paths(AsWritten, dir, "chunk", ix))
    ensures Sorted(cmp, Merge.MergeRuns(cmp, LegacyLoadAll(fs, Paths(AsWritten, dir, "chunk", ix)), Merge.LegacyRule))
  {
    LegacyRuns(cmp, js, dir, fs, lines, budget, chunks, ix);
  }

  /** With one chunk, the one merge writes that chunk file back as it was sorted: in default order. */
  lemma LegacyMergeOne(cmp: Comparer, js: bool, dir: string, fs: FS, lines: seq<string>, budget: nat, chunks: seq<seq<string>>,
                       ix: seq<nat>)
    requires AllClean(lines) && Splitter.IsLegacyChunking(lines, budget, chunks)
    requires Holds(AsWritten, dir, "chunk", fs, Bodies(cmp, if js then DefaultSortOrder else cmp, chunks), |chunks|)
    requires multiset(ix) == multiset(Listed(AsWritten, "chunk", |chunks|))
    requires js && |chunks| == 1
    ensures Present(fs, Paths(AsWritten, dir, "chunk", ix))
    ensures Merge.MergeRuns(cmp, LegacyLoadAll(fs, Paths(AsWritten, dir, "chunk", ix)), Merge.LegacyRule)
            == SortBy(DefaultSortOrder, lines)
  {
    LegacyOneRun(cmp, js, dir, fs, lines, budget, chunks, ix);
    Merge.MergeSingle(cmp, SortBy(DefaultSortOrder, lines), Merge.LegacyRule);
  }

  /** With one chunk there is one chunk file, holding the entry's lines sorted in default order. */
  lemma LegacyOneRun(cmp: Comparer, js: bool, dir: string, fs: FS, lines: seq<string>, budget: nat, chunks: seq<seq<string>>,
                     ix: seq<nat>)
    requires AllClean(lines) && Splitter.IsLegacyChunking(lines, budget, chunks)
    requires Holds(AsWritten, dir, "chunk", fs, Bodies(cmp, if js then DefaultSortOrder else cmp, chunks), |chunks|)
    requires multiset(ix) == multiset(Listed(AsWritten, "chunk", |chunks|))
    requires js && |chunks| == 1
    ensures Present(fs, Paths(AsWritten, dir, "chunk", ix))
    ensures LegacyLoadAll(fs, Paths(AsWritten, dir, "chunk", ix)) == [SortBy(DefaultSortOrder, lines)]
  {
    ListedChunks(|chunks|, ix);
    OneListing(ix);
    LegacyRuns(cmp, js, dir, fs, lines, budget, chunks, ix);
    OneLegacyChunk(lines, budget, chunks);
    assert Bodies(cmp, DefaultSortOrder, chunks)[0] == SortBy(DefaultSortOrder, lines);
  }

  /** The configured heat size of the older constructors, with the readers' buffers derived as `b` says. */
  function LegacyReadingOf(o: Options, js: bool, b: Buffering): Reading {
    Reading(LegacyConfigure(o, js).heatSize, b)
  }

  /** Every read stream of an older run gets a buffer of at least one byte: the entry file's reader and the `n` cursors of the one merge. */
  predicate LegacyFed(rd: Reading, n: nat) {
    SplitReader(rd) >= 1 && MergeFed(rd, n)
  }

  /** Cursors with buffers of at least one byte read the chunk files whole, as LineReader.js does. */
  lemma LegacyReadFed(fs: FS, names: seq<string>, rd: Reading)
    requires Present(fs, names) && MergeFed(rd, |names|)
    ensures MergeRead(fs, names, rd, false) == LegacyLoadAll(fs, names)
  {
  }

  /** A single chunk means the entry's reader read something, and then one cursor is fed too. */
  lemma OneChunkFed(rd: Reading)
    requires SplitReader(rd) >= 1
    ensures LegacyFed(rd, 1)
  {
    SplitReaderFeeds(rd);
    MergeReaderFeeds(rd, 1);
  }

  /** Raised buffers feed every older run. */
  lemma LegacyRaisedFed(heat: nat, n: nat)
    ensures LegacyFed(Reading(heat, AtLeastOne), n)
  {
    RaisedFed(heat, n, n);
  }

  /**
   * What the one merge writes, reading the listed chunk files through cursors whose buffers come
   * from `rd`: the lines of the entry file and the extra `undefined` when every reader is fed,
   * nothing otherwise; sorted when every chunk was sorted by the comparer.
   */
  lemma LegacyWritten(cmp: Comparer, js: bool, dir: string, fs: FS, lines: seq<string>, budget: nat, chunks: seq<seq<string>>,
                      ix: seq<nat>, rd: Reading)
    requires AllClean(lines) && Splitter.IsLegacyChunking(lines, budget, chunks)
    requires SplitReader(rd) == 0 ==> lines == []
    requires Holds(AsWritten, dir, "chunk", fs, Bodies(cmp, if js then DefaultSortOrder else cmp, chunks), |chunks|)
    requires multiset(ix) == multiset(Listed(AsWritten, "chunk", |chunks|))
    ensures Present(fs, Paths(AsWritten, dir, "chunk", ix))
    ensures var w := Merge.MergeRuns(cmp, MergeRead(fs, Paths(AsWritten, dir, "chunk", ix), rd, false), Merge.LegacyRule);
      && (LegacyFed(rd, |chunks|) ==> multiset(w) == multiset(lines) + Extra(lines, budget))
      && (!LegacyFed(rd, |chunks|) ==> w == [])
      && (!js && TotalPreorder(cmp) ==> Sorted(cmp, w))
      && (js && |chunks| == 1 ==> w == SortBy(DefaultSortOrder, lines))
  {
    var cur := Paths(AsWritten, dir, "chunk", ix);
    LegacyRuns(cmp, js, dir, fs, lines, budget, chunks, ix);
    ListedChunks(|chunks|, ix);
    if LegacyFed(rd, |chunks|) {
      LegacyReadFed(fs, cur, rd);
      LegacyMergeAll(cmp, js, dir, fs, lines, budget, chunks, ix);
      if !js && TotalPreorder(cmp) {
        LegacyMergeSorted(cmp, js, dir, fs, lines, budget, chunks, ix);
      }
      if js && |chunks| == 1 {
        LegacyMergeOne(cmp, js, dir, fs, lines, budget, chunks, ix);
      }
    } else {
      LegacyStarved(cmp, fs, cur, rd, |chunks|);
      if |chunks| == 1 {
        OneChunkFed(rd);
      }
    }
  }

  /** An older run that is not fed writes nothing: no line was read, or the one merge's cursors read nothing. */
  lemma LegacyStarved(cmp: Comparer, fs: FS, cur: seq<string>, rd: Reading, n: nat)
    requires Present(fs, cur) && |cur| == n && !LegacyFed(rd, n)
    requires SplitReader(rd) == 0 ==> n == 0
    ensures Merge.MergeRuns(cmp, MergeRead(fs, cur, rd, false), Merge.LegacyRule) == []
  {
    if n > 0 {
      MergeReadStarved(fs, cur, rd, false);
    }
    assert |multiset(Merge.MergeRuns(cmp, MergeRead(fs, cur, rd, false), Merge.LegacyRule))| == 0;
  }

  /**
   * The older `sort()` after the chunk directory was reset: split what the entry file's reader
   * reads, write, one merge into the output file. `b` says how the readers' buffers come from the
   * heat size.
   */
  method LegacySortEntry(s: Settings, cmp: Comparer, fs: FS, accepts: nat -> bool, js: bool, b: Buffering,
                         arrange: seq<nat> -> seq<nat>)
    returns (fs': FS, chunks: seq<seq<string>>, written: seq<string>)
    requires s.entryFile in fs.files
    requires Rearranges(arrange)
    ensures SplitReader(Reading(s.heatSize, b)) == 0 ==> chunks == [] && written == []
    ensures SplitReader(Reading(s.heatSize, b)) >= 1 ==>
      Splitter.IsLegacyChunking(ReadlineSplit(fs.files[s.entryFile]), Share(s.heatSize, 6), chunks)
    ensures LegacyFed(Reading(s.heatSize, b), |chunks|) ==>
      multiset(written) == multiset(ReadlineSplit(fs.files[s.entryFile])) + Extra(ReadlineSplit(fs.files[s.entryFile]), Share(s.heatSize, 6))
    ensures !LegacyFed(Reading(s.heatSize, b), |chunks|) ==> written == []
    ensures !js && TotalPreorder(cmp) ==> Sorted(cmp, written)
    ensures js && |chunks| == 1 ==> written == SortBy(DefaultSortOrder, ReadlineSplit(fs.files[s.entryFile]))
    ensures !Within(s.chunkDir, s.outputFile) ==> s.outputFile in fs'.files && fs'.files[s.outputFile] == Serialize(written)
    ensures forall p :: p in fs.files && p != s.outputFile && !Within(s.chunkDir, p) ==> p in fs'.files && fs'.files[p] == fs.files[p]
    ensures fs'.dirs == fs.dirs
  {
    var rd := Reading(s.heatSize, b);
    var lines := ReadlineSplit(Streamed(SplitReader(rd), fs.files[s.entryFile]));
    chunks := Splitter.LegacySplitIntoChunks(lines, Share(s.heatSize, 6));
    if SplitReader(rd) == 0 {
      assert ReadlineParts("") == [""];
    }
    var lastCmp := if js then DefaultSortOrder else cmp;
    var fs2 := WriteChunks(cmp, lastCmp, AsWritten, s.chunkDir, "chunk", fs, chunks, accepts);
    var ix := arrange(Listed(AsWritten, "chunk", |chunks|));
    LegacyWritten(cmp, js, s.chunkDir, fs2, lines, Share(s.heatSize, 6), chunks, ix, rd);
    written := Merge.MergeRuns(cmp, MergeRead(fs2, Paths(AsWritten, s.chunkDir, "chunk", ix), rd, false), Merge.LegacyRule);
    OutputKeeps(s.chunkDir, fs, fs2, s.outputFile, Serialize(written));
    fs' := fs2.(files := fs2.files[s.outputFile := Serialize(written)]);
  }

  /**
   * `sort()` of ExternalSort.ts (`js` false) and ExternalSort.js (`js` true). `accepts(n)` is what
   * a chunk writer's `n`-th `write` returns; `b` says how the readers' buffers come from the heat
   * size (`Floored` as written); `arrange` is the order in which `readdirSync` lists the chunk files.
   */
  method LegacySort(o: Options, fs: FS, localeCompare: Comparer, accepts: nat -> bool, js: bool, b: Buffering,
                    arrange: seq<nat> -> seq<nat>)
    returns (r: Result<Outcome, Failure>)
    requires Rearranges(arrange)
    ensures !Exists(fs, o.entryFile) ==> r == Err(EntryMissing(o.entryFile))
    ensures Exists(fs, o.entryFile) && !Readable(fs, o) ==> r == Err(EntryUnreadable(o.entryFile))
    ensures r.Ok? <==> Readable(fs, o)
    ensures r.Ok? && SplitReader(LegacyReadingOf(o, js, b)) == 0 ==> r.value.chunks == [] && r.value.written == []
    ensures r.Ok? && SplitReader(LegacyReadingOf(o, js, b)) >= 1 ==>
      Splitter.IsLegacyChunking(EntryLines(fs, o), LegacyBudget(o, js), r.value.chunks)
    ensures r.Ok? && LegacyFed(LegacyReadingOf(o, js, b), |r.value.chunks|) ==>
      multiset(r.value.written) == multiset(EntryLines(fs, o)) + Extra(EntryLines(fs, o), LegacyBudget(o, js))
    ensures r.Ok? && b == AtLeastOne ==>
      multiset(r.value.written) == multiset(EntryLines(fs, o)) + Extra(EntryLines(fs, o), LegacyBudget(o, js))
    ensures r.Ok? && !LegacyFed(LegacyReadingOf(o, js, b), |r.value.chunks|) ==> r.value.written == []
    ensures r.Ok? && !js && TotalPreorder(LegacyComparerOf(o, localeCompare, js)) ==>
      Sorted(LegacyComparerOf(o, localeCompare, js), r.value.written)
    ensures r.Ok? && js && |r.value.chunks| == 1 ==> r.value.written == SortBy(DefaultSortOrder, EntryLines(fs, o))
    ensures r.Ok? && !Within(o.chunkDir, o.outputFile) ==>
      o.outputFile in r.value.fs.files && r.value.fs.files[o.outputFile] == Serialize(r.value.written)
    ensures r.Ok? ==> forall p :: p in fs.files && p != o.outputFile && !Within(o.chunkDir, p) ==>
      p in r.value.fs.files && r.value.fs.files[p] == fs.files[p]
    ensures r.Ok? ==> (Exists(r.value.fs, o.chunkDir) <==> o.removeChunks != Some(true))
  {
    var s := LegacyConfigure(o, js);
    var cmp := GetComparer(s.orderBy, s.useLocaleOrder, localeCompare);
    if !Exists(fs, s.entryFile) {
      return Err(EntryMissing(s.entryFile));
    }
    if !Readable(fs, o) {
      return Err(EntryUnreadable(s.entryFile)); // the reset deleted it, or it is not a file
    }
    var fs1 := CreateDir(ClearDir(fs, s.chunkDir), s.chunkDir);
    var fs2, chunks, written := LegacySortEntry(s, cmp, fs1, accepts, js, b, arrange);
    if b == AtLeastOne {
      LegacyRaisedFed(s.heatSize, |chunks|);
    }
    Finished(fs, fs2, s.chunkDir, s.outputFile, Serialize(written), s.removeChunks);
    r := Ok(Outcome(if s.removeChunks then ClearDir(fs2, s.chunkDir) else fs2, chunks, written));
  }

  // ---------------------------------------------------------------------------------------------
  // The two defects, on concrete inputs.

  /**
   * With `heatSize` 5 the configured heat size is 5: the entry file's reader gets a buffer of 1
   * byte, the chunk budget is 3, and the one merge of one or two chunk files gives each cursor at
   * least 1 byte. The entry file "abc\n" has the single line `abc` of length 3, which reaches the
   * budget, so the output holds `undefined` besides `abc`.
   */
  lemma UndefinedExample(o: Options, js: bool, b: Buffering)
    requires o.heatSize == 5
    ensures LegacyBudget(o, js) == 3
    ensures SplitReader(LegacyReadingOf(o, js, b)) == 1
    ensures LegacyFed(LegacyReadingOf(o, js, b), 1) && LegacyFed(LegacyReadingOf(o, js, b), 2)
    ensures ReadlineSplit("abc\n") == ["abc"]
    ensures Extra(["abc"], 3) == multiset{"undefined"}
    ensures multiset(["abc"]) + Extra(["abc"], 3) == multiset{"abc", "undefined"}
  {
    var rd := LegacyReadingOf(o, js, b);
    assert rd.heat == 5;
    MergeReaderFeeds(rd, 1);
    MergeReaderFeeds(rd, 2);
    assert Serialize(["abc"]) == "abc\n" by {
      assert ["abc"][1..] == [];
    }
    ReadlineSerialized(["abc"]);
    assert Utf16.Length("abc") >= 3;
  }

  /**
   * LineReader.js keeps empty lines, so an empty entry line reaches the output of the older
   * sorters: the entry file "b\n\na\n" is read as `b`, an empty line and `a`, and one chunk of
   * them comes out as "\na\nb\n".
   */
  lemma EmptyLineKept()
    ensures ReadlineSplit("b\n\na\n") == ["b", "", "a"]
    ensures SortBy(DefaultSortOrder, ["b", "", "a"]) == ["", "a", "b"]
    ensures Serialize(["", "a", "b"]) == "\na\nb\n"
  {
    EmptyLineSerialized();
    ReadlineSerialized(["b", "", "a"]);
    EmptyLineSorted();
  }

  lemma EmptyLineSerialized()
    ensures Serialize(["b", "", "a"]) == "b\n\na\n"
    ensures Serialize(["", "a", "b"]) == "\na\nb\n"
  {
    assert ["a"][1..] == [] && ["b"][1..] == [];
    assert ["", "a"][1..] == ["a"] && ["a", "b"][1..] == ["b"];
    assert ["b", "", "a"][1..] == ["", "a"] && ["", "a", "b"][1..] == ["a", "b"];
  }

  lemma EmptyLineSorted()
    ensures SortBy(DefaultSortOrder, ["b", "", "a"]) == ["", "a", "b"]
  {
    assert ["b", "", "a"][1..] == ["", "a"];
    SortEmptyA();
    InsertB();
  }

  /** The default order on the three strings of the example. */
  lemma DefaultOnExample()
    ensures Le(DefaultSortOrder, "", "a")
    ensures !Le(DefaultSortOrder, "b", "") && !Le(DefaultSortOrder, "b", "a")
  {
    assert Utf16.Encode("") == [] && Utf16.Encode("a") == ['a' as int] && Utf16.Encode("b") == ['b' as int];
  }

  lemma SortEmptyA()
    ensures SortBy(DefaultSortOrder, ["", "a"]) == ["", "a"]
  {
    DefaultOnExample();
    assert ["", "a"][1..] == ["a"] && ["a"][1..] == [];
    assert SortBy(DefaultSortOrder, ["a"]) == ["a"];
  }

  lemma InsertB()
    ensures Insert(DefaultSortOrder, "b", ["", "a"]) == ["", "a", "b"]
  {
    DefaultOnExample();
    assert ["", "a"][1..] == ["a"] && ["a"][1..] == [];
    assert Insert(DefaultSortOrder, "b", ["a"]) == ["a"] + Insert(DefaultSortOrder, "b", []);
  }

  /**
   * The default order puts "a" before "b", so ExternalSort.js writes a single last chunk
   * ascending even when descending order was asked for.
   */
  lemma DefaultOrderIgnoresDesc(localeCompare: Comparer)
    ensures SortBy(DefaultSortOrder, ["b", "a"]) == ["a", "b"]
    ensures !Sorted(GetComparer(Desc, false, localeCompare), ["a", "b"])
    ensures Sorted(GetComparer(Desc, false, localeCompare), ["b", "a"])
  {
    assert Utf16.Encode("a") == ['a' as int] && Utf16.Encode("b") == ['b' as int];
    assert ["b", "a"][1..] == ["a"];
    assert SortBy(DefaultSortOrder, ["a"]) == ["a"];
    assert !Le(DefaultSortOrder, "b", "a");
    assert Insert(DefaultSortOrder, "b", ["a"]) == ["a"] + Insert(DefaultSortOrder, "b", []);
    assert !Le(GetComparer(Desc, false, localeCompare), "a", "b");
  }
}
