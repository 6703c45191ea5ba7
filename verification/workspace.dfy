/**
 * The chunk directory and the files the sorter reads and writes. A file system is a map from
 * paths to contents plus a set of directories; `/` separates path components. Chunk and `sub`
 * files are read back the way the merge reads them: through a `LineReader` with `filterEmpty`.
 */
module Workspace {
  import opened Strings
  import opened Order
  import opened LineSplit
  import opened Batching
  import LineReader
  import Merge
  import Splitter
  import Config

  datatype FS = FS(files: map<string, string>, dirs: set<string>)

  /** `existsSync(path)`. */
  predicate Exists(fs: FS, path: string) {
    path in fs.files || path in fs.dirs
  }

  /** `path` is `dir` itself or lies inside it. */
  predicate Within(dir: string, path: string) {
    path == dir || StartsWith(path, dir + "/")
  }

  /**
   * `_clearChunkDir`: `rmSync(dir, { recursive: true, force: true })` removes the directory and
   * everything inside it. With `force` a missing path is no error, so the `existsSync` guard
   * changes nothing and is folded in.
   */
  function ClearDir(fs: FS, dir: string): (fs': FS)
    ensures !Exists(fs', dir)
    ensures forall p :: Exists(fs', p) <==> Exists(fs, p) && !Within(dir, p)
    ensures forall p :: p in fs'.files ==> p in fs.files && fs'.files[p] == fs.files[p]
    ensures forall p :: p in fs.files && !Within(dir, p) ==> p in fs'.files && fs'.files[p] == fs.files[p]
    ensures forall p :: p in fs'.dirs <==> p in fs.dirs && !Within(dir, p)
  {
    FS(map p | p in fs.files && !Within(dir, p) :: fs.files[p], set p | p in fs.dirs && !Within(dir, p))
  }

  /** `_createChunkDir`: `mkdirSync(dir)` unless something already exists at that path. */
  function CreateDir(fs: FS, dir: string): (fs': FS)
    ensures Exists(fs', dir)
    ensures Exists(fs, dir) ==> fs' == fs
    ensures fs'.files == fs.files && fs.dirs <= fs'.dirs
  {
    if Exists(fs, dir) then fs else fs.(dirs := fs.dirs + {dir})
  }

  /** Clearing twice is clearing once; creating twice is creating once. */
  lemma ClearCreateIdempotent(fs: FS, dir: string)
    ensures ClearDir(ClearDir(fs, dir), dir) == ClearDir(fs, dir)
    ensures CreateDir(CreateDir(fs, dir), dir) == CreateDir(fs, dir)
  {
    var once := ClearDir(fs, dir);
    var twice := ClearDir(once, dir);
    assert twice.files == once.files;
    assert twice.dirs == once.dirs;
  }

  /** After `_clearChunkDir` and `_createChunkDir` the chunk directory exists and is empty. */
  lemma FreshDir(fs: FS, dir: string)
    ensures dir in CreateDir(ClearDir(fs, dir), dir).dirs
    ensures forall p :: StartsWith(p, dir + "/") ==> !Exists(CreateDir(ClearDir(fs, dir), dir), p)
  {
  }

  /** How chunk files are named: as the source writes them, or after the prefix option. */
  datatype Naming = AsWritten | Corrected

  /** The base name of chunk file `i`: `chunk_${i}.tmp` as written, `${chunkFilename}_${i}.tmp` corrected. */
  function ChunkFile(naming: Naming, prefix: string, i: nat): string {
    match naming
    case AsWritten => Splitter.ChunkBase(i)
    case Corrected => prefix + "_" + NatToString(i) + ".tmp"
  }

  function ChunkPath(naming: Naming, dir: string, prefix: string, i: nat): string {
    dir + "/" + ChunkFile(naming, prefix, i)
  }

  lemma SameHeadTail(h: string, x: string, y: string, t: string)
    ensures h + x + t == h + y + t ==> x == y
  {
    if h + x + t == h + y + t {
      assert h + x + t == h + (x + t);
      assert h + y + t == h + (y + t);
      SameHead(h, x + t, y + t);
      SameTail(x, y, t);
    }
  }

  /** Distinct chunks get distinct paths. */
  lemma ChunkPathInjective(naming: Naming, dir: string, prefix: string, i: nat, j: nat)
    ensures ChunkPath(naming, dir, prefix, i) == ChunkPath(naming, dir, prefix, j) ==> i == j
  {
    var a, b := ChunkFile(naming, prefix, i), ChunkFile(naming, prefix, j);
    SameHeadTail(dir + "/", a, b, "");
    assert dir + "/" + a + "" == ChunkPath(naming, dir, prefix, i);
    assert dir + "/" + b + "" == ChunkPath(naming, dir, prefix, j);
    if a == b {
      match naming
      case AsWritten =>
        Splitter.ChunkBaseInjective(i, j);
      case Corrected =>
        SameHeadTail(prefix + "_", NatToString(i), NatToString(j), ".tmp");
        NatToStringInjective(i, j);
    }
  }

  /** A chunk file is never a `sub` file, whatever the prefix. */
  lemma ChunkPathNotSub(naming: Naming, dir: string, prefix: string, i: nat, g: nat, k: nat)
    ensures ChunkPath(naming, dir, prefix, i) != SubName(dir, g, prefix, k)
  {
    match naming
    case AsWritten =>
      assert ChunkPath(naming, dir, prefix, i) == dir + "/chunk_" + NatToString(i) + ".tmp";
      SubNameNotChunk(dir, g, prefix, k, i);
    case Corrected =>
      PrefixedNotSub(dir, prefix, i, g, k);
  }

  /** `<prefix>_<i>.tmp` and `sub<g>_<prefix>_<k>.tmp` differ at the `_` that follows the prefix in the `sub` name. */
  lemma PrefixedNotSub(dir: string, prefix: string, i: nat, g: nat, k: nat)
    ensures ChunkPath(Corrected, dir, prefix, i) != SubName(dir, g, prefix, k)
  {
    var c := ChunkPath(Corrected, dir, prefix, i);
    var s := SubName(dir, g, prefix, k);
    var ii, gg, kk := NatToString(i), NatToString(g), NatToString(k);
    var x := "sub" + gg + "_";
    var h := dir + "/";
    var c1, c2 := h + prefix + "_", ii + ".tmp";
    var s1, s2 := h + x + prefix, "_" + kk + ".tmp";
    assert c == c1 + c2;
    assert s == s1 + s2;
    if |c| == |s| {
      var q := |s1|;
      assert |ii| == |x| + |kk|;
      assert s[q] == s2[0] == '_';
      assert q - |c1| == |x| - 1 < |ii|;
      assert c[q] == c2[|x| - 1] == ii[|x| - 1];
      assert IsDigit(ii[|x| - 1]);
    }
  }

  /** The lines the merge reads from file `f`. */
  function Loaded(fs: FS, f: string): seq<string>
    requires f in fs.files
  {
    LineReader.LinesOf(fs.files[f], true)
  }

  predicate Present(fs: FS, names: seq<string>) {
    forall k :: 0 <= k < |names| ==> names[k] in fs.files
  }

  /** One run per file, in the order of `names`. */
  function LoadAll(fs: FS, names: seq<string>): (runs: seq<seq<string>>)
    requires Present(fs, names)
    ensures |runs| == |names|
    ensures forall k :: 0 <= k < |names| ==> runs[k] == Loaded(fs, names[k])
  {
    seq(|names|, k requires 0 <= k < |names| => Loaded(fs, names[k]))
  }

  lemma LoadAllAppend(fs: FS, a: seq<string>, b: seq<string>)
    requires Present(fs, a) && Present(fs, b)
    ensures Present(fs, a + b) && LoadAll(fs, a + b) == LoadAll(fs, a) + LoadAll(fs, b)
  {
    assert forall k :: 0 <= k < |a + b| ==> (a + b)[k] == if k < |a| then a[k] else b[k - |a|];
  }

  /** Files whose contents did not change load the same runs. */
  lemma LoadAllSame(fs: FS, fs': FS, names: seq<string>)
    requires Present(fs, names) && Present(fs', names)
    requires forall k :: 0 <= k < |names| ==> fs'.files[names[k]] == fs.files[names[k]]
    ensures LoadAll(fs', names) == LoadAll(fs, names)
  {
  }

  /** Lines as a chunk or `sub` file holds them after filtering: free of line breaks and non-empty. */
  predicate Proper(ls: seq<string>) {
    forall k :: 0 <= k < |ls| ==> Clean(ls[k]) && |ls[k]| > 0
  }

  lemma ProperMultiset(a: seq<string>, b: seq<string>)
    requires multiset(a) == multiset(b) && Proper(b)
    ensures Proper(a)
  {
    forall k | 0 <= k < |a|
      ensures Clean(a[k]) && |a[k]| > 0
    {
      assert a[k] in multiset(b);
      var j :| 0 <= j < |b| && b[j] == a[k];
    }
  }

  lemma {:induction false} ProperFlatten(runs: seq<seq<string>>)
    requires forall k :: 0 <= k < |runs| ==> Proper(runs[k])
    ensures Proper(Flatten(runs))
  {
    if |runs| > 0 {
      ProperFlatten(runs[1..]);
      assert forall k :: 0 <= k < |runs| - 1 ==> runs[1..][k] == runs[k + 1];
    }
  }

  /** A file is ready for the next merge: its lines are proper and, under a total preorder, sorted. */
  ghost predicate Ready(cmp: Comparer, fs: FS, f: string) {
    f in fs.files && Proper(Loaded(fs, f)) && (TotalPreorder(cmp) ==> Sorted(cmp, Loaded(fs, f)))
  }

  /**
   * What a read stream with `highWaterMark` `buffer` delivers of `content`: Node's read stream ends
   * at once when asked for 0 bytes, so a buffer of 0 delivers nothing.
   */
  function Streamed(buffer: nat, content: string): string {
    if buffer == 0 then "" else content
  }

  /**
   * The runs the cursors of `_MergeChunksByPointers(ins, …)` read, one per file, each through a
   * stream whose `highWaterMark` is the merge reader's share for `|ins|` files.
   */
  function MergeRead(fs: FS, ins: seq<string>, rd: Config.Reading, filterEmpty: bool): (runs: seq<seq<string>>)
    requires Present(fs, ins)
    ensures |runs| == |ins|
  {
    seq(|ins|, k requires 0 <= k < |ins| => LineReader.LinesOf(Streamed(Config.MergeReader(rd, |ins|), fs.files[ins[k]]), filterEmpty))
  }

  /** Readers with a buffer of at least one byte read their whole files. */
  lemma MergeReadFed(fs: FS, ins: seq<string>, rd: Config.Reading)
    requires Present(fs, ins) && Config.MergeFed(rd, |ins|)
    ensures MergeRead(fs, ins, rd, true) == LoadAll(fs, ins)
  {
  }

  /** Readers with a buffer of 0 bytes read nothing. */
  lemma MergeReadStarved(fs: FS, ins: seq<string>, rd: Config.Reading, filterEmpty: bool)
    requires Present(fs, ins) && !Config.MergeFed(rd, |ins|)
    ensures forall k :: 0 <= k < |ins| ==> MergeRead(fs, ins, rd, filterEmpty)[k] == []
    ensures Flatten(MergeRead(fs, ins, rd, filterEmpty)) == []
  {
    LineReader.LinesOfSerialized([], filterEmpty);
    FlattenEmpties(MergeRead(fs, ins, rd, filterEmpty));
  }

  lemma {:induction false} FlattenEmpties(runs: seq<seq<string>>)
    requires forall k :: 0 <= k < |runs| ==> runs[k] == []
    ensures Flatten(runs) == []
  {
    if |runs| > 0 {
      FlattenEmpties(runs[1..]);
    }
  }

  /** `_MergeChunksByPointers(ins, target)`: merge what the cursors read and write the result to `target`. */
  function WriteMerged(cmp: Comparer, fs: FS, ins: seq<string>, target: string, rule: Merge.Rule, rd: Config.Reading): (fs': FS)
    requires Present(fs, ins)
    ensures target in fs'.files && fs'.dirs == fs.dirs
    ensures forall f :: f in fs.files ==> f in fs'.files
    ensures forall f :: f != target && f in fs.files ==> fs'.files[f] == fs.files[f]
    ensures forall f :: f in fs'.files ==> f in fs.files || f == target
  {
    fs.(files := fs.files[target := Serialize(Merge.MergeRuns(cmp, MergeRead(fs, ins, rd, true), rule))])
  }

  /** What a merge of ready files writes is ready again: the merge of what its cursors read. */
  lemma WriteMergedReady(cmp: Comparer, fs: FS, ins: seq<string>, target: string, rule: Merge.Rule, rd: Config.Reading)
    requires Present(fs, ins)
    requires forall k :: 0 <= k < |ins| ==> Ready(cmp, fs, ins[k])
    ensures Ready(cmp, WriteMerged(cmp, fs, ins, target, rule, rd), target)
    ensures Loaded(WriteMerged(cmp, fs, ins, target, rule, rd), target) == Merge.MergeRuns(cmp, MergeRead(fs, ins, rd, true), rule)
  {
    var runs := MergeRead(fs, ins, rd, true);
    MergeReadReady(cmp, fs, ins, rd);
    var m := Merge.MergeRuns(cmp, runs, rule);
    ProperFlatten(runs);
    ProperMultiset(m, Flatten(runs));
    LineReader.LinesOfSerialized(m, true);
    NonEmptyKeepsAll(m);
  }

  /** The runs read from ready files are proper and, under a total preorder, sorted. */
  lemma MergeReadReady(cmp: Comparer, fs: FS, ins: seq<string>, rd: Config.Reading)
    requires Present(fs, ins)
    requires forall k :: 0 <= k < |ins| ==> Ready(cmp, fs, ins[k])
    ensures forall k :: 0 <= k < |ins| ==>
      Proper(MergeRead(fs, ins, rd, true)[k]) && (TotalPreorder(cmp) ==> Sorted(cmp, MergeRead(fs, ins, rd, true)[k]))
  {
    if Config.MergeFed(rd, |ins|) {
      MergeReadFed(fs, ins, rd);
    } else {
      MergeReadStarved(fs, ins, rd, true);
    }
  }

  /**
   * The file a merge of ready files writes holds some of the lines of its inputs, all of them when
   * every cursor's buffer is at least one byte.
   */
  lemma MergedPool(cmp: Comparer, fs: FS, ins: seq<string>, target: string, rule: Merge.Rule, rd: Config.Reading)
    requires Present(fs, ins)
    requires forall k :: 0 <= k < |ins| ==> Ready(cmp, fs, ins[k])
    ensures multiset(Loaded(WriteMerged(cmp, fs, ins, target, rule, rd), target)) <= multiset(Flatten(LoadAll(fs, ins)))
    ensures Config.MergeFed(rd, |ins|) ==>
      multiset(Loaded(WriteMerged(cmp, fs, ins, target, rule, rd), target)) == multiset(Flatten(LoadAll(fs, ins)))
  {
    WriteMergedReady(cmp, fs, ins, target, rule, rd);
    if Config.MergeFed(rd, |ins|) {
      MergeReadFed(fs, ins, rd);
    } else {
      MergeReadStarved(fs, ins, rd, true);
    }
  }

  /**
   * A merge of more files than the share of eight tenths of the heat size has bytes gives each
   * cursor a buffer of 0 bytes: the file written holds no line, whatever its inputs held.
   */
  lemma StarvedMerge(cmp: Comparer, fs: FS, ins: seq<string>, target: string, rule: Merge.Rule, heat: nat)
    requires Present(fs, ins) && |ins| > 0 && 10 * |ins| > 8 * heat
    ensures WriteMerged(cmp, fs, ins, target, rule, Config.Reading(heat, Config.Floored)).files[target] == ""
  {
    var rd := Config.Reading(heat, Config.Floored);
    Config.MergeReaderFeeds(rd, |ins|);
    MergeReadStarved(fs, ins, rd, true);
    var m := Merge.MergeRuns(cmp, MergeRead(fs, ins, rd, true), rule);
    assert |multiset(m)| == 0;
  }

  /** The file list of one generation after its jobs ran, one after the other. */
  function RunJobs(cmp: Comparer, fs: FS, jobs: seq<Job>, rule: Merge.Rule, rd: Config.Reading): (fs': FS)
    requires Present(fs, Inputs(jobs))
    ensures forall f :: f in fs.files ==> f in fs'.files
    ensures Targets(jobs) <= fs'.files.Keys
    ensures forall f :: f in fs'.files ==> f in fs.files || f in Targets(jobs)
    ensures forall f :: f in fs.files && f !in Targets(jobs) ==> fs'.files[f] == fs.files[f]
    ensures fs'.dirs == fs.dirs
    decreases |jobs|
  {
    if |jobs| == 0 then fs
    else
      var n := |jobs| - 1;
      PresentParts(fs, jobs);
      TargetsSnoc(jobs);
      var fs1 := RunJobs(cmp, fs, jobs[..n], rule, rd);
      match jobs[n]
      case PassOn(_) => fs1
      case MergeInto(ins, t) =>
        assert Present(fs1, ins);
        WriteMerged(cmp, fs1, ins, t, rule, rd)
  }

  /** The inputs of all jobs being present, so are those of the jobs but the last, and those of the last. */
  lemma PresentParts(fs: FS, jobs: seq<Job>)
    requires |jobs| > 0 && Present(fs, Inputs(jobs))
    ensures Present(fs, Inputs(jobs[..|jobs| - 1]))
    ensures jobs[|jobs| - 1].MergeInto? ==> Present(fs, jobs[|jobs| - 1].inputs)
  {
    var n := |jobs| - 1;
    var last := match jobs[n] case PassOn(f) => [f] case MergeInto(ins, _) => ins;
    assert Inputs(jobs) == Inputs(jobs[..n]) + last;
    PresentConcat(fs, Inputs(jobs[..n]), last);
  }

  lemma PresentConcat(fs: FS, a: seq<string>, b: seq<string>)
    requires Present(fs, a + b)
    ensures Present(fs, a) && Present(fs, b)
  {
    assert forall k :: 0 <= k < |a| ==> (a + b)[k] == a[k];
    assert forall k :: 0 <= k < |b| ==> (a + b)[|a| + k] == b[k];
  }

  /** The files that may still be read in generation `g`: chunk files and `sub` files of earlier generations. */
  ghost predicate Tagged(naming: Naming, dir: string, prefix: string, f: string, g: nat) {
    || (exists i: nat :: f == ChunkPath(naming, dir, prefix, i))
    || (exists h: nat, k: nat :: h < g && f == SubName(dir, h, prefix, k))
  }

  /** No file of generation `g` ever overwrites a file that generation may still read. */
  lemma TaggedNotTarget(naming: Naming, dir: string, prefix: string, f: string, g: nat, k: nat)
    requires Tagged(naming, dir, prefix, f, g)
    ensures f != SubName(dir, g, prefix, k)
  {
    if exists i: nat :: f == ChunkPath(naming, dir, prefix, i) {
      var i: nat :| f == ChunkPath(naming, dir, prefix, i);
      ChunkPathNotSub(naming, dir, prefix, i, g, k);
    } else {
      var h: nat, k': nat :| h < g && f == SubName(dir, h, prefix, k');
      SubNamesDiffer(dir, prefix, h, k', g, k);
    }
  }

  lemma SubNamesDiffer(dir: string, prefix: string, g: nat, i: nat, g': nat, i': nat)
    ensures SubName(dir, g, prefix, i) == SubName(dir, g', prefix, i') ==> g == g' && i == i'
  {
    if SubName(dir, g, prefix, i) == SubName(dir, g', prefix, i') {
      SubNameInjective(dir, prefix, g, i, g', i');
    }
  }

  /** What a generation may read, in state `fs`. */
  ghost predicate Stage(cmp: Comparer, naming: Naming, dir: string, prefix: string, fs: FS, cur: seq<string>, g: nat) {
    Present(fs, cur) && forall k :: 0 <= k < |cur| ==> Ready(cmp, fs, cur[k]) && Tagged(naming, dir, prefix, cur[k], g)
  }

  /**
   * The facts about one generation that its jobs establish, one job after the other; the lines are
   * kept when every merge's cursors get buffers of at least one byte (`fed`).
   */
  ghost predicate Ran(cmp: Comparer, naming: Naming, dir: string, prefix: string, fs: FS, fs': FS, jobs: seq<Job>, g: nat, fed: bool) {
    && Present(fs, Inputs(jobs))
    && Stage(cmp, naming, dir, prefix, fs', Outputs(jobs), g + 1)
    && (fed ==> multiset(Flatten(LoadAll(fs', Outputs(jobs)))) == multiset(Flatten(LoadAll(fs, Inputs(jobs)))))
    && (forall f :: f in fs.files && Tagged(naming, dir, prefix, f, g) ==> f in fs'.files && fs'.files[f] == fs.files[f])
  }

  lemma WellFormedPrefix(jobs: seq<Job>, limit: nat, dir: string, g: nat, prefix: string)
    requires WellFormed(jobs, limit, dir, g, prefix) && |jobs| > 0
    ensures WellFormed(jobs[..|jobs| - 1], limit, dir, g, prefix)
    ensures forall k :: 0 <= k < |jobs| - 1 ==> jobs[k].MergeInto? && jobs[k].target == SubName(dir, g, prefix, k)
  {
    assert forall k :: 0 <= k < |jobs| - 1 ==> jobs[..|jobs| - 1][k] == jobs[k];
  }

  lemma StageSplit(cmp: Comparer, naming: Naming, dir: string, prefix: string, fs: FS, a: seq<string>, b: seq<string>, g: nat)
    requires Stage(cmp, naming, dir, prefix, fs, a + b, g)
    ensures Stage(cmp, naming, dir, prefix, fs, a, g) && Stage(cmp, naming, dir, prefix, fs, b, g)
  {
    assert forall k :: 0 <= k < |a| ==> (a + b)[k] == a[k];
    assert forall k :: 0 <= k < |b| ==> (a + b)[|a| + k] == b[k];
  }

  /**
   * A generation turns ready files it may read into ready files of the next, losing no line when
   * the cursors of a merge of `limit` files get buffers of at least one byte (`fed`).
   */
  lemma {:induction false} Generation(cmp: Comparer, naming: Naming, dir: string, prefix: string, fs: FS,
                                      jobs: seq<Job>, rule: Merge.Rule, rd: Config.Reading, fed: bool, limit: nat, g: nat)
    requires WellFormed(jobs, limit, dir, g, prefix)
    requires Stage(cmp, naming, dir, prefix, fs, Inputs(jobs), g)
    requires fed ==> limit > 0 && Config.MergeReader(rd, limit) >= 1
    ensures Ran(cmp, naming, dir, prefix, fs, RunJobs(cmp, fs, jobs, rule, rd), jobs, g, fed)
    decreases |jobs|
  {
    if |jobs| == 0 {
      assert Outputs(jobs) == [] && Inputs(jobs) == [];
    } else {
      var n := |jobs| - 1;
      WellFormedPrefix(jobs, limit, dir, g, prefix);
      InputsAppend(jobs[..n], jobs[n]);
      var last := match jobs[n] case PassOn(f) => [f] case MergeInto(ins, _) => ins;
      StageSplit(cmp, naming, dir, prefix, fs, Inputs(jobs[..n]), last, g);
      Generation(cmp, naming, dir, prefix, fs, jobs[..n], rule, rd, fed, limit, g);
      PresentParts(fs, jobs);
      GenerationStep(cmp, naming, dir, prefix, fs, jobs, rule, rd, fed, limit, g);
    }
  }

  /** The last job of a generation, after the ones before it ran. */
  lemma GenerationStep(cmp: Comparer, naming: Naming, dir: string, prefix: string, fs: FS,
                       jobs: seq<Job>, rule: Merge.Rule, rd: Config.Reading, fed: bool, limit: nat, g: nat)
    requires WellFormed(jobs, limit, dir, g, prefix) && |jobs| > 0
    requires Stage(cmp, naming, dir, prefix, fs, Inputs(jobs), g)
    requires fed ==> limit > 0 && Config.MergeReader(rd, limit) >= 1
    requires Present(fs, Inputs(jobs[..|jobs| - 1]))
    requires Ran(cmp, naming, dir, prefix, fs, RunJobs(cmp, fs, jobs[..|jobs| - 1], rule, rd), jobs[..|jobs| - 1], g, fed)
    ensures Ran(cmp, naming, dir, prefix, fs, RunJobs(cmp, fs, jobs, rule, rd), jobs, g, fed)
  {
    match jobs[|jobs| - 1]
    case PassOn(f) =>
      LastInputs(cmp, naming, dir, prefix, fs, jobs, g);
      StepPass(cmp, naming, dir, prefix, fs, jobs, f, rule, rd, fed, g);
    case MergeInto(ins, t) =>
      LastInputs(cmp, naming, dir, prefix, fs, jobs, g);
      LastMerge(jobs, ins, t, rd, fed, limit, dir, g, prefix);
      StepMerge(cmp, naming, dir, prefix, fs, jobs, ins, t, rule, rd, fed, g);
  }

  /** The files the last job of a generation reads are ready and tagged, like all the generation's inputs. */
  lemma LastInputs(cmp: Comparer, naming: Naming, dir: string, prefix: string, fs: FS, jobs: seq<Job>, g: nat)
    requires |jobs| > 0 && Stage(cmp, naming, dir, prefix, fs, Inputs(jobs), g)
    ensures Stage(cmp, naming, dir, prefix, fs,
                  match jobs[|jobs| - 1] case PassOn(f) => [f] case MergeInto(ins, _) => ins, g)
  {
    var n := |jobs| - 1;
    assert jobs[..n] + [jobs[n]] == jobs;
    InputsAppend(jobs[..n], jobs[n]);
    StageSplit(cmp, naming, dir, prefix, fs, Inputs(jobs[..n]), match jobs[n] case PassOn(f) => [f] case MergeInto(ins, _) => ins, g);
  }

  /** The last merge of a generation writes the next `sub` file after those of the jobs before it, and is fed when a merge of `limit` files is. */
  lemma LastMerge(jobs: seq<Job>, ins: seq<string>, t: string, rd: Config.Reading, fed: bool, limit: nat, dir: string, g: nat, prefix: string)
    requires WellFormed(jobs, limit, dir, g, prefix) && |jobs| > 0 && jobs[|jobs| - 1] == MergeInto(ins, t)
    requires fed ==> limit > 0 && Config.MergeReader(rd, limit) >= 1
    ensures t == SubName(dir, g, prefix, |jobs| - 1)
    ensures forall k :: 0 <= k < |jobs| - 1 ==> Outputs(jobs[..|jobs| - 1])[k] == SubName(dir, g, prefix, k)
    ensures fed ==> Config.MergeFed(rd, |ins|)
  {
    WellFormedPrefix(jobs, limit, dir, g, prefix);
    if fed {
      Config.MergeReaderFewer(rd, |ins|, limit);
    }
  }

  lemma StepPass(cmp: Comparer, naming: Naming, dir: string, prefix: string, fs: FS,
                 jobs: seq<Job>, f: string, rule: Merge.Rule, rd: Config.Reading, fed: bool, g: nat)
    requires |jobs| > 0 && jobs[|jobs| - 1] == PassOn(f)
    requires Present(fs, Inputs(jobs[..|jobs| - 1]))
    requires Ran(cmp, naming, dir, prefix, fs, RunJobs(cmp, fs, jobs[..|jobs| - 1], rule, rd), jobs[..|jobs| - 1], g, fed)
    requires Stage(cmp, naming, dir, prefix, fs, [f], g)
    ensures Present(fs, Inputs(jobs))
    ensures Ran(cmp, naming, dir, prefix, fs, RunJobs(cmp, fs, jobs, rule, rd), jobs, g, fed)
  {
    var first := jobs[..|jobs| - 1];
    assert first + [PassOn(f)] == jobs;
    GenerationPass(cmp, naming, dir, prefix, fs, RunJobs(cmp, fs, first, rule, rd), first, f, g, fed);
  }

  lemma StepMerge(cmp: Comparer, naming: Naming, dir: string, prefix: string, fs: FS,
                  jobs: seq<Job>, ins: seq<string>, t: string, rule: Merge.Rule, rd: Config.Reading, fed: bool, g: nat)
    requires |jobs| > 0 && jobs[|jobs| - 1] == MergeInto(ins, t)
    requires Present(fs, Inputs(jobs[..|jobs| - 1]))
    requires Ran(cmp, naming, dir, prefix, fs, RunJobs(cmp, fs, jobs[..|jobs| - 1], rule, rd), jobs[..|jobs| - 1], g, fed)
    requires Stage(cmp, naming, dir, prefix, fs, ins, g)
    requires t == SubName(dir, g, prefix, |jobs| - 1)
    requires forall k :: 0 <= k < |jobs| - 1 ==> Outputs(jobs[..|jobs| - 1])[k] == SubName(dir, g, prefix, k)
    requires fed ==> Config.MergeFed(rd, |ins|)
    ensures Present(fs, Inputs(jobs))
    ensures Ran(cmp, naming, dir, prefix, fs, RunJobs(cmp, fs, jobs, rule, rd), jobs, g, fed)
  {
    var first := jobs[..|jobs| - 1];
    assert first + [MergeInto(ins, t)] == jobs;
    GenerationMerge(cmp, naming, dir, prefix, fs, RunJobs(cmp, fs, first, rule, rd), first, ins, t, rule, rd, fed, g);
  }

  lemma TaggedLater(naming: Naming, dir: string, prefix: string, f: string, g: nat)
    requires Tagged(naming, dir, prefix, f, g)
    ensures Tagged(naming, dir, prefix, f, g + 1)
  {
    if !exists i: nat :: f == ChunkPath(naming, dir, prefix, i) {
      var h: nat, k: nat :| h < g && f == SubName(dir, h, prefix, k);
      assert h < g + 1;
    }
  }

  lemma PresentAppend(fs: FS, a: seq<string>, b: seq<string>)
    requires Present(fs, a) && Present(fs, b)
    ensures Present(fs, a + b)
  {
    assert forall k :: 0 <= k < |a + b| ==> (a + b)[k] == if k < |a| then a[k] else b[k - |a|];
  }

  lemma StageAppend(cmp: Comparer, naming: Naming, dir: string, prefix: string, fs: FS, a: seq<string>, b: seq<string>, g: nat)
    requires Stage(cmp, naming, dir, prefix, fs, a, g) && Stage(cmp, naming, dir, prefix, fs, b, g)
    ensures Stage(cmp, naming, dir, prefix, fs, a + b, g)
  {
    assert forall k :: 0 <= k < |a + b| ==> (a + b)[k] == if k < |a| then a[k] else b[k - |a|];
  }

  /** Files whose contents did not change stay ready. */
  lemma StageSame(cmp: Comparer, naming: Naming, dir: string, prefix: string, fs: FS, fs': FS, names: seq<string>, g: nat)
    requires Stage(cmp, naming, dir, prefix, fs, names, g)
    requires forall k :: 0 <= k < |names| ==> names[k] in fs'.files && fs'.files[names[k]] == fs.files[names[k]]
    ensures Stage(cmp, naming, dir, prefix, fs', names, g)
  {
    forall k | 0 <= k < |names|
      ensures Ready(cmp, fs', names[k])
    {
      assert Loaded(fs', names[k]) == Loaded(fs, names[k]);
    }
  }

  /** The pool of lines a list of files holds. */
  ghost function Pool(fs: FS, names: seq<string>): multiset<string>
    requires Present(fs, names)
  {
    multiset(Flatten(LoadAll(fs, names)))
  }

  lemma PoolAppend(fs: FS, a: seq<string>, b: seq<string>)
    requires Present(fs, a) && Present(fs, b)
    ensures Present(fs, a + b) && Pool(fs, a + b) == Pool(fs, a) + Pool(fs, b)
  {
    LoadAllAppend(fs, a, b);
    FlattenAppend(LoadAll(fs, a), LoadAll(fs, b));
  }

  lemma PoolOne(fs: FS, f: string)
    requires f in fs.files
    ensures Present(fs, [f]) && Pool(fs, [f]) == multiset(Loaded(fs, f))
  {
    assert LoadAll(fs, [f]) == [Loaded(fs, f)];
    assert Flatten([Loaded(fs, f)]) == Loaded(fs, f) + Flatten([]);
  }

  /** The last job passes a lone file on. */
  lemma GenerationPass(cmp: Comparer, naming: Naming, dir: string, prefix: string, fs: FS, fs1: FS,
                       first: seq<Job>, f: string, g: nat, fed: bool)
    requires Ran(cmp, naming, dir, prefix, fs, fs1, first, g, fed)
    requires Stage(cmp, naming, dir, prefix, fs, [f], g)
    ensures Ran(cmp, naming, dir, prefix, fs, fs1, first + [PassOn(f)], g, fed)
  {
    var jobs := first + [PassOn(f)];
    InputsAppend(first, PassOn(f));
    assert [f][0] == f;
    assert Tagged(naming, dir, prefix, f, g) && f in fs.files;
    TaggedLater(naming, dir, prefix, f, g);
    PresentAppend(fs, Inputs(first), [f]);
    StageSame(cmp, naming, dir, prefix, fs, fs1, [f], g);
    assert Stage(cmp, naming, dir, prefix, fs1, [f], g + 1);
    StageAppend(cmp, naming, dir, prefix, fs1, Outputs(first), [f], g + 1);
    PoolAppend(fs1, Outputs(first), [f]);
    PoolAppend(fs, Inputs(first), [f]);
    PoolOne(fs1, f);
    PoolOne(fs, f);
  }

  /** Writing a `sub` file of generation `g` leaves every file generation `g` may read as it was. */
  lemma MergeKeepsTagged(cmp: Comparer, naming: Naming, dir: string, prefix: string, fs: FS, fs1: FS,
                         ins: seq<string>, k: nat, rule: Merge.Rule, rd: Config.Reading, g: nat)
    requires Present(fs1, ins)
    requires forall f :: f in fs.files && Tagged(naming, dir, prefix, f, g) ==> f in fs1.files && fs1.files[f] == fs.files[f]
    ensures var fs' := WriteMerged(cmp, fs1, ins, SubName(dir, g, prefix, k), rule, rd);
      forall f :: f in fs.files && Tagged(naming, dir, prefix, f, g) ==> f in fs'.files && fs'.files[f] == fs.files[f]
  {
    forall f | f in fs.files && Tagged(naming, dir, prefix, f, g)
      ensures f != SubName(dir, g, prefix, k)
    {
      TaggedNotTarget(naming, dir, prefix, f, g, k);
    }
  }

  /** Writing `sub` file `|outs|` of generation `g` leaves the earlier ones of that generation as they were. */
  lemma MergeKeepsOutputs(cmp: Comparer, fs1: FS, ins: seq<string>, outs: seq<string>, dir: string, prefix: string,
                          rule: Merge.Rule, rd: Config.Reading, g: nat)
    requires Present(fs1, ins) && Present(fs1, outs)
    requires forall k :: 0 <= k < |outs| ==> outs[k] == SubName(dir, g, prefix, k)
    ensures var fs' := WriteMerged(cmp, fs1, ins, SubName(dir, g, prefix, |outs|), rule, rd);
      forall k :: 0 <= k < |outs| ==> outs[k] in fs'.files && fs'.files[outs[k]] == fs1.files[outs[k]]
  {
    forall k | 0 <= k < |outs|
      ensures outs[k] != SubName(dir, g, prefix, |outs|)
    {
      SubNamesDiffer(dir, prefix, g, k, g, |outs|);
    }
  }

  /** The last job merges its slice into the `sub` file named after its position. */
  lemma GenerationMerge(cmp: Comparer, naming: Naming, dir: string, prefix: string, fs: FS, fs1: FS,
                        first: seq<Job>, ins: seq<string>, t: string, rule: Merge.Rule, rd: Config.Reading, fed: bool, g: nat)
    requires Ran(cmp, naming, dir, prefix, fs, fs1, first, g, fed)
    requires Stage(cmp, naming, dir, prefix, fs, ins, g)
    requires t == SubName(dir, g, prefix, |first|)
    requires forall k :: 0 <= k < |first| ==> Outputs(first)[k] == SubName(dir, g, prefix, k)
    requires fed ==> Config.MergeFed(rd, |ins|)
    ensures Present(fs1, ins)
    ensures Ran(cmp, naming, dir, prefix, fs, WriteMerged(cmp, fs1, ins, t, rule, rd), first + [MergeInto(ins, t)], g, fed)
  {
    InputsAppend(first, MergeInto(ins, t));
    assert Present(fs1, ins) by {
      assert forall k :: 0 <= k < |ins| ==> ins[k] in fs.files && Tagged(naming, dir, prefix, ins[k], g);
    }
    PresentAppend(fs, Inputs(first), ins);
    StageSame(cmp, naming, dir, prefix, fs, fs1, ins, g);
    MergeStageOutputs(cmp, naming, dir, prefix, fs1, Outputs(first), ins, rule, rd, g);
    MergeStageTarget(cmp, naming, dir, prefix, fs1, ins, |first|, rule, rd, g);
    StageAppend(cmp, naming, dir, prefix, WriteMerged(cmp, fs1, ins, t, rule, rd), Outputs(first), [t], g + 1);
    MergePool(cmp, naming, dir, prefix, fs, fs1, first, ins, t, rule, rd, fed, g);
    MergeKeepsTagged(cmp, naming, dir, prefix, fs, fs1, ins, |first|, rule, rd, g);
  }

  /** Writing the next `sub` file keeps the earlier ones of the same generation ready. */
  lemma MergeStageOutputs(cmp: Comparer, naming: Naming, dir: string, prefix: string, fs1: FS,
                          outs: seq<string>, ins: seq<string>, rule: Merge.Rule, rd: Config.Reading, g: nat)
    requires Present(fs1, ins)
    requires Stage(cmp, naming, dir, prefix, fs1, outs, g + 1)
    requires forall k :: 0 <= k < |outs| ==> outs[k] == SubName(dir, g, prefix, k)
    ensures Stage(cmp, naming, dir, prefix, WriteMerged(cmp, fs1, ins, SubName(dir, g, prefix, |outs|), rule, rd), outs, g + 1)
  {
    var fs' := WriteMerged(cmp, fs1, ins, SubName(dir, g, prefix, |outs|), rule, rd);
    MergeKeepsOutputs(cmp, fs1, ins, outs, dir, prefix, rule, rd, g);
    StageSame(cmp, naming, dir, prefix, fs1, fs', outs, g + 1);
  }

  /** The `sub` file a merge of ready files writes may be read by the next generation. */
  lemma MergeStageTarget(cmp: Comparer, naming: Naming, dir: string, prefix: string, fs1: FS,
                         ins: seq<string>, k: nat, rule: Merge.Rule, rd: Config.Reading, g: nat)
    requires Stage(cmp, naming, dir, prefix, fs1, ins, g)
    ensures var t := SubName(dir, g, prefix, k);
      Stage(cmp, naming, dir, prefix, WriteMerged(cmp, fs1, ins, t, rule, rd), [t], g + 1)
  {
    var t := SubName(dir, g, prefix, k);
    WriteMergedReady(cmp, fs1, ins, t, rule, rd);
    StageSub(cmp, naming, dir, prefix, WriteMerged(cmp, fs1, ins, t, rule, rd), g, k, g + 1);
  }

  /** A sorted `sub` file of an earlier generation is, alone, a generation of its own. */
  lemma StageSub(cmp: Comparer, naming: Naming, dir: string, prefix: string, fs: FS, h: nat, k: nat, g: nat)
    requires h < g && Ready(cmp, fs, SubName(dir, h, prefix, k))
    ensures Stage(cmp, naming, dir, prefix, fs, [SubName(dir, h, prefix, k)], g)
  {
    var t := SubName(dir, h, prefix, k);
    assert Tagged(naming, dir, prefix, t, g);
    assert [t][0] == t;
  }

  /**
   * When its cursors are fed, the new file holds the lines of its slice, so the next generation's
   * files hold the lines this one read.
   */
  lemma MergePool(cmp: Comparer, naming: Naming, dir: string, prefix: string, fs: FS, fs1: FS,
                  first: seq<Job>, ins: seq<string>, t: string, rule: Merge.Rule, rd: Config.Reading, fed: bool, g: nat)
    requires Ran(cmp, naming, dir, prefix, fs, fs1, first, g, fed)
    requires fed ==> Config.MergeFed(rd, |ins|)
    requires Stage(cmp, naming, dir, prefix, fs, ins, g)
    requires t == SubName(dir, g, prefix, |first|)
    requires forall k :: 0 <= k < |first| ==> Outputs(first)[k] == SubName(dir, g, prefix, k)
    requires Present(fs1, ins) && Present(fs, Inputs(first) + ins)
    requires Stage(cmp, naming, dir, prefix, WriteMerged(cmp, fs1, ins, t, rule, rd), Outputs(first) + [t], g + 1)
    ensures fed ==> multiset(Flatten(LoadAll(WriteMerged(cmp, fs1, ins, t, rule, rd), Outputs(first) + [t])))
                    == multiset(Flatten(LoadAll(fs, Inputs(first) + ins)))
  {
    var outs := Outputs(first);
    var fs' := WriteMerged(cmp, fs1, ins, t, rule, rd);
    StageSame(cmp, naming, dir, prefix, fs, fs1, ins, g);
    LoadAllSame(fs, fs1, ins);
    MergedPool(cmp, fs1, ins, t, rule, rd);
    PoolAppend(fs, Inputs(first), ins);
    PoolOne(fs', t);
    MergeKeepsOutputs(cmp, fs1, ins, outs, dir, prefix, rule, rd, g);
    LoadAllSame(fs1, fs', outs);
    PoolAppend(fs', outs, [t]);
  }
}
