/**
 * `sort()` of src/ExternalSort.ts end to end: refuse a missing entry file, reset the chunk
 * directory, cut the entry file into sorted chunk files, list them with
 * `readdirSync(chunkDir).filter(startsWith(chunkFilename))`, merge generation after generation
 * while more files remain than the cursor limit, merge the rest into the output file, and remove
 * the chunk directory when asked to.
 *
 * The chunk files are written under `chunk_<i>.tmp` but listed by the `chunkFilename` prefix. The
 * `naming` parameter selects between the names as written (`AsWritten`) and names that carry the
 * prefix (`Corrected`); every result below is stated for both.
 */
module Pipeline {
  import opened Wrappers
  import opened Strings
  import opened Order
  import opened Comparator
  import opened LineSplit
  import opened Config
  import opened Batching
  import opened Workspace
  import LineReader
  import Merge
  import Splitter

  /** Why `sort()` stops before it starts: the entry file is missing, or it cannot be read as a file. */
  datatype Failure = EntryMissing(path: string) | EntryUnreadable(path: string)

  /** A finished sort: the file system afterwards, the chunks the entry file was cut into, and the lines of the output file. */
  datatype Outcome = Outcome(fs: FS, chunks: seq<seq<string>>, written: seq<string>)

  // ---------------------------------------------------------------------------------------------
  // Chunk files as written and as read back.

  /** What `_WriteChunkFile` writes for `data`, line by line: the sorted lines, or `undefined` for an empty array. */
  function WrittenLines(cmp: Comparer, data: seq<string>): (ls: seq<string>)
    ensures |data| > 0 ==> multiset(ls) == multiset(data)
    ensures |data| > 0 && TotalPreorder(cmp) ==> Sorted(cmp, ls)
  {
    if |data| == 0 then ["undefined"] else SortBy(cmp, data)
  }

  /** `_WriteChunkFile` writes exactly the serialized `WrittenLines`. */
  lemma WrittenContent(cmp: Comparer, data: seq<string>)
    ensures Serialize(WrittenLines(cmp, data)) == if |data| == 0 then "undefined\n" else Serialize(SortBy(cmp, data))
  {
    if |data| == 0 {
      assert WrittenLines(cmp, data) == ["undefined"];
      assert Serialize(["undefined"]) == "undefined" + "\n" + Serialize([]);
    }
  }

  /** The lines of every chunk file: all chunks sorted by `cmp`, the last one by `lastCmp`. */
  function Bodies(cmp: Comparer, lastCmp: Comparer, chunks: seq<seq<string>>): (bodies: seq<seq<string>>)
    ensures |bodies| == |chunks|
  {
    seq(|chunks|, i requires 0 <= i < |chunks| => WrittenLines(if i == |chunks| - 1 then lastCmp else cmp, chunks[i]))
  }

  /** Chunk files `0 .. n-1` hold the first `n` bodies, one line per `\n`. */
  ghost predicate Holds(naming: Naming, dir: string, prefix: string, fs: FS, bodies: seq<seq<string>>, n: nat) {
    && n <= |bodies|
    && forall i :: 0 <= i < n ==>
         ChunkPath(naming, dir, prefix, i) in fs.files && fs.files[ChunkPath(naming, dir, prefix, i)] == Serialize(bodies[i])
  }

  /** Chunk files lie inside the chunk directory. */
  lemma ChunkInside(naming: Naming, dir: string, prefix: string, i: nat)
    ensures Within(dir, ChunkPath(naming, dir, prefix, i))
  {
    var f := ChunkFile(naming, prefix, i);
    assert (dir + "/" + f)[..|dir + "/"|] == dir + "/";
  }

  /** `sub` files lie inside the chunk directory. */
  lemma SubInside(dir: string, g: nat, prefix: string, k: nat)
    ensures Within(dir, SubName(dir, g, prefix, k))
  {
    var rest := "sub" + NatToString(g) + "_" + prefix + "_" + NatToString(k) + ".tmp";
    assert SubName(dir, g, prefix, k) == (dir + "/") + rest;
    assert ((dir + "/") + rest)[..|dir + "/"|] == dir + "/";
  }

  /**
   * The chunk-writing loop of `_SplitIntoChunks`: chunk `i` goes to chunk file `i`, nothing outside
   * the chunk directory changes.
   */
  method WriteChunks(cmp: Comparer, lastCmp: Comparer, naming: Naming, dir: string, prefix: string, fs: FS,
                     chunks: seq<seq<string>>, accepts: nat -> bool) returns (fs': FS)
    ensures Holds(naming, dir, prefix, fs', Bodies(cmp, lastCmp, chunks), |chunks|)
    ensures fs'.dirs == fs.dirs
    ensures Unchanged(dir, fs, fs')
  {
    ghost var bodies := Bodies(cmp, lastCmp, chunks);
    fs' := fs;
    var i := 0;
    while i < |chunks|
      invariant i <= |chunks|
      invariant Holds(naming, dir, prefix, fs', bodies, i)
      invariant fs'.dirs == fs.dirs
      invariant Unchanged(dir, fs, fs')
    {
      var c := if i == |chunks| - 1 then lastCmp else cmp;
      var content := Splitter.WriteChunkFile(c, chunks[i], accepts);
      WrittenContent(c, chunks[i]);
      assert content == Serialize(bodies[i]);
      HoldsWrite(naming, dir, prefix, fs, fs', bodies, i);
      fs' := fs'.(files := fs'.files[ChunkPath(naming, dir, prefix, i) := content]);
      i := i + 1;
    }
  }

  /** Every file outside the chunk directory is as it was. */
  ghost predicate Unchanged(dir: string, fs: FS, fs': FS) {
    forall p :: p in fs.files && !Within(dir, p) ==> p in fs'.files && fs'.files[p] == fs.files[p]
  }

  /** Writing the output file keeps every other file outside `dir` that `fs` had. */
  lemma OutputKeeps(dir: string, fs: FS, fs2: FS, out: string, content: string)
    requires Unchanged(dir, fs, fs2)
    ensures var fs3 := fs2.(files := fs2.files[out := content]);
      forall p :: p in fs.files && p != out && !Within(dir, p) ==> p in fs3.files && fs3.files[p] == fs.files[p]
  {
  }

  lemma UnchangedTrans(dir: string, fs: FS, fs': FS, fs'': FS)
    requires Unchanged(dir, fs, fs') && Unchanged(dir, fs', fs'')
    ensures Unchanged(dir, fs, fs'')
  {
  }

  /** Writing chunk file `i` adds it to the written ones and leaves everything outside the directory alone. */
  lemma HoldsWrite(naming: Naming, dir: string, prefix: string, fs0: FS, fs: FS, bodies: seq<seq<string>>, i: nat)
    requires Holds(naming, dir, prefix, fs, bodies, i) && i < |bodies| && Unchanged(dir, fs0, fs)
    ensures var fs' := fs.(files := fs.files[ChunkPath(naming, dir, prefix, i) := Serialize(bodies[i])]);
      Holds(naming, dir, prefix, fs', bodies, i + 1) && Unchanged(dir, fs0, fs')
  {
    var path := ChunkPath(naming, dir, prefix, i);
    forall j | 0 <= j < i
      ensures ChunkPath(naming, dir, prefix, j) != path
    {
      ChunkPathInjective(naming, dir, prefix, j, i);
    }
    ChunkInside(naming, dir, prefix, i);
  }

  // ---------------------------------------------------------------------------------------------
  // Listing the chunk directory.

  /** The chunk indices whose file names pass `file.startsWith(chunkFilename)`, in index order. */
  function Listed(naming: Naming, prefix: string, n: nat): (ix: seq<nat>)
    ensures forall k :: 0 <= k < |ix| ==> ix[k] < n && StartsWith(ChunkFile(naming, prefix, ix[k]), prefix)
    ensures forall i :: 0 <= i < n && StartsWith(ChunkFile(naming, prefix, i), prefix) ==> i in ix
    ensures forall k, k' :: 0 <= k < k' < |ix| ==> ix[k] < ix[k']
    decreases n
  {
    if n == 0 then []
    else Listed(naming, prefix, n - 1) + (if StartsWith(ChunkFile(naming, prefix, n - 1), prefix) then [n - 1] else [])
  }

  /**
   * `readdirSync` promises no order: the directory may list the chunk files in any arrangement.
   * `arrange` is the arrangement it uses, applied to the names in index order.
   */
  ghost predicate Rearranges(arrange: seq<nat> -> seq<nat>) {
    forall ix: seq<nat> :: multiset(arrange(ix)) == multiset(ix)
  }

  /** The listed files, `${chunkDir}/${file}`. */
  function Paths(naming: Naming, dir: string, prefix: string, ix: seq<nat>): (ps: seq<string>)
    ensures |ps| == |ix|
    ensures forall k :: 0 <= k < |ix| ==> ps[k] == ChunkPath(naming, dir, prefix, ix[k])
  {
    seq(|ix|, k requires 0 <= k < |ix| => ChunkPath(naming, dir, prefix, ix[k]))
  }

  /** The chunks at the listed indices. */
  function Pick(chunks: seq<seq<string>>, ix: seq<nat>): (cs: seq<seq<string>>)
    requires forall k :: 0 <= k < |ix| ==> ix[k] < |chunks|
    ensures |cs| == |ix|
    ensures forall k :: 0 <= k < |ix| ==> cs[k] == chunks[ix[k]]
  {
    seq(|ix|, k requires 0 <= k < |ix| => chunks[ix[k]])
  }

  function Indices(n: nat): (ix: seq<nat>)
    ensures |ix| == n && forall k :: 0 <= k < n ==> ix[k] == k
  {
    seq(n, k requires 0 <= k < n => k)
  }

  /** Listing every chunk picks every chunk. */
  lemma PickAll(chunks: seq<seq<string>>)
    ensures Pick(chunks, Indices(|chunks|)) == chunks
  {
  }

  /** The listing finds every chunk file: the names carry the prefix, or the prefix is a prefix of `chunk_`. */
  predicate FindsAll(naming: Naming, prefix: string) {
    naming == Corrected || StartsWith("chunk_", prefix)
  }

  lemma ChunkFileStarts(naming: Naming, prefix: string, i: nat)
    requires FindsAll(naming, prefix)
    ensures StartsWith(ChunkFile(naming, prefix, i), prefix)
  {
    var n := NatToString(i);
    match naming
    case Corrected =>
      assert ChunkFile(naming, prefix, i) == prefix + ("_" + n + ".tmp");
    case AsWritten =>
      assert ChunkFile(naming, prefix, i) == "chunk_" + (n + ".tmp");
      assert prefix == "chunk_"[..|prefix|];
  }

  /** When the listing finds every chunk file it lists them all, in index order. */
  lemma {:induction false} ListedAll(naming: Naming, prefix: string, n: nat)
    requires FindsAll(naming, prefix)
    ensures Listed(naming, prefix, n) == Indices(n)
    decreases n
  {
    if n > 0 {
      ListedAll(naming, prefix, n - 1);
      ChunkFileStarts(naming, prefix, n - 1);
      assert Listed(naming, prefix, n) == Indices(n - 1) + [n - 1];
      IndicesSnoc(n - 1);
    }
  }

  lemma IndicesSnoc(n: nat)
    ensures Indices(n + 1) == Indices(n) + [n]
  {
  }

  /** With the names as written, a prefix that does not start with `c` lists no chunk file at all. */
  lemma {:induction false} ListedNone(prefix: string, n: nat)
    requires |prefix| > 0 && prefix[0] != 'c'
    ensures Listed(AsWritten, prefix, n) == []
    decreases n
  {
    if n > 0 {
      ListedNone(prefix, n - 1);
      assert ChunkFile(AsWritten, prefix, n - 1)[0] == 'c';
    }
  }

  // ---------------------------------------------------------------------------------------------
  // What the listed files hold.

  lemma FlattenOne(c: seq<string>)
    ensures Flatten([c]) == c
  {
    assert [c][1..] == [];
  }

  lemma PickAppend(chunks: seq<seq<string>>, a: seq<nat>, b: seq<nat>)
    requires forall k :: 0 <= k < |a| ==> a[k] < |chunks|
    requires forall k :: 0 <= k < |b| ==> b[k] < |chunks|
    ensures forall k :: 0 <= k < |a + b| ==> (a + b)[k] < |chunks|
    ensures Pick(chunks, a + b) == Pick(chunks, a) + Pick(chunks, b)
  {
    assert forall k :: 0 <= k < |a + b| ==> (a + b)[k] == if k < |a| then a[k] else b[k - |a|];
  }

  /** An index sequence holding every index of a bounded one, as often, is bounded too. */
  lemma Bounded(ix: seq<nat>, jx: seq<nat>, n: nat)
    requires multiset(ix) == multiset(jx)
    requires forall k :: 0 <= k < |jx| ==> jx[k] < n
    ensures forall k :: 0 <= k < |ix| ==> ix[k] < n
  {
    forall k | 0 <= k < |ix|
      ensures ix[k] < n
    {
      assert ix[k] in multiset(jx);
    }
  }

  /** Picking the same chunks in another order picks the same lines. */
  lemma {:induction false} PickMultiset(chunks: seq<seq<string>>, ix: seq<nat>, jx: seq<nat>)
    requires multiset(ix) == multiset(jx)
    requires forall k :: 0 <= k < |jx| ==> jx[k] < |chunks|
    ensures forall k :: 0 <= k < |ix| ==> ix[k] < |chunks|
    ensures multiset(Flatten(Pick(chunks, ix))) == multiset(Flatten(Pick(chunks, jx)))
    decreases |ix|
  {
    Bounded(ix, jx, |chunks|);
    if |ix| == 0 {
      assert |jx| == |multiset(jx)| == 0;
      assert Pick(chunks, ix) == [] && Pick(chunks, jx) == [];
    } else {
      var n := |ix| - 1;
      var i := ix[n];
      assert i in multiset(jx);
      var q :| 0 <= q < |jx| && jx[q] == i;
      var a, b := jx[..q], jx[q + 1..];
      assert jx == a + [i] + b;
      MultisetSplit(ix, a, i, b);
      PickSplit(chunks, a, i, b);
      PickMultiset(chunks, ix[..n], a + b);
      PickLast(chunks, ix);
    }
  }

  lemma MultisetSplit(ix: seq<nat>, a: seq<nat>, i: nat, b: seq<nat>)
    requires |ix| > 0 && ix[|ix| - 1] == i && multiset(ix) == multiset(a + [i] + b)
    ensures multiset(ix[..|ix| - 1]) == multiset(a + b)
  {
    var p := ix[..|ix| - 1];
    assert ix == p + [i];
    var m, n := multiset(p), multiset(a) + multiset(b);
    assert m + multiset{i} == n + multiset{i} by {
      assert multiset(ix) == m + multiset{i};
      assert multiset(a + [i] + b) == multiset(a) + multiset{i} + multiset(b);
    }
    forall x
      ensures m[x] == n[x]
    {
      assert (m + multiset{i})[x] == (n + multiset{i})[x];
    }
    assert m == n;
    assert multiset(a + b) == n;
  }

  /** The lines picked by an index sequence: those picked by all but its last index, then that chunk's. */
  lemma PickLast(chunks: seq<seq<string>>, ix: seq<nat>)
    requires |ix| > 0 && forall k :: 0 <= k < |ix| ==> ix[k] < |chunks|
    ensures multiset(Flatten(Pick(chunks, ix)))
         == multiset(Flatten(Pick(chunks, ix[..|ix| - 1]))) + multiset(chunks[ix[|ix| - 1]])
  {
    var i := ix[|ix| - 1];
    PickSnoc(chunks, ix);
    FlattenAppend(Pick(chunks, ix[..|ix| - 1]), [chunks[i]]);
    FlattenOne(chunks[i]);
  }

  /** The lines picked around one index are the lines picked without it, plus that chunk's. */
  lemma PickSplit(chunks: seq<seq<string>>, a: seq<nat>, i: nat, b: seq<nat>)
    requires i < |chunks| && forall k :: 0 <= k < |a + [i] + b| ==> (a + [i] + b)[k] < |chunks|
    ensures forall k :: 0 <= k < |a + b| ==> (a + b)[k] < |chunks|
    ensures multiset(Flatten(Pick(chunks, a + [i] + b))) == multiset(Flatten(Pick(chunks, a + b))) + multiset(chunks[i])
  {
    assert forall k :: 0 <= k < |a| ==> a[k] == (a + [i] + b)[k];
    assert forall k :: 0 <= k < |b| ==> b[k] == (a + [i] + b)[|a| + 1 + k];
    assert i == (a + [i] + b)[|a|];
    PickAppend(chunks, a, [i]);
    PickAppend(chunks, a + [i], b);
    PickAppend(chunks, a, b);
    FlattenAppend(Pick(chunks, a) + Pick(chunks, [i]), Pick(chunks, b));
    FlattenAppend(Pick(chunks, a), Pick(chunks, [i]));
    FlattenAppend(Pick(chunks, a), Pick(chunks, b));
    assert Pick(chunks, [i]) == [chunks[i]];
    FlattenOne(chunks[i]);
  }

  lemma PickSnoc(chunks: seq<seq<string>>, ix: seq<nat>)
    requires |ix| > 0 && forall k :: 0 <= k < |ix| ==> ix[k] < |chunks|
    ensures Pick(chunks, ix) == Pick(chunks, ix[..|ix| - 1]) + [chunks[ix[|ix| - 1]]]
  {
  }

  lemma PathsSnoc(naming: Naming, dir: string, prefix: string, ix: seq<nat>)
    requires |ix| > 0
    ensures Paths(naming, dir, prefix, ix) == Paths(naming, dir, prefix, ix[..|ix| - 1]) + [ChunkPath(naming, dir, prefix, ix[|ix| - 1])]
  {
  }

  lemma CleanMultiset(a: seq<string>, b: seq<string>)
    requires multiset(a) == multiset(b) && AllClean(b)
    ensures AllClean(a)
  {
    forall k | 0 <= k < |a|
      ensures Clean(a[k])
    {
      assert a[k] in multiset(b);
      var j :| 0 <= j < |b| && b[j] == a[k];
    }
  }

  /** The lines of a chunking are clean when the lines it cuts are. */
  lemma {:induction false} FlattenClean(chunks: seq<seq<string>>)
    requires AllClean(Flatten(chunks))
    ensures forall i :: 0 <= i < |chunks| ==> AllClean(chunks[i])
  {
    if |chunks| > 0 {
      var f := Flatten(chunks);
      assert forall k :: 0 <= k < |chunks[0]| ==> f[k] == chunks[0][k];
      assert forall k :: 0 <= k < |Flatten(chunks[1..])| ==> f[|chunks[0]| + k] == Flatten(chunks[1..])[k];
      FlattenClean(chunks[1..]);
      assert forall i :: 1 <= i < |chunks| ==> chunks[i] == chunks[1..][i - 1];
    }
  }

  /** Filtering clean lines leaves proper ones. */
  lemma {:induction false} NonEmptyProper(s: seq<string>)
    requires AllClean(s)
    ensures Proper(NonEmpty(s))
  {
    if |s| > 0 {
      assert AllClean(s[1..]) by {
        assert forall k :: 0 <= k < |s| - 1 ==> s[1..][k] == s[k + 1];
      }
      NonEmptyProper(s[1..]);
    }
  }

  /** A chunk file reads back as its lines without the empty ones, ready for merging when they were sorted. */
  lemma ReadBack(cmp: Comparer, naming: Naming, dir: string, prefix: string, fs: FS, bodies: seq<seq<string>>, i: nat)
    requires Holds(naming, dir, prefix, fs, bodies, |bodies|) && i < |bodies| && AllClean(bodies[i])
    ensures Loaded(fs, ChunkPath(naming, dir, prefix, i)) == NonEmpty(bodies[i])
    ensures Proper(NonEmpty(bodies[i]))
    ensures Sorted(cmp, bodies[i]) ==> Ready(cmp, fs, ChunkPath(naming, dir, prefix, i))
  {
    LineReader.LinesOfSerialized(bodies[i], true);
    NonEmptyProper(bodies[i]);
    if Sorted(cmp, bodies[i]) {
      NonEmptySorted(cmp, bodies[i]);
    }
  }

  /** The listed files are present and hold, between them, the non-empty lines of the listed bodies. */
  lemma {:induction false} ListedPool(naming: Naming, dir: string, prefix: string, fs: FS, bodies: seq<seq<string>>, ix: seq<nat>)
    requires Holds(naming, dir, prefix, fs, bodies, |bodies|)
    requires forall i :: 0 <= i < |bodies| ==> AllClean(bodies[i])
    requires forall k :: 0 <= k < |ix| ==> ix[k] < |bodies|
    ensures Present(fs, Paths(naming, dir, prefix, ix))
    ensures Pool(fs, Paths(naming, dir, prefix, ix)) == multiset(NonEmpty(Flatten(Pick(bodies, ix))))
    decreases |ix|
  {
    var ps := Paths(naming, dir, prefix, ix);
    if |ix| == 0 {
      assert LoadAll(fs, ps) == [];
      assert Pick(bodies, ix) == [];
    } else {
      var a := ix[..|ix| - 1];
      var i := ix[|ix| - 1];
      var p := ChunkPath(naming, dir, prefix, i);
      ListedPool(naming, dir, prefix, fs, bodies, a);
      PathsSnoc(naming, dir, prefix, ix);
      PickSnoc(bodies, ix);
      PoolAppend(fs, Paths(naming, dir, prefix, a), [p]);
      PoolOne(fs, p);
      ReadBack(DefaultSortOrder, naming, dir, prefix, fs, bodies, i);
      FlattenAppend(Pick(bodies, a), [bodies[i]]);
      FlattenOne(bodies[i]);
      NonEmptyAppend(Flatten(Pick(bodies, a)), bodies[i]);
    }
  }

  /** Listed files whose bodies are sorted are what generation 0 may read. */
  lemma ListedStage(cmp: Comparer, naming: Naming, dir: string, prefix: string, fs: FS, bodies: seq<seq<string>>, ix: seq<nat>)
    requires Holds(naming, dir, prefix, fs, bodies, |bodies|)
    requires forall i :: 0 <= i < |bodies| ==> AllClean(bodies[i]) && (TotalPreorder(cmp) ==> Sorted(cmp, bodies[i]))
    requires forall k :: 0 <= k < |ix| ==> ix[k] < |bodies|
    ensures Stage(cmp, naming, dir, prefix, fs, Paths(naming, dir, prefix, ix), 0)
  {
    var ps := Paths(naming, dir, prefix, ix);
    forall k | 0 <= k < |ix|
      ensures Ready(cmp, fs, ps[k]) && Tagged(naming, dir, prefix, ps[k], 0)
    {
      var i := ix[k];
      ReadBack(cmp, naming, dir, prefix, fs, bodies, i);
      assert ps[k] == ChunkPath(naming, dir, prefix, i);
    }
  }

  /** Rearranging every chunk keeps the lines of any selection of chunks. */
  lemma {:induction false} PickPermuted(bodies: seq<seq<string>>, chunks: seq<seq<string>>, ix: seq<nat>)
    requires |bodies| == |chunks|
    requires forall i :: 0 <= i < |chunks| ==> multiset(bodies[i]) == multiset(chunks[i])
    requires forall k :: 0 <= k < |ix| ==> ix[k] < |chunks|
    ensures multiset(Flatten(Pick(bodies, ix))) == multiset(Flatten(Pick(chunks, ix)))
    decreases |ix|
  {
    if |ix| == 0 {
      assert Pick(bodies, ix) == [] && Pick(chunks, ix) == [];
    } else {
      var a := ix[..|ix| - 1];
      var i := ix[|ix| - 1];
      PickPermuted(bodies, chunks, a);
      PickSnoc(bodies, ix);
      PickSnoc(chunks, ix);
      FlattenAppend(Pick(bodies, a), [bodies[i]]);
      FlattenAppend(Pick(chunks, a), [chunks[i]]);
      FlattenOne(bodies[i]);
      FlattenOne(chunks[i]);
    }
  }

  /**
   * After the chunk files are written, the listed ones are ready for generation 0 and hold the
   * non-empty lines of the listed chunks.
   */
  lemma ChunksReady(cmp: Comparer, naming: Naming, dir: string, prefix: string, fs: FS,
                    lines: seq<string>, budget: nat, chunks: seq<seq<string>>, ix: seq<nat>)
    requires AllClean(lines) && Splitter.IsChunking(lines, budget, chunks)
    requires Holds(naming, dir, prefix, fs, Bodies(cmp, cmp, chunks), |chunks|)
    requires multiset(ix) == multiset(Listed(naming, prefix, |chunks|))
    ensures var cur := Paths(naming, dir, prefix, ix);
      && Stage(cmp, naming, dir, prefix, fs, cur, 0)
      && Pool(fs, cur) == multiset(NonEmpty(Flatten(Pick(chunks, Listed(naming, prefix, |chunks|)))))
  {
    var bodies := Bodies(cmp, cmp, chunks);
    var listed := Listed(naming, prefix, |chunks|);
    PickMultiset(chunks, ix, listed);
    NonEmptyMultiset(Flatten(Pick(chunks, ix)), Flatten(Pick(chunks, listed)));
    FlattenClean(chunks);
    forall i | 0 <= i < |chunks|
      ensures AllClean(bodies[i]) && multiset(bodies[i]) == multiset(chunks[i])
      ensures TotalPreorder(cmp) ==> Sorted(cmp, bodies[i])
    {
      CleanMultiset(bodies[i], chunks[i]);
    }
    ListedStage(cmp, naming, dir, prefix, fs, bodies, ix);
    ListedPool(naming, dir, prefix, fs, bodies, ix);
    PickPermuted(bodies, chunks, ix);
    NonEmptyMultiset(Flatten(Pick(bodies, ix)), Flatten(Pick(chunks, ix)));
  }

  // ---------------------------------------------------------------------------------------------
  // The generations.

  /** The jobs of one generation write only `sub` files, so nothing outside the chunk directory changes. */
  lemma RunJobsOutside(cmp: Comparer, fs: FS, jobs: seq<Job>, rule: Merge.Rule, rd: Reading,
                       limit: nat, dir: string, g: nat, prefix: string)
    requires WellFormed(jobs, limit, dir, g, prefix)
    requires Present(fs, Inputs(jobs))
    ensures Unchanged(dir, fs, RunJobs(cmp, fs, jobs, rule, rd))
  {
    forall t | t in Targets(jobs)
      ensures Within(dir, t)
    {
      var k :| 0 <= k < |jobs| && jobs[k].MergeInto? && jobs[k].target == t;
      SubInside(dir, g, prefix, k);
    }
  }

  /**
   * The generation loop of `_StartChunkSorting`: while more files than the cursor limit remain,
   * run `ProcessChunk` and move on to its outputs. The files left are ready, number at most the
   * limit, and hold every line the listed files held when the cursors of a merge of `limit` files
   * get buffers of at least one byte.
   */
  method MergeGenerations(cmp: Comparer, naming: Naming, dir: string, prefix: string, limit: nat, rd: Reading, fs: FS, cur: seq<string>)
    returns (fs': FS, last: seq<string>, gens: nat)
    requires limit >= 2
    requires Stage(cmp, naming, dir, prefix, fs, cur, 0)
    ensures |last| <= limit
    ensures Stage(cmp, naming, dir, prefix, fs', last, gens)
    ensures MergeReader(rd, limit) >= 1 ==> Pool(fs', last) == Pool(fs, cur)
    ensures |cur| <= limit ==> gens == 0 && last == cur && fs' == fs
    ensures fs'.dirs == fs.dirs
    ensures Unchanged(dir, fs, fs')
  {
    fs', last, gens := fs, cur, 0;
    if |cur| <= limit {
      return; // the `while` below would not run
    }
    while |last| > limit
      invariant Stage(cmp, naming, dir, prefix, fs', last, gens)
      invariant Present(fs', last) && (MergeReader(rd, limit) >= 1 ==> Pool(fs', last) == Pool(fs, cur))
      invariant fs'.dirs == fs.dirs
      invariant Unchanged(dir, fs, fs')
      decreases |last|
    {
      var jobs := ProcessChunk(last, limit, dir, gens, prefix);
      NextGeneration(cmp, naming, dir, prefix, limit, rd, fs, cur, fs', last, gens, jobs);
      fs' := RunJobs(cmp, fs', jobs, Merge.CurrentRule, rd);
      last := Outputs(jobs);
      gens := gens + 1;
    }
  }

  /**
   * One round of the `while` in `_StartChunkSorting` keeps the readiness of the files and
   * everything outside `dir`, shortens the list, and keeps the lines when its merges are fed.
   */
  lemma NextGeneration(cmp: Comparer, naming: Naming, dir: string, prefix: string, limit: nat, rd: Reading, fs0: FS, cur: seq<string>,
                       fs: FS, last: seq<string>, gens: nat, jobs: seq<Job>)
    requires limit >= 2 && |last| > limit
    requires Present(fs0, cur) && Stage(cmp, naming, dir, prefix, fs, last, gens) && Unchanged(dir, fs0, fs)
    requires MergeReader(rd, limit) >= 1 ==> Pool(fs, last) == Pool(fs0, cur)
    requires Inputs(jobs) == last && WellFormed(jobs, limit, dir, gens, prefix) && |jobs| == Slices(|last|, limit)
    ensures var fs' := RunJobs(cmp, fs, jobs, Merge.CurrentRule, rd);
      && Stage(cmp, naming, dir, prefix, fs', Outputs(jobs), gens + 1)
      && (MergeReader(rd, limit) >= 1 ==> Pool(fs', Outputs(jobs)) == Pool(fs0, cur))
      && fs'.dirs == fs.dirs
      && Unchanged(dir, fs0, fs')
      && |Outputs(jobs)| < |last|
  {
    Generation(cmp, naming, dir, prefix, fs, jobs, Merge.CurrentRule, rd, MergeReader(rd, limit) >= 1, limit, gens);
    RunJobsOutside(cmp, fs, jobs, Merge.CurrentRule, rd, limit, dir, gens, prefix);
    GenerationShrinks(|last|, limit);
    UnchangedTrans(dir, fs0, fs, RunJobs(cmp, fs, jobs, Merge.CurrentRule, rd));
  }

  // ---------------------------------------------------------------------------------------------
  // `sort()`.

  /** The comparator `_getComparer()` returns for the configuration `o`. */
  function ComparerOf(o: Options, localeCompare: Comparer): Comparer {
    GetComparer(Configure(o).orderBy, Configure(o).useLocaleOrder, localeCompare)
  }

  /** The entry file can be read after the chunk directory is reset: a file, outside that directory. */
  predicate Readable(fs: FS, o: Options) {
    o.entryFile in fs.files && !Within(o.chunkDir, o.entryFile)
  }

  /** The lines `readline` yields for the entry file. */
  function EntryLines(fs: FS, o: Options): seq<string>
    requires Readable(fs, o)
  {
    ReadlineSplit(fs.files[o.entryFile])
  }

  /** `chunkDataHeatSize`: six tenths of the configured heat size. */
  function ChunkBudget(o: Options): nat {
    Share(Configure(o).heatSize, 6)
  }

  /** The configured heat size of `o`, with the readers' buffers derived as `b` says. */
  function ReadingOf(o: Options, b: Buffering): Reading {
    Reading(Configure(o).heatSize, b)
  }

  /** The number of chunk files the listing finds among `chunks`. */
  function ListedCount(o: Options, naming: Naming, chunks: seq<seq<string>>): nat {
    |Listed(naming, Configure(o).chunkFilename, |chunks|)|
  }

  /** The most files one merge of a run reads, when `c` files are listed and at most `limit` are merged at once. */
  function Widest(c: nat, limit: nat): nat {
    if c <= limit then c else limit
  }

  /**
   * Every read stream of a run gets a buffer of at least one byte: the entry file's reader, and
   * the cursors of each merge, none of which reads more than `Widest(c, limit)` files.
   */
  predicate Fed(rd: Reading, limit: nat, c: nat) {
    SplitReader(rd) >= 1 && MergeFed(rd, Widest(c, limit))
  }

  /** Raised buffers feed every run. */
  lemma RaisedFed(heat: nat, limit: nat, c: nat)
    ensures Fed(Reading(heat, AtLeastOne), limit, c)
  {
    var rd := Reading(heat, AtLeastOne);
    SplitReaderFeeds(rd);
    if Widest(c, limit) > 0 {
      MergeReaderFeeds(rd, Widest(c, limit));
    }
  }

  /** The entry file read through a buffer of 0 bytes yields no line, hence no chunk. */
  lemma NothingRead(budget: nat, chunks: seq<seq<string>>)
    requires Splitter.IsChunking(ReadlineSplit(Streamed(0, "")), budget, chunks)
    ensures ReadlineSplit(Streamed(0, "")) == [] && chunks == []
  {
    assert ReadlineParts("") == [""];
  }

  /**
   * The final merge reads ready files: sorted runs under a total preorder; the lines of the pool
   * when its cursors are fed, none at all when they are not.
   */
  lemma FinalRuns(cmp: Comparer, naming: Naming, dir: string, prefix: string, fs: FS, last: seq<string>, g: nat, rd: Reading)
    requires Stage(cmp, naming, dir, prefix, fs, last, g)
    ensures TotalPreorder(cmp) ==> Merge.RunsSorted(cmp, MergeRead(fs, last, rd, true))
    ensures MergeFed(rd, |last|) ==> multiset(Merge.MergeRuns(cmp, MergeRead(fs, last, rd, true), Merge.CurrentRule)) == Pool(fs, last)
    ensures !MergeFed(rd, |last|) ==> Merge.MergeRuns(cmp, MergeRead(fs, last, rd, true), Merge.CurrentRule) == []
  {
    MergeReadReady(cmp, fs, last, rd);
    if MergeFed(rd, |last|) {
      MergeReadFed(fs, last, rd);
    } else {
      MergeReadStarved(fs, last, rd, true);
      assert |multiset(Merge.MergeRuns(cmp, MergeRead(fs, last, rd, true), Merge.CurrentRule))| == 0;
    }
  }

  /** The final merge is fed when every merge of at most `Widest(c, limit)` files is. */
  lemma FinalFed(rd: Reading, limit: nat, c: nat, n: nat)
    requires limit >= 2 && n <= limit && (c <= limit ==> n == c)
    requires MergeFed(rd, Widest(c, limit))
    ensures MergeFed(rd, n)
    ensures c > limit ==> MergeReader(rd, limit) >= 1
  {
    if c > limit && n > 0 {
      MergeReaderFewer(rd, n, limit);
    }
  }

  /**
   * What the written lines amount to: every non-empty entry line when the run is fed and the
   * listing finds every chunk file, in the one sorted order when the comparator is antisymmetric;
   * nothing at all when the listing finds none.
   */
  lemma Delivered(cmp: Comparer, naming: Naming, prefix: string, lines: seq<string>, chunks: seq<seq<string>>, written: seq<string>,
                  fed: bool)
    requires fed ==> Flatten(chunks) == lines
    requires fed ==> multiset(written) == multiset(NonEmpty(Flatten(Pick(chunks, Listed(naming, prefix, |chunks|)))))
    requires |Listed(naming, prefix, |chunks|)| == 0 ==> written == []
    requires TotalPreorder(cmp) ==> Sorted(cmp, written)
    ensures fed && FindsAll(naming, prefix) ==> multiset(written) == multiset(NonEmpty(lines))
    ensures fed && FindsAll(naming, prefix) && TotalPreorder(cmp) && Antisymmetric(cmp) ==> written == SortBy(cmp, NonEmpty(lines))
    ensures naming == AsWritten && |prefix| > 0 && prefix[0] != 'c' ==> written == []
  {
    if fed && FindsAll(naming, prefix) {
      ListedAll(naming, prefix, |chunks|);
      PickAll(chunks);
      if TotalPreorder(cmp) && Antisymmetric(cmp) {
        SortedUnique(cmp, written, SortBy(cmp, NonEmpty(lines)));
      }
    }
    if naming == AsWritten && |prefix| > 0 && prefix[0] != 'c' {
      ListedNone(prefix, |chunks|);
    }
  }

  /**
   * `sort()` after the chunk directory was reset: split what the entry file's reader reads, write,
   * list, run the generations, merge into the output file. `b` says how the readers' buffers come
   * from the heat size.
   */
  method SortEntry(s: Settings, cmp: Comparer, fs: FS, accepts: nat -> bool, naming: Naming, b: Buffering,
                   arrange: seq<nat> -> seq<nat>)
    returns (fs': FS, chunks: seq<seq<string>>, written: seq<string>)
    requires s.limit >= 2 && s.entryFile in fs.files
    requires Rearranges(arrange)
    ensures SplitReader(Reading(s.heatSize, b)) == 0 ==> chunks == [] && written == []
    ensures SplitReader(Reading(s.heatSize, b)) >= 1 ==> Splitter.IsChunking(ReadlineSplit(fs.files[s.entryFile]), Share(s.heatSize, 6), chunks)
    ensures MergeFed(Reading(s.heatSize, b), Widest(|Listed(naming, s.chunkFilename, |chunks|)|, s.limit)) ==>
      multiset(written) == multiset(NonEmpty(Flatten(Pick(chunks, Listed(naming, s.chunkFilename, |chunks|)))))
    ensures |Listed(naming, s.chunkFilename, |chunks|)| <= s.limit && !MergeFed(Reading(s.heatSize, b), |Listed(naming, s.chunkFilename, |chunks|)|) ==>
      written == []
    ensures |Listed(naming, s.chunkFilename, |chunks|)| == 0 ==> written == []
    ensures TotalPreorder(cmp) ==> Sorted(cmp, written)
    ensures !Within(s.chunkDir, s.outputFile) ==> s.outputFile in fs'.files && fs'.files[s.outputFile] == Serialize(written)
    ensures forall p :: p in fs.files && p != s.outputFile && !Within(s.chunkDir, p) ==> p in fs'.files && fs'.files[p] == fs.files[p]
    ensures fs'.dirs == fs.dirs
  {
    var rd := Reading(s.heatSize, b);
    var lines := ReadlineSplit(Streamed(SplitReader(rd), fs.files[s.entryFile]));
    chunks := Splitter.SplitIntoChunks(lines, Share(s.heatSize, 6));
    if SplitReader(rd) == 0 {
      NothingRead(Share(s.heatSize, 6), chunks);
    }
    var fs2 := WriteChunks(cmp, cmp, naming, s.chunkDir, s.chunkFilename, fs, chunks, accepts);
    var ix := arrange(Listed(naming, s.chunkFilename, |chunks|));
    assert |ix| == |multiset(ix)| == |Listed(naming, s.chunkFilename, |chunks|)|;
    var cur := Paths(naming, s.chunkDir, s.chunkFilename, ix);
    ChunksReady(cmp, naming, s.chunkDir, s.chunkFilename, fs2, lines, Share(s.heatSize, 6), chunks, ix);
    var fs3, last, gens := MergeGenerations(cmp, naming, s.chunkDir, s.chunkFilename, s.limit, rd, fs2, cur);
    FinalRuns(cmp, naming, s.chunkDir, s.chunkFilename, fs3, last, gens, rd);
    written := Merge.MergeRuns(cmp, MergeRead(fs3, last, rd, true), Merge.CurrentRule);
    if MergeFed(rd, Widest(|cur|, s.limit)) {
      FinalFed(rd, s.limit, |cur|, |last|);
    }
    UnchangedTrans(s.chunkDir, fs, fs2, fs3);
    OutputKeeps(s.chunkDir, fs, fs3, s.outputFile, Serialize(written));
    fs' := fs3.(files := fs3.files[s.outputFile := Serialize(written)]);
  }

  /**
   * What a run over the entry lines `lines` delivers, given what `SortEntry` states about it: every
   * non-empty line when every read stream is fed and the listing finds every chunk, as it always is
   * with raised buffers; in the one sorted order under an antisymmetric comparator.
   */
  lemma SortDelivers(s: Settings, cmp: Comparer, lines: seq<string>, naming: Naming, b: Buffering,
                     chunks: seq<seq<string>>, written: seq<string>)
    requires SplitReader(Reading(s.heatSize, b)) >= 1 ==> Splitter.IsChunking(lines, Share(s.heatSize, 6), chunks)
    requires MergeFed(Reading(s.heatSize, b), Widest(|Listed(naming, s.chunkFilename, |chunks|)|, s.limit)) ==>
      multiset(written) == multiset(NonEmpty(Flatten(Pick(chunks, Listed(naming, s.chunkFilename, |chunks|)))))
    requires |Listed(naming, s.chunkFilename, |chunks|)| == 0 ==> written == []
    requires TotalPreorder(cmp) ==> Sorted(cmp, written)
    ensures FindsAll(naming, s.chunkFilename) && Fed(Reading(s.heatSize, b), s.limit, |chunks|) ==>
      multiset(written) == multiset(NonEmpty(lines))
    ensures FindsAll(naming, s.chunkFilename) && b == AtLeastOne ==> multiset(written) == multiset(NonEmpty(lines))
    ensures FindsAll(naming, s.chunkFilename) && Fed(Reading(s.heatSize, b), s.limit, |chunks|) &&
            TotalPreorder(cmp) && Antisymmetric(cmp) ==>
      written == SortBy(cmp, NonEmpty(lines))
    ensures naming == AsWritten && |s.chunkFilename| > 0 && s.chunkFilename[0] != 'c' ==> written == []
  {
    if b == AtLeastOne {
      RaisedFed(s.heatSize, s.limit, |chunks|);
    }
    var fed := FindsAll(naming, s.chunkFilename) && Fed(Reading(s.heatSize, b), s.limit, |chunks|);
    if fed {
      ListedAll(naming, s.chunkFilename, |chunks|);
    }
    Delivered(cmp, naming, s.chunkFilename, lines, chunks, written, fed);
  }

  /**
   * The files after `sort()`: the reset, the run that wrote `content` to `out` and, when `remove`
   * is set, `_clearChunkDir` again. The output file holds `content`, every file outside the chunk
   * directory is as it was, and the chunk directory remains exactly when `remove` is not set.
   */
  lemma Finished(fs: FS, fs2: FS, dir: string, out: string, content: string, remove: bool)
    requires !Within(dir, out) ==> out in fs2.files && fs2.files[out] == content
    requires forall p :: p in CreateDir(ClearDir(fs, dir), dir).files && p != out && !Within(dir, p) ==>
      p in fs2.files && fs2.files[p] == CreateDir(ClearDir(fs, dir), dir).files[p]
    requires fs2.dirs == CreateDir(ClearDir(fs, dir), dir).dirs
    ensures var fs3 := if remove then ClearDir(fs2, dir) else fs2;
      && (!Within(dir, out) ==> out in fs3.files && fs3.files[out] == content)
      && (forall p :: p in fs.files && p != out && !Within(dir, p) ==> p in fs3.files && fs3.files[p] == fs.files[p])
      && (Exists(fs3, dir) <==> !remove)
  {
    FreshDir(fs, dir);
  }

  /**
   * `sort()` of src/ExternalSort.ts. `accepts(n)` is what a chunk writer's `n`-th `write` returns;
   * `b` says how the readers' buffers come from the heat size (`Floored` as written); `arrange` is
   * the order in which `readdirSync` lists the chunk files.
   */
  method Sort(o: Options, fs: FS, localeCompare: Comparer, accepts: nat -> bool, naming: Naming, b: Buffering,
              arrange: seq<nat> -> seq<nat>)
    returns (r: Result<Outcome, Failure>)
    requires Rearranges(arrange)
    ensures !Exists(fs, o.entryFile) ==> r == Err(EntryMissing(o.entryFile))
    ensures Exists(fs, o.entryFile) && !Readable(fs, o) ==> r == Err(EntryUnreadable(o.entryFile))
    ensures r.Ok? <==> Readable(fs, o)
    ensures r.Ok? && SplitReader(ReadingOf(o, b)) == 0 ==> r.value.chunks == [] && r.value.written == []
    ensures r.Ok? && SplitReader(ReadingOf(o, b)) >= 1 ==> Splitter.IsChunking(EntryLines(fs, o), ChunkBudget(o), r.value.chunks)
    ensures r.Ok? && MergeFed(ReadingOf(o, b), Widest(ListedCount(o, naming, r.value.chunks), Configure(o).limit)) ==>
      multiset(r.value.written) == multiset(NonEmpty(Flatten(Pick(r.value.chunks, Listed(naming, Configure(o).chunkFilename, |r.value.chunks|)))))
    ensures r.Ok? && ListedCount(o, naming, r.value.chunks) <= Configure(o).limit &&
            !MergeFed(ReadingOf(o, b), ListedCount(o, naming, r.value.chunks)) ==>
      r.value.written == []
    ensures r.Ok? && TotalPreorder(ComparerOf(o, localeCompare)) ==> Sorted(ComparerOf(o, localeCompare), r.value.written)
    ensures r.Ok? && FindsAll(naming, Configure(o).chunkFilename) && Fed(ReadingOf(o, b), Configure(o).limit, |r.value.chunks|) ==>
      multiset(r.value.written) == multiset(NonEmpty(EntryLines(fs, o)))
    ensures r.Ok? && FindsAll(naming, Configure(o).chunkFilename) && b == AtLeastOne ==>
      multiset(r.value.written) == multiset(NonEmpty(EntryLines(fs, o)))
    ensures (r.Ok? && FindsAll(naming, Configure(o).chunkFilename) && Fed(ReadingOf(o, b), Configure(o).limit, |r.value.chunks|) &&
             TotalPreorder(ComparerOf(o, localeCompare)) && Antisymmetric(ComparerOf(o, localeCompare))) ==>
      r.value.written == SortBy(ComparerOf(o, localeCompare), NonEmpty(EntryLines(fs, o)))
    ensures r.Ok? && FindsAll(naming, Configure(o).chunkFilename) && Fed(ReadingOf(o, b), Configure(o).limit, |r.value.chunks|) &&
            o.useLocaleOrder == Some(false) ==>
      r.value.written == SortBy(ComparerOf(o, localeCompare), NonEmpty(EntryLines(fs, o)))
    ensures r.Ok? && naming == AsWritten && |Configure(o).chunkFilename| > 0 && Configure(o).chunkFilename[0] != 'c' ==>
      r.value.written == []
    ensures r.Ok? && !Within(o.chunkDir, o.outputFile) ==>
      o.outputFile in r.value.fs.files && r.value.fs.files[o.outputFile] == Serialize(r.value.written)
    ensures r.Ok? ==> forall p :: p in fs.files && p != o.outputFile && !Within(o.chunkDir, p) ==>
      p in r.value.fs.files && r.value.fs.files[p] == fs.files[p]
    ensures r.Ok? ==> (Exists(r.value.fs, o.chunkDir) <==> o.removeChunks != Some(true))
  {
    var s := Configure(o);
    var cmp := GetComparer(s.orderBy, s.useLocaleOrder, localeCompare);
    if !Exists(fs, s.entryFile) {
      return Err(EntryMissing(s.entryFile));
    }
    if !Readable(fs, o) {
      return Err(EntryUnreadable(s.entryFile)); // the reset deleted it, or it is not a file
    }
    var fs1 := CreateDir(ClearDir(fs, s.chunkDir), s.chunkDir);
    var fs2, chunks, written := SortEntry(s, cmp, fs1, accepts, naming, b, arrange);
    assert EntryLines(fs, o) == ReadlineSplit(fs1.files[s.entryFile]);
    assert ReadingOf(o, b) == Reading(s.heatSize, b) && ChunkBudget(o) == Share(s.heatSize, 6);
    assert ListedCount(o, naming, chunks) == |Listed(naming, s.chunkFilename, |chunks|)|;
    assert ComparerOf(o, localeCompare) == cmp;
    SortDelivers(s, cmp, EntryLines(fs, o), naming, b, chunks, written);
    if !s.useLocaleOrder {
      OrdinalTotalOrder(s.orderBy, localeCompare);
    }
    Finished(fs, fs2, s.chunkDir, s.outputFile, Serialize(written), s.removeChunks);
    r := Ok(Outcome(if s.removeChunks then ClearDir(fs2, s.chunkDir) else fs2, chunks, written));
  }
}
