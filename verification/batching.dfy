/**
 * The multi-generation merge of `_StartChunkSorting` (src/ExternalSort.ts): while there are more
 * chunk files than the cursor limit, `ProcessChunk` cuts the file list into consecutive slices of
 * at most `limit` files, merges every slice of two or more into a new `sub` file, passes a final
 * single file on unchanged, and the resulting list becomes the next generation.
 */
module Batching {
  import opened Strings

  /** What `ProcessChunk` does with one slice: pass a lone last file on, or merge the slice into a new file. */
  datatype Job = PassOn(file: string) | MergeInto(inputs: seq<string>, target: string)

  /** `${chunkDir}/sub${subPrefix}_${chunkFilename}_${i}.tmp`. */
  function SubName(dir: string, gen: nat, prefix: string, i: nat): string {
    dir + "/sub" + NatToString(gen) + "_" + prefix + "_" + NatToString(i) + ".tmp"
  }

  /** The files a generation reads, slice after slice. */
  function Inputs(jobs: seq<Job>): seq<string> {
    if |jobs| == 0 then []
    else Inputs(jobs[..|jobs| - 1])
         + (match jobs[|jobs| - 1] case PassOn(f) => [f] case MergeInto(ins, _) => ins)
  }

  /** The file a job leaves for the next generation: the file passed on, or the merge target. */
  function Output(j: Job): string {
    match j
    case PassOn(f) => f
    case MergeInto(_, t) => t
  }

  /** The file list of the next generation, `subChunksFiles`. */
  function Outputs(jobs: seq<Job>): (names: seq<string>)
    ensures |names| == |jobs|
    ensures forall k {:trigger names[k], jobs[k]} :: 0 <= k < |jobs| ==> names[k] == Output(jobs[k])
  {
    if |jobs| == 0 then []
    else Outputs(jobs[..|jobs| - 1])
         + (match jobs[|jobs| - 1] case PassOn(f) => [f] case MergeInto(_, t) => [t])
  }

  /** The files a generation writes: the targets of its merge jobs. */
  function Targets(jobs: seq<Job>): set<string> {
    set k | 0 <= k < |jobs| && jobs[k].MergeInto? :: jobs[k].target
  }

  lemma TargetsSnoc(jobs: seq<Job>)
    requires |jobs| > 0
    ensures Targets(jobs) == Targets(jobs[..|jobs| - 1])
                             + (if jobs[|jobs| - 1].MergeInto? then {jobs[|jobs| - 1].target} else {})
  {
    var n := |jobs| - 1;
    forall f | f in Targets(jobs)
      ensures f in Targets(jobs[..n]) + (if jobs[n].MergeInto? then {jobs[n].target} else {})
    {
      var k :| 0 <= k < |jobs| && jobs[k].MergeInto? && jobs[k].target == f;
      if k < n {
        assert jobs[..n][k] == jobs[k];
      }
    }
    forall f | f in Targets(jobs[..n])
      ensures f in Targets(jobs)
    {
      var k :| 0 <= k < n && jobs[..n][k].MergeInto? && jobs[..n][k].target == f;
      assert jobs[k] == jobs[..n][k];
    }
  }

  lemma InputsAppend(jobs: seq<Job>, j: Job)
    ensures Inputs(jobs + [j]) == Inputs(jobs) + (match j case PassOn(f) => [f] case MergeInto(ins, _) => ins)
    ensures Outputs(jobs + [j]) == Outputs(jobs) + (match j case PassOn(f) => [f] case MergeInto(_, t) => [t])
  {
    assert (jobs + [j])[..|jobs|] == jobs;
  }

  /**
   * The shape of one generation: merges of two to `limit` files named `sub<gen>_<prefix>_<k>.tmp`
   * after their position `k`, and a pass-through only as the very last job.
   */
  ghost predicate WellFormed(jobs: seq<Job>, limit: nat, dir: string, gen: nat, prefix: string) {
    forall k :: 0 <= k < |jobs| ==>
      match jobs[k]
      case PassOn(_) => k == |jobs| - 1
      case MergeInto(ins, t) => 2 <= |ins| <= limit && t == SubName(dir, gen, prefix, k)
  }

  /** The number of slices of at most `limit` files that `n` files are cut into: the ceiling of `n / limit`. */
  function Slices(n: nat, limit: nat): nat
    requires limit >= 1
    decreases n
  {
    if n == 0 then 0 else if n <= limit then 1 else 1 + Slices(n - limit, limit)
  }

  /** `Slices` is the ceiling of the quotient: `limit` times one slice fewer stays below `n`, the full count reaches it. */
  lemma {:induction false} SlicesBounds(n: nat, limit: nat)
    requires limit >= 1 && n > 0
    ensures (Slices(n, limit) - 1) * limit < n <= Slices(n, limit) * limit
    decreases n
  {
    if n > limit {
      SlicesBounds(n - limit, limit);
      var m := Slices(n - limit, limit);
      assert Slices(n, limit) == m + 1;
      assert (m + 1) * limit == m * limit + limit;
      assert m * limit == (m - 1) * limit + limit;
    }
  }

  /** `ProcessChunk(cf)`: the loop over `offset`, as written. */
  method ProcessChunk(cf: seq<string>, limit: nat, dir: string, gen: nat, prefix: string) returns (jobs: seq<Job>)
    requires limit >= 2
    ensures Inputs(jobs) == cf
    ensures WellFormed(jobs, limit, dir, gen, prefix)
    ensures |jobs| == Slices(|cf|, limit)
  {
    var i := 0;
    var offset := 0;
    jobs := [];
    while offset < |cf|
      invariant |jobs| == i
      invariant offset <= |cf| ==> Inputs(jobs) == cf[..offset] && i + Slices(|cf| - offset, limit) == Slices(|cf|, limit)
      invariant offset > |cf| ==> Inputs(jobs) == cf && i == Slices(|cf|, limit)
      invariant WellFormed(jobs, limit, dir, gen, prefix)
      invariant forall k :: 0 <= k < |jobs| ==> jobs[k].MergeInto?
      decreases |cf| - offset
    {
      var end := if limit + offset < |cf| then limit + offset else |cf|;
      var slice := cf[offset..end];
      TakeSlice(cf, offset, end);
      if |slice| == 1 {
        var j := PassOn(slice[0]);
        InputsAppend(jobs, j);
        WellFormedSnoc(jobs, j, limit, dir, gen, prefix);
        assert [slice[0]] == slice;
        jobs := jobs + [j];
        return;
      } else {
        var j := MergeInto(slice, SubName(dir, gen, prefix, i));
        InputsAppend(jobs, j);
        WellFormedSnoc(jobs, j, limit, dir, gen, prefix);
        jobs := jobs + [j];
        i := i + 1;
        offset := offset + limit;
      }
    }
    if offset == |cf| {
      assert cf[..offset] == cf;
    }
  }

  lemma TakeSlice(cf: seq<string>, offset: nat, end: nat)
    requires offset <= end <= |cf|
    ensures cf[..offset] + cf[offset..end] == cf[..end]
  {
  }

  /** Appending a job that fits the shape of position `|jobs|` after merges only keeps a generation well formed. */
  lemma WellFormedSnoc(jobs: seq<Job>, j: Job, limit: nat, dir: string, gen: nat, prefix: string)
    requires WellFormed(jobs, limit, dir, gen, prefix)
    requires forall k :: 0 <= k < |jobs| ==> jobs[k].MergeInto?
    requires j.MergeInto? ==> 2 <= |j.inputs| <= limit && j.target == SubName(dir, gen, prefix, |jobs|)
    ensures WellFormed(jobs + [j], limit, dir, gen, prefix)
    ensures j.MergeInto? ==> forall k :: 0 <= k < |jobs + [j]| ==> (jobs + [j])[k].MergeInto?
  {
    assert forall k :: 0 <= k < |jobs| ==> (jobs + [j])[k] == jobs[k];
  }

  /** A generation leaves strictly fewer files whenever there are more than `limit`, so the loop ends. */
  lemma {:induction false} GenerationShrinks(n: nat, limit: nat)
    requires limit >= 2 && n > limit
    ensures Slices(n, limit) < n
    decreases n
  {
    if n - limit > limit {
      GenerationShrinks(n - limit, limit);
    }
  }

  /** Names of different generations or positions never coincide, so no merge overwrites an input of a later one. */
  lemma SubNameInjective(dir: string, prefix: string, g: nat, i: nat, g': nat, i': nat)
    requires SubName(dir, g, prefix, i) == SubName(dir, g', prefix, i')
    ensures g == g' && i == i'
  {
    var a, a' := NatToString(g), NatToString(g');
    var b, b' := NatToString(i), NatToString(i');
    var tail := "_" + prefix + "_";
    var r, r' := tail + (b + ".tmp"), tail + (b' + ".tmp");
    SubNameShape(dir, g, prefix, i);
    SubNameShape(dir, g', prefix, i');
    SameHead(dir + "/sub", a + r, a' + r');
    assert r[0] == '_' && r'[0] == '_';
    DigitsSplitUnique(a, r, a', r');
    NatToStringInjective(g, g');
    SameHead(tail, b + ".tmp", b' + ".tmp");
    SameTail(b, b', ".tmp");
    NatToStringInjective(i, i');
  }

  /** A `sub` name taken apart: the fixed head, the generation, the prefix between underscores, the position. */
  lemma SubNameShape(dir: string, g: nat, prefix: string, i: nat)
    ensures SubName(dir, g, prefix, i) == (dir + "/sub") + (NatToString(g) + (("_" + prefix + "_") + (NatToString(i) + ".tmp")))
  {
  }

  lemma SameHead(h: string, x: string, y: string)
    requires h + x == h + y
    ensures x == y
  {
    assert x == (h + x)[|h|..];
    assert y == (h + y)[|h|..];
  }

  lemma SameTail(x: string, y: string, t: string)
    requires x + t == y + t
    ensures x == y
  {
    assert x == (x + t)[..|x|];
    assert y == (y + t)[..|y|];
  }

  /** `sub` files never start with `chunk_`, the prefix of every chunk file's name. */
  lemma SubNameNotChunk(dir: string, gen: nat, prefix: string, i: nat, j: nat)
    ensures SubName(dir, gen, prefix, i) != dir + "/chunk_" + NatToString(j) + ".tmp"
  {
    var s := SubName(dir, gen, prefix, i);
    var c := dir + "/chunk_" + NatToString(j) + ".tmp";
    assert s[|dir| + 1] == 's';
    assert c[|dir| + 1] == 'c';
  }

  /**
   * The generation loop of `_StartChunkSorting`: run `ProcessChunk` while more than `limit` files
   * remain, counting generations from 0; the final merge then gets at most `limit` files.
   */
  method Generations(files: seq<string>, limit: nat, dir: string, prefix: string)
    returns (plan: seq<seq<Job>>, last: seq<string>)
    requires limit >= 2
    ensures |last| <= limit
    ensures |files| <= limit ==> plan == [] && last == files
    ensures |plan| > 0 ==> Inputs(plan[0]) == files && Outputs(plan[|plan| - 1]) == last
    ensures forall g :: 0 <= g < |plan| - 1 ==> Outputs(plan[g]) == Inputs(plan[g + 1])
    ensures forall g :: 0 <= g < |plan| ==> WellFormed(plan[g], limit, dir, g, prefix) && |Inputs(plan[g])| > limit
  {
    plan := [];
    last := files;
    while |last| > limit
      invariant Chained(files, limit, dir, prefix, plan, last)
      decreases |last|
    {
      var jobs := ProcessChunk(last, limit, dir, |plan|, prefix);
      GenerationShrinks(|last|, limit);
      ChainedSnoc(files, limit, dir, prefix, plan, last, jobs);
      plan := plan + [jobs];
      last := Outputs(jobs);
    }
  }

  /** The generations so far: the first reads `files`, each reads what the one before wrote, the last wrote `last`. */
  ghost predicate Chained(files: seq<string>, limit: nat, dir: string, prefix: string, plan: seq<seq<Job>>, last: seq<string>) {
    && (|plan| == 0 ==> last == files)
    && (|plan| > 0 ==> Inputs(plan[0]) == files && Outputs(plan[|plan| - 1]) == last)
    && (forall g :: 0 <= g < |plan| - 1 ==> Outputs(plan[g]) == Inputs(plan[g + 1]))
    && (forall g :: 0 <= g < |plan| ==> WellFormed(plan[g], limit, dir, g, prefix) && |Inputs(plan[g])| > limit)
  }

  /** A generation that reads the list the last one wrote extends the chain. */
  lemma ChainedSnoc(files: seq<string>, limit: nat, dir: string, prefix: string, plan: seq<seq<Job>>, last: seq<string>, jobs: seq<Job>)
    requires Chained(files, limit, dir, prefix, plan, last) && |last| > limit
    requires Inputs(jobs) == last && WellFormed(jobs, limit, dir, |plan|, prefix)
    ensures Chained(files, limit, dir, prefix, plan + [jobs], Outputs(jobs))
  {
    var plan' := plan + [jobs];
    assert forall g :: 0 <= g < |plan| ==> plan'[g] == plan[g];
    assert plan'[|plan|] == jobs;
  }
}
