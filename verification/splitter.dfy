/**
 * `_SplitIntoChunks` and `_WriteChunkFile`: the entry file's lines are collected into chunks whose
 * total `length` reaches the chunk budget, and every chunk is sorted and written to
 * `<chunkDir>/chunk_<i>.tmp`, one line per `\n`.
 *
 * src/ExternalSort.ts pushes a line and then checks the budget; the older ExternalSort.ts and
 * ExternalSort.js check first and push afterwards, so a first line that alone reaches the budget
 * closes an empty chunk before it.
 */
module Splitter {
  import opened Order
  import opened Strings
  import opened LineSplit
  import Utf16

  /** The running `size` of a chunk: the sum of `line.length` over its lines. */
  function Weight(ls: seq<string>): nat {
    if |ls| == 0 then 0 else Weight(ls[..|ls| - 1]) + Utf16.Length(ls[|ls| - 1])
  }

  lemma WeightAppend(ls: seq<string>, x: string)
    ensures Weight(ls + [x]) == Weight(ls) + Utf16.Length(x)
  {
    assert (ls + [x])[..|ls|] == ls;
  }

  /** A longer prefix never weighs less. */
  lemma {:induction false} WeightPrefix(ls: seq<string>, j: nat)
    requires j <= |ls|
    ensures Weight(ls[..j]) <= Weight(ls)
    decreases |ls|
  {
    if j < |ls| {
      assert ls[..|ls| - 1][..j] == ls[..j];
      WeightPrefix(ls[..|ls| - 1], j);
    } else {
      assert ls[..j] == ls;
    }
  }

  /**
   * What the push-then-check loop produces: the chunks concatenate to the lines, none is empty,
   * every proper prefix of a chunk stays below the budget, and every chunk but the last reaches it.
   */
  ghost predicate IsChunking(lines: seq<string>, budget: nat, chunks: seq<seq<string>>) {
    && Flatten(chunks) == lines
    && (forall k :: 0 <= k < |chunks| ==> |chunks[k]| > 0)
    && (forall k, j :: 0 <= k < |chunks| && 0 < j < |chunks[k]| ==> Weight(chunks[k][..j]) < budget)
    && (forall k :: 0 <= k < |chunks| - 1 ==> Weight(chunks[k]) >= budget)
  }

  /** The loop state of the push-then-check splitter: closed chunks as described, the open one below the budget. */
  ghost predicate SplitLoop(lines: seq<string>, budget: nat, i: nat, chunks: seq<seq<string>>, data: seq<string>, size: nat) {
    && i <= |lines|
    && Flatten(chunks) + data == lines[..i]
    && size == Weight(data)
    && (data == [] || size < budget)
    && ClosedAt(chunks, budget)
  }

  /** Every closed chunk is non-empty, reaches the budget, and stays below it before its last line. */
  ghost predicate ClosedAt(chunks: seq<seq<string>>, budget: nat) {
    forall k :: 0 <= k < |chunks| ==> |chunks[k]| > 0 && Weight(chunks[k]) >= budget && PrefixesBelow(chunks[k], budget)
  }

  /** Every proper prefix of `d` weighs less than the budget. */
  ghost predicate PrefixesBelow(d: seq<string>, budget: nat) {
    forall j :: 0 < j < |d| ==> Weight(d[..j]) < budget
  }

  /** Every proper prefix of the open chunk plus one line weighs no more than the open chunk. */
  lemma PushedPrefixes(data: seq<string>, x: string, budget: nat)
    requires data == [] || Weight(data) < budget
    ensures PrefixesBelow(data + [x], budget)
  {
    forall j | 0 < j < |data + [x]|
      ensures Weight((data + [x])[..j]) < budget
    {
      assert (data + [x])[..j] == data[..j];
      WeightPrefix(data, j);
    }
  }

  /** A line that leaves `size` below the budget stays in the open chunk. */
  lemma SplitKeep(lines: seq<string>, budget: nat, i: nat, chunks: seq<seq<string>>, data: seq<string>, size: nat)
    requires SplitLoop(lines, budget, i, chunks, data, size) && i < |lines|
    requires size + Utf16.Length(lines[i]) < budget
    ensures SplitLoop(lines, budget, i + 1, chunks, data + [lines[i]], size + Utf16.Length(lines[i]))
  {
    WeightAppend(data, lines[i]);
    assert lines[..i + 1] == lines[..i] + [lines[i]];
  }

  /** A line that takes `size` to the budget closes the open chunk with it. */
  lemma SplitClose(lines: seq<string>, budget: nat, i: nat, chunks: seq<seq<string>>, data: seq<string>, size: nat)
    requires SplitLoop(lines, budget, i, chunks, data, size) && i < |lines|
    requires size + Utf16.Length(lines[i]) >= budget
    ensures SplitLoop(lines, budget, i + 1, chunks + [data + [lines[i]]], [], 0)
  {
    var x := lines[i];
    var d := data + [x];
    var c := chunks + [d];
    assert Flatten(c) + [] == lines[..i + 1] by {
      FlattenSnoc(chunks, d);
      assert lines[..i + 1] == lines[..i] + [x];
    }
    assert ClosedAt(c, budget) by {
      WeightAppend(data, x);
      PushedPrefixes(data, x, budget);
      ClosedSnoc(chunks, d, budget);
    }
  }

  lemma FlattenSnoc(chunks: seq<seq<string>>, d: seq<string>)
    ensures Flatten(chunks + [d]) == Flatten(chunks) + d
  {
    FlattenAppend(chunks, [d]);
    assert Flatten([d]) == d + Flatten([]);
  }

  /** A closed chunk that reaches the budget only with its last line keeps the closed chunks as the loop needs them. */
  lemma ClosedSnoc(chunks: seq<seq<string>>, d: seq<string>, budget: nat)
    requires ClosedAt(chunks, budget)
    requires |d| > 0 && Weight(d) >= budget && PrefixesBelow(d, budget)
    ensures ClosedAt(chunks + [d], budget)
  {
    var c := chunks + [d];
    forall k | 0 <= k < |c|
      ensures |c[k]| > 0 && Weight(c[k]) >= budget && PrefixesBelow(c[k], budget)
    {
      if k < |chunks| {
        assert c[k] == chunks[k];
      }
    }
  }

  /** After the loop the open chunk, if any, is written as the last one. */
  lemma SplitDone(lines: seq<string>, budget: nat, chunks: seq<seq<string>>, data: seq<string>, size: nat)
    requires SplitLoop(lines, budget, |lines|, chunks, data, size)
    ensures IsChunking(lines, budget, if |data| > 0 then chunks + [data] else chunks)
  {
    assert lines[..|lines|] == lines;
    if |data| > 0 {
      FlattenSnoc(chunks, data);
      assert PrefixesBelow(data, budget) by {
        forall j | 0 < j < |data|
          ensures Weight(data[..j]) < budget
        {
          WeightPrefix(data, j);
        }
      }
      var c := chunks + [data];
      forall k | 0 <= k < |c|
        ensures |c[k]| > 0 && PrefixesBelow(c[k], budget) && (k < |c| - 1 ==> Weight(c[k]) >= budget)
      {
        if k < |chunks| {
          assert c[k] == chunks[k];
        }
      }
      ChunkingOf(lines, budget, c);
    } else {
      assert chunks + [] == chunks;
      ChunkingOf(lines, budget, chunks);
    }
  }

  lemma ChunkingOf(lines: seq<string>, budget: nat, c: seq<seq<string>>)
    requires Flatten(c) == lines
    requires forall k :: 0 <= k < |c| ==> |c[k]| > 0 && PrefixesBelow(c[k], budget) && (k < |c| - 1 ==> Weight(c[k]) >= budget)
    ensures IsChunking(lines, budget, c)
  {
  }

  /** The loop of `_SplitIntoChunks` in src/ExternalSort.ts, with `budget` = `chunkDataHeatSize`. */
  method SplitIntoChunks(lines: seq<string>, budget: nat) returns (chunks: seq<seq<string>>)
    ensures IsChunking(lines, budget, chunks)
  {
    var size: nat := 0;
    var data: seq<string> := [];
    chunks := [];
    for i := 0 to |lines|
      invariant SplitLoop(lines, budget, i, chunks, data, size)
    {
      ghost var before, open := size, data;
      size := size + Utf16.Length(lines[i]);
      data := data + [lines[i]];
      if size >= budget {
        SplitClose(lines, budget, i, chunks, open, before);
        chunks := chunks + [data];
        size := 0;
        data := [];
      } else {
        SplitKeep(lines, budget, i, chunks, open, before);
      }
    }
    SplitDone(lines, budget, chunks, data, size);
    if |data| > 0 {
      chunks := chunks + [data];
    }
  }

  lemma FlattenCons(c: seq<string>, rest: seq<seq<string>>)
    ensures Flatten([c] + rest) == c + Flatten(rest)
  {
    assert ([c] + rest)[1..] == rest;
  }

  /** The first `budget`-reaching prefix length, searching from `j`, or all lines if none reaches it. */
  function FirstCut(lines: seq<string>, budget: nat, j: nat): (n: nat)
    requires 1 <= j <= |lines|
    ensures j <= n <= |lines|
    decreases |lines| - j
  {
    if j == |lines| || Weight(lines[..j]) >= budget then j else FirstCut(lines, budget, j + 1)
  }

  /** A length whose proper prefixes all stay below the budget and which reaches it (or ends the lines) is the cut. */
  lemma {:induction false} FirstCutUnique(lines: seq<string>, budget: nat, n: nat, j: nat)
    requires 1 <= j <= n <= |lines|
    requires forall m :: 0 < m < n ==> Weight(lines[..m]) < budget
    requires n == |lines| || Weight(lines[..n]) >= budget
    ensures FirstCut(lines, budget, j) == n
    decreases n - j
  {
    if j < n {
      FirstCutUnique(lines, budget, n, j + 1);
    }
  }

  /** The first chunk of any chunking ends at the cut. */
  lemma FirstChunkAtCut(lines: seq<string>, budget: nat, a: seq<seq<string>>)
    requires IsChunking(lines, budget, a) && |a| > 0
    ensures 1 <= |a[0]| <= |lines| && a[0] == lines[..|a[0]|]
    ensures |a[0]| == FirstCut(lines, budget, 1)
    ensures IsChunking(lines[|a[0]|..], budget, a[1..])
  {
    var x := a[0];
    assert a == [x] + a[1..];
    FlattenCons(x, a[1..]);
    assert lines[..|x|] == x;
    forall m | 0 < m < |x|
      ensures Weight(lines[..m]) < budget
    {
      assert lines[..m] == x[..m];
    }
    if |a| == 1 {
      assert a[1..] == [];
      assert x == lines;
    }
    FirstCutUnique(lines, budget, |x|, 1);
    assert lines[|x|..] == Flatten(a[1..]);
    forall k | 0 <= k < |a| - 1
      ensures a[1..][k] == a[k + 1]
    {
    }
  }

  /** Chunks are never empty, so there are none exactly when there are no lines. */
  lemma FlattenNonEmpty(lines: seq<string>, budget: nat, a: seq<seq<string>>)
    requires IsChunking(lines, budget, a)
    ensures a == [] <==> lines == []
  {
    if |a| > 0 {
      assert a == [a[0]] + a[1..];
      FlattenCons(a[0], a[1..]);
    }
  }

  /**
   * The description above pins the chunks down completely: two chunkings of the same lines under
   * the same budget are equal, so any loop meeting it cuts where `_SplitIntoChunks` cuts.
   */
  lemma {:induction false} ChunkingUnique(lines: seq<string>, budget: nat, a: seq<seq<string>>, b: seq<seq<string>>)
    requires IsChunking(lines, budget, a) && IsChunking(lines, budget, b)
    ensures a == b
    decreases |lines|
  {
    FlattenNonEmpty(lines, budget, a);
    FlattenNonEmpty(lines, budget, b);
    if |lines| > 0 {
      FirstChunkAtCut(lines, budget, a);
      FirstChunkAtCut(lines, budget, b);
      var n := |a[0]|;
      ChunkingUnique(lines[n..], budget, a[1..], b[1..]);
      assert a == [a[0]] + a[1..];
      assert b == [b[0]] + b[1..];
    }
  }

  /**
   * The `size` the check-before-push loop keeps for chunk `k`: chunk 0 counts all its lines, a later
   * chunk does not count its first line, whose length was added before `size` was reset.
   */
  function Counted(k: nat, c: seq<string>): nat {
    if k == 0 then Weight(c) else if |c| == 0 then 0 else Weight(c[1..])
  }

  /** Chunk `k` was closed by the first line of `next`, whose length took its count to the budget. */
  ghost predicate ClosedBy(k: nat, c: seq<string>, next: seq<string>, budget: nat) {
    |next| > 0 && Counted(k, c) + Utf16.Length(next[0]) >= budget
  }

  /** Every line a chunk counted arrived while `size` stayed below the budget. */
  ghost predicate CountedBelow(k: nat, c: seq<string>, budget: nat) {
    |c| <= (if k == 0 then 0 else 1) || Counted(k, c) < budget
  }

  /**
   * What the check-before-push loop produces: the chunks concatenate to the lines, only chunk 0 can
   * be empty and it is exactly when the first line alone reaches the budget, and a chunk closes
   * exactly when the next line's length would take its count to the budget.
   */
  ghost predicate IsLegacyChunking(lines: seq<string>, budget: nat, chunks: seq<seq<string>>) {
    && Flatten(chunks) == lines
    && (|lines| == 0 ==> chunks == [])
    && (|chunks| > 0 ==> (chunks[0] == [] <==> Utf16.Length(lines[0]) >= budget))
    && (forall k :: 1 <= k < |chunks| ==> |chunks[k]| > 0)
    && (forall k :: 0 <= k < |chunks| ==> CountedBelow(k, chunks[k], budget))
    && (forall k, k' :: 0 <= k && k' == k + 1 < |chunks| ==> ClosedBy(k, chunks[k], chunks[k'], budget))
  }

  /** The loop state of the check-before-push splitter after the first `i` lines: the lines so far are cut... */
  ghost predicate LoopCover(lines: seq<string>, i: nat, chunks: seq<seq<string>>, data: seq<string>) {
    && i <= |lines|
    && Flatten(chunks) + data == lines[..i]
    && (i == 0 <==> data == [])
    && (i == 0 ==> chunks == [])
    && (forall k :: 1 <= k < |chunks| ==> |chunks[k]| > 0)
  }

  /** ... chunk 0 is empty exactly when the first line reached the budget ... */
  ghost predicate LoopFirst(lines: seq<string>, budget: nat, i: nat, chunks: seq<seq<string>>) {
    && (|chunks| > 0 ==> |lines| > 0 && (chunks[0] == [] <==> Utf16.Length(lines[0]) >= budget))
    && (|chunks| == 0 && 0 < i <= |lines| ==> Utf16.Length(lines[0]) < budget)
  }

  /** ... every closed chunk counted below the budget and closed when the next line reached it ... */
  ghost predicate LoopClosed(budget: nat, chunks: seq<seq<string>>) {
    && (forall k :: 0 <= k < |chunks| ==> CountedBelow(k, chunks[k], budget))
    && (forall k, k' :: 0 <= k && k' == k + 1 < |chunks| ==> ClosedBy(k, chunks[k], chunks[k'], budget))
  }

  /** ... and `size` is the open chunk's count, below the budget, the line that opened it having closed the last one. */
  ghost predicate LoopOpen(budget: nat, i: nat, chunks: seq<seq<string>>, data: seq<string>, size: nat) {
    && size == Counted(|chunks|, data)
    && (i > 0 ==> CountedBelow(|chunks|, data, budget))
    && (|chunks| > 0 && |data| > 0 ==> Counted(|chunks| - 1, chunks[|chunks| - 1]) + Utf16.Length(data[0]) >= budget)
  }

  ghost predicate LegacyLoop(lines: seq<string>, budget: nat, i: nat, chunks: seq<seq<string>>, data: seq<string>, size: nat) {
    LoopCover(lines, i, chunks, data) && LoopFirst(lines, budget, i, chunks)
    && LoopClosed(budget, chunks) && LoopOpen(budget, i, chunks, data, size)
  }

  /** A line that keeps `size` below the budget joins the open chunk. */
  lemma LegacyKeep(lines: seq<string>, budget: nat, i: nat, chunks: seq<seq<string>>, data: seq<string>, size: nat)
    requires LegacyLoop(lines, budget, i, chunks, data, size) && i < |lines|
    requires size + Utf16.Length(lines[i]) < budget
    ensures LegacyLoop(lines, budget, i + 1, chunks, data + [lines[i]], size + Utf16.Length(lines[i]))
  {
    var x := lines[i];
    var k := |chunks|;
    var data' := data + [x];
    assert lines[..i + 1] == lines[..i] + [x];
    assert LoopCover(lines, i + 1, chunks, data');
    if |data| > 0 {
      assert data'[0] == data[0];
      if k == 0 {
        WeightAppend(data, x);
      } else {
        assert data'[1..] == data[1..] + [x];
        WeightAppend(data[1..], x);
      }
    } else {
      assert data' == [x];
      assert i == 0 && x == lines[0];
      assert k == 0;
      WeightAppend([], x);
    }
    assert LoopOpen(budget, i + 1, chunks, data', size + Utf16.Length(x));
  }

  /** A line that takes `size` to the budget closes the open chunk and starts the next one. */
  lemma LegacyFlush(lines: seq<string>, budget: nat, i: nat, chunks: seq<seq<string>>, data: seq<string>, size: nat)
    requires LegacyLoop(lines, budget, i, chunks, data, size) && i < |lines|
    requires size + Utf16.Length(lines[i]) >= budget
    ensures LegacyLoop(lines, budget, i + 1, chunks + [data], [lines[i]], 0)
  {
    FlushCover(lines, budget, i, chunks, data, size);
    FlushFirst(lines, budget, i, chunks, data, size);
    FlushClosed(lines, budget, i, chunks, data, size);
    FlushOpen(lines, budget, i, chunks, data, size);
  }

  lemma FlushCover(lines: seq<string>, budget: nat, i: nat, chunks: seq<seq<string>>, data: seq<string>, size: nat)
    requires LegacyLoop(lines, budget, i, chunks, data, size) && i < |lines|
    ensures LoopCover(lines, i + 1, chunks + [data], [lines[i]])
  {
    var chunks' := chunks + [data];
    assert lines[..i + 1] == lines[..i] + [lines[i]];
    FlattenSnoc(chunks, data);
    assert forall k :: 0 <= k < |chunks| ==> chunks'[k] == chunks[k];
  }

  lemma FlushFirst(lines: seq<string>, budget: nat, i: nat, chunks: seq<seq<string>>, data: seq<string>, size: nat)
    requires LegacyLoop(lines, budget, i, chunks, data, size) && i < |lines|
    requires size + Utf16.Length(lines[i]) >= budget
    ensures LoopFirst(lines, budget, i + 1, chunks + [data])
  {
    var chunks' := chunks + [data];
    assert chunks'[|chunks|] == data;
    assert |chunks| > 0 ==> chunks'[0] == chunks[0];
  }

  lemma FlushClosed(lines: seq<string>, budget: nat, i: nat, chunks: seq<seq<string>>, data: seq<string>, size: nat)
    requires LegacyLoop(lines, budget, i, chunks, data, size) && i < |lines|
    requires size + Utf16.Length(lines[i]) >= budget
    ensures LoopClosed(budget, chunks + [data])
  {
    var chunks' := chunks + [data];
    assert chunks'[|chunks|] == data;
    assert forall k :: 0 <= k < |chunks| ==> chunks'[k] == chunks[k];
  }

  lemma FlushOpen(lines: seq<string>, budget: nat, i: nat, chunks: seq<seq<string>>, data: seq<string>, size: nat)
    requires LegacyLoop(lines, budget, i, chunks, data, size) && i < |lines|
    requires size + Utf16.Length(lines[i]) >= budget
    ensures LoopOpen(budget, i + 1, chunks + [data], [lines[i]], 0)
  {
    var chunks' := chunks + [data];
    assert [lines[i]][1..] == [];
    assert chunks'[|chunks|] == data;
  }

  /** After the loop the open chunk, which holds at least the last line, is written as the last one. */
  lemma LegacyDone(lines: seq<string>, budget: nat, chunks: seq<seq<string>>, data: seq<string>, size: nat)
    requires LegacyLoop(lines, budget, |lines|, chunks, data, size)
    ensures IsLegacyChunking(lines, budget, if |data| > 0 then chunks + [data] else chunks)
  {
    assert lines[..|lines|] == lines;
    if |data| > 0 {
      FlattenAppend(chunks, [data]);
      assert Flatten([data]) == data + Flatten([]);
      var chunks' := chunks + [data];
      assert chunks'[|chunks|] == data;
      assert forall k :: 0 <= k < |chunks| ==> chunks'[k] == chunks[k];
      assert chunks'[0] == (if |chunks| == 0 then data else chunks[0]);
      assert |lines| > 0 && data[0] == (if |chunks| == 0 then lines[0] else data[0]);
    }
  }

  /** The loop of `_SplitIntoChunks` in ExternalSort.ts and ExternalSort.js. */
  method LegacySplitIntoChunks(lines: seq<string>, budget: nat) returns (chunks: seq<seq<string>>)
    ensures IsLegacyChunking(lines, budget, chunks)
  {
    var size: nat := 0;
    var data: seq<string> := [];
    chunks := [];
    for i := 0 to |lines|
      invariant LegacyLoop(lines, budget, i, chunks, data, size)
    {
      var x := lines[i];
      ghost var before := size;
      size := size + Utf16.Length(x);
      if size >= budget {
        LegacyFlush(lines, budget, i, chunks, data, before);
        chunks := chunks + [data];
        size := 0;
        data := [x]; // `data = []`, then the `push` that follows the check
      } else {
        LegacyKeep(lines, budget, i, chunks, data, before);
        data := data + [x];
      }
    }
    LegacyDone(lines, budget, chunks, data, size);
    if |data| > 0 {
      chunks := chunks + [data];
    }
  }

  /** The base name `_WriteChunkFile` gives chunk `i`: `chunk_${i}.tmp`. */
  function ChunkBase(i: nat): string {
    "chunk_" + NatToString(i) + ".tmp"
  }

  /** Different chunks get different files. */
  lemma ChunkBaseInjective(i: nat, j: nat)
    requires ChunkBase(i) == ChunkBase(j)
    ensures i == j
  {
    var a, b := NatToString(i), NatToString(j);
    assert a + ".tmp" == ChunkBase(i)[6..];
    assert b + ".tmp" == ChunkBase(j)[6..];
    assert a == (a + ".tmp")[..|a| + 4 - 4];
    assert |a| == |b|;
    assert b == (b + ".tmp")[..|b|];
    NatToStringInjective(i, j);
  }

  /**
   * `_WriteChunkFile`: sort the chunk, then write `${data.shift()}\n` until the stream asks to wait,
   * start again on 'drain', and close as soon as the array is empty. `accepts(n)` is what the
   * stream's `write` returns on its `n`-th call. On an empty array the one write is of `undefined`.
   */
  method WriteChunkFile(cmp: Comparer, data: seq<string>, accepts: nat -> bool) returns (content: string)
    ensures |data| > 0 ==> content == Serialize(SortBy(cmp, data))
    ensures |data| == 0 ==> content == "undefined\n"
  {
    var sorted := SortBy(cmp, data);
    var queue := sorted;
    content := "";
    var closed := false;
    var calls: nat := 0;
    // The first call of `write()`, then one more from each 'drain' that finds the array non-empty.
    while !closed
      invariant closed ==> queue == []
      invariant |data| > 0 ==> content + Serialize(queue) == Serialize(sorted)
      invariant |data| > 0 && !closed ==> |queue| > 0
      invariant |data| == 0 ==> queue == [] && content == (if closed then "undefined\n" else "")
      decreases |queue| + (if closed then 0 else 1)
    {
      ghost var start := |queue| + 1;
      var canWrite := true;
      while canWrite
        invariant !closed
        invariant |data| > 0 ==> content + Serialize(queue) == Serialize(sorted)
        invariant |data| > 0 ==> |queue| > 0
        invariant |data| == 0 ==> queue == [] && content == ""
        invariant canWrite || |queue| + 1 < start
        decreases |queue|
      {
        var item := if |queue| > 0 then queue[0] else "undefined";
        ghost var before := content;
        if |queue| > 0 {
          assert Serialize(queue) == queue[0] + "\n" + Serialize(queue[1..]);
          assert before + Serialize(queue) == (before + item + "\n") + Serialize(queue[1..]);
        }
        queue := if |queue| > 0 then queue[1..] else [];
        content := content + item + "\n";
        canWrite := accepts(calls);
        calls := calls + 1;
        if |queue| == 0 {
          closed := true;
          break;
        }
      }
    }
  }
}
