/**
 * One merge pass: `_MergeChunksByPointers` (src/ExternalSort.ts) and `_MergeSortedFiles`
 * (ExternalSort.ts, ExternalSort.js). Every run gets a cursor; a cursor that emits a line pushes
 * it to the frontier and pauses; a winner is chosen only when the frontier holds one line from
 * every unfinished cursor, it is written out and only its cursor resumes. A cursor is abstracted
 * to the lines it will still emit (the LineReader module proves what those are for a file), and
 * the order in which the cursors' events fire is a schedule the model quantifies over.
 */
module Merge {
  import opened Order

  /** A frontier element: a line and the index of the cursor it came from. */
  datatype Entry = Entry(line: string, reader: nat)

  /** The lines a cursor will still emit, and whether it has emitted `finish`. */
  datatype Cursor = Cursor(rest: seq<string>, finished: bool)

  /** The `finish` handler: src re-evaluates when `FilesToFinish > 0 || linesData.length > 0`, the older files when `FilesToFinish > 0`. */
  datatype Rule = CurrentRule | LegacyRule

  /** `FilesToFinish`, `linesData` and what the writer received so far. */
  datatype Pass = Pass(cursors: seq<Cursor>, frontier: seq<Entry>, filesToFinish: int, out: seq<Entry>)

  function Lines(es: seq<Entry>): (ls: seq<string>)
    ensures |ls| == |es|
  {
    if |es| == 0 then [] else Lines(es[..|es| - 1]) + [es[|es| - 1].line]
  }

  lemma {:induction false} LinesIndex(es: seq<Entry>)
    ensures forall k :: 0 <= k < |es| ==> Lines(es)[k] == es[k].line
    decreases |es|
  {
    if |es| > 0 {
      LinesIndex(es[..|es| - 1]);
    }
  }

  /** The lines in `es` that came from cursor `i`, in order. */
  function Project(es: seq<Entry>, i: nat): seq<string> {
    if |es| == 0 then []
    else Project(es[..|es| - 1], i) + (if es[|es| - 1].reader == i then [es[|es| - 1].line] else [])
  }

  lemma {:induction false} ProjectAppend(a: seq<Entry>, b: seq<Entry>, i: nat)
    ensures Project(a + b, i) == Project(a, i) + Project(b, i)
    decreases |b|
  {
    if |b| == 0 {
      assert a + b == a;
    } else {
      assert (a + b)[..|a + b| - 1] == a + b[..|b| - 1];
      ProjectAppend(a, b[..|b| - 1], i);
    }
  }

  lemma {:induction false} ProjectAbsent(es: seq<Entry>, i: nat)
    requires forall k :: 0 <= k < |es| ==> es[k].reader != i
    ensures Project(es, i) == []
    decreases |es|
  {
    if |es| > 0 {
      ProjectAbsent(es[..|es| - 1], i);
    }
  }

  lemma ProjectOne(e: Entry, i: nat)
    ensures Project([e], i) == (if e.reader == i then [e.line] else [])
  {
    assert [e][..0] == [];
  }

  /** The set of cursors with a line in the frontier. */
  function Readers(f: seq<Entry>): set<nat> {
    set k | 0 <= k < |f| :: f[k].reader
  }

  /** Cursors that have not emitted `finish`. */
  function Unfinished(cs: seq<Cursor>): set<nat> {
    set i | 0 <= i < |cs| && !cs[i].finished
  }

  ghost predicate DistinctReaders(f: seq<Entry>) {
    forall a, b :: 0 <= a < b < |f| ==> f[a].reader != f[b].reader
  }

  lemma {:induction false} DistinctReadersCount(f: seq<Entry>)
    requires DistinctReaders(f)
    ensures |Readers(f)| == |f|
    decreases |f|
  {
    if |f| > 0 {
      var g := f[..|f| - 1];
      assert DistinctReaders(g);
      DistinctReadersCount(g);
      assert Readers(f) == Readers(g) + {f[|f| - 1].reader};
      assert f[|f| - 1].reader !in Readers(g);
    }
  }

  lemma SubsetSameSize(a: set<nat>, b: set<nat>)
    requires a <= b && |a| == |b|
    ensures a == b
  {
    assert b == a + (b - a);
    assert a * (b - a) == {};
    assert |b - a| == 0;
  }

  // ---------------------------------------------------------------------------------------------
  // Choosing and writing the winner.

  /**
   * Where `linesData.sort(...)` followed by `shift()` takes its element from: the first entry
   * whose line is at most every line of the frontier.
   */
  function MinIndex(cmp: Comparer, f: seq<Entry>): (m: nat)
    requires |f| > 0
    ensures m < |f|
    ensures TotalPreorder(cmp) ==> forall k :: 0 <= k < |f| ==> Le(cmp, f[m].line, f[k].line)
    ensures TotalPreorder(cmp) ==> forall k :: 0 <= k < m ==> !Le(cmp, f[k].line, f[m].line)
    decreases |f|
  {
    if |f| == 1 then 0
    else
      var g := f[..|f| - 1];
      var b := MinIndex(cmp, g);
      assert forall k :: 0 <= k < |g| ==> g[k] == f[k];
      if Le(cmp, f[b].line, f[|f| - 1].line) then b
      else
        assert TotalPreorder(cmp) ==> forall k :: 0 <= k < |f| - 1 ==> !Le(cmp, f[k].line, f[|f| - 1].line) by {
          if TotalPreorder(cmp) {
            forall k | 0 <= k < |f| - 1 ensures !Le(cmp, f[k].line, f[|f| - 1].line) {
              assert Le(cmp, f[b].line, f[k].line);
            }
          }
        }
        |f| - 1
  }

  function Remove(f: seq<Entry>, m: nat): (g: seq<Entry>)
    requires m < |f|
    ensures |g| == |f| - 1
  {
    f[..m] + f[m + 1..]
  }

  /** `ProcessLine`: nothing unless the frontier holds as many lines as there are unfinished cursors. */
  function ProcessLine(cmp: Comparer, p: Pass): (p': Pass)
    ensures |p.frontier| != p.filesToFinish || |p.frontier| == 0 ==> p' == p
    ensures |p.frontier| == p.filesToFinish > 0 ==>
              && |p'.out| == |p.out| + 1 && p'.out[..|p.out|] == p.out
              && multiset(p'.frontier) + multiset{p'.out[|p.out|]} == multiset(p.frontier)
              && (TotalPreorder(cmp) ==> forall k :: 0 <= k < |p.frontier| ==> Le(cmp, p'.out[|p.out|].line, p.frontier[k].line))
    ensures p'.cursors == p.cursors && p'.filesToFinish == p.filesToFinish
  {
    if |p.frontier| != p.filesToFinish || |p.frontier| == 0 then p
    else
      var m := MinIndex(cmp, p.frontier);
      assert p.frontier == p.frontier[..m] + [p.frontier[m]] + p.frontier[m + 1..];
      p.(frontier := Remove(p.frontier, m), out := p.out + [p.frontier[m]])
  }

  // ---------------------------------------------------------------------------------------------
  // Cursor events.

  /** A cursor can fire an event when it is unfinished and not paused, that is, has no line in the frontier. */
  predicate Enabled(p: Pass, i: nat) {
    i < |p.cursors| && !p.cursors[i].finished && i !in Readers(p.frontier)
  }

  /** The `line` handler: push the line, pause the cursor, try to write. */
  function Push(cmp: Comparer, p: Pass, i: nat): (p': Pass)
    requires Enabled(p, i) && |p.cursors[i].rest| > 0
    ensures p'.cursors == p.cursors[i := Cursor(p.cursors[i].rest[1..], false)]
    ensures p'.filesToFinish == p.filesToFinish
    ensures |p.out| <= |p'.out| <= |p.out| + 1 && p'.out[..|p.out|] == p.out
    ensures multiset(p'.frontier) + multiset(p'.out[|p.out|..])
            == multiset(p.frontier) + multiset{Entry(p.cursors[i].rest[0], i)}
    ensures |p'.out| == |p.out| + 1 <==> |p.frontier| + 1 == p.filesToFinish
  {
    var c := p.cursors[i];
    ProcessLine(cmp, p.(cursors := p.cursors[i := Cursor(c.rest[1..], false)],
                        frontier := p.frontier + [Entry(c.rest[0], i)]))
  }

  /** Whether the `finish` handler calls `ProcessLine` after decrementing the count. */
  predicate ReEvaluates(rule: Rule, q: Pass) {
    match rule
    case CurrentRule => q.filesToFinish > 0 || |q.frontier| > 0
    case LegacyRule => q.filesToFinish > 0
  }

  /** The `finish` handler: one cursor fewer to wait for, then maybe try to write. */
  function FinishCursor(cmp: Comparer, p: Pass, i: nat, rule: Rule): (p': Pass)
    requires Enabled(p, i) && |p.cursors[i].rest| == 0
    ensures p'.cursors == p.cursors[i := Cursor([], true)]
    ensures p'.filesToFinish == p.filesToFinish - 1
    ensures |p.out| <= |p'.out| <= |p.out| + 1 && p'.out[..|p.out|] == p.out
    ensures multiset(p'.frontier) + multiset(p'.out[|p.out|..]) == multiset(p.frontier)
    ensures |p'.out| == |p.out| + 1 <==> 0 < |p.frontier| == p.filesToFinish - 1
  {
    var q := p.(cursors := p.cursors[i := Cursor([], true)], filesToFinish := p.filesToFinish - 1);
    if ReEvaluates(rule, q) then ProcessLine(cmp, q) else q
  }

  /**
   * ExternalSort.js's `ProcessLine` takes the first line of the sorted frontier with no check that
   * there is one. Both handlers reach it only with a line to take: after a push the frontier is
   * not empty, and `finish` re-evaluates only while a cursor is unfinished (or, in src, while a
   * line waits), so a frontier as long as the count is not empty.
   */
  lemma WinnerAlwaysPresent(p: Pass, i: nat, rule: Rule)
    requires Enabled(p, i)
    ensures |p.cursors[i].rest| > 0 ==> |Pushed(p, i).frontier| > 0
    ensures var q := p.(cursors := p.cursors[i := Cursor([], true)], filesToFinish := p.filesToFinish - 1);
      |p.cursors[i].rest| == 0 && ReEvaluates(rule, q) && |q.frontier| == q.filesToFinish ==> |q.frontier| > 0
  {
  }

  /** The next event of cursor `i`: its next line, or `finish` once it has none left. */
  function Step(cmp: Comparer, p: Pass, i: nat, rule: Rule): (p': Pass)
    requires Enabled(p, i)
  {
    if |p.cursors[i].rest| > 0 then Push(cmp, p, i) else FinishCursor(cmp, p, i, rule)
  }

  /** All cursors created at once, nothing emitted yet, `FilesToFinish = chunkFiles.length`. */
  function Start(runs: seq<seq<string>>): (p: Pass)
    ensures |p.cursors| == |runs| && p.frontier == [] && p.out == [] && p.filesToFinish == |runs|
  {
    Pass(seq(|runs|, i requires 0 <= i < |runs| => Cursor(runs[i], false)), [], |runs|, [])
  }

  // ---------------------------------------------------------------------------------------------
  // Invariants.

  /** Bookkeeping: indices in range, one frontier line per paused cursor, finished cursors are empty. */
  ghost predicate Shape(runs: seq<seq<string>>, p: Pass) {
    && |p.cursors| == |runs|
    && (forall k :: 0 <= k < |p.frontier| ==> p.frontier[k].reader < |runs|)
    && (forall k :: 0 <= k < |p.frontier| ==> !p.cursors[p.frontier[k].reader].finished)
    && (forall k :: 0 <= k < |p.out| ==> p.out[k].reader < |runs|)
    && DistinctReaders(p.frontier)
    && (forall i :: 0 <= i < |p.cursors| && p.cursors[i].finished ==> p.cursors[i].rest == [])
    && p.filesToFinish == |Unfinished(p.cursors)|
  }

  /** Every line of cursor `i` is exactly once written, waiting in the frontier, or still to come. */
  ghost predicate Provenance(runs: seq<seq<string>>, p: Pass) {
    |p.cursors| == |runs| &&
    forall i :: 0 <= i < |runs| ==> Project(p.out, i) + Project(p.frontier, i) + p.cursors[i].rest == runs[i]
  }

  /** The last written line is at most every line in the frontier and every line still to come. */
  ghost predicate Below(cmp: Comparer, x: string, p: Pass) {
    && (forall k :: 0 <= k < |p.frontier| ==> Le(cmp, x, p.frontier[k].line))
    && (forall i, t :: 0 <= i < |p.cursors| && 0 <= t < |p.cursors[i].rest| ==> Le(cmp, x, p.cursors[i].rest[t]))
  }

  ghost predicate RunsSorted(cmp: Comparer, runs: seq<seq<string>>) {
    TotalPreorder(cmp) && forall i :: 0 <= i < |runs| ==> Sorted(cmp, runs[i])
  }

  ghost predicate Ordered(cmp: Comparer, runs: seq<seq<string>>, p: Pass) {
    RunsSorted(cmp, runs) ==>
      AdjacentSorted(cmp, Lines(p.out)) && (|p.out| > 0 ==> Below(cmp, p.out[|p.out| - 1].line, p))
  }

  /** Between events: the frontier never holds a line from every unfinished cursor, or a winner would have been written. */
  ghost predicate Waiting(p: Pass) {
    (p.filesToFinish > 0 ==> |p.frontier| < p.filesToFinish) && (p.filesToFinish == 0 ==> p.frontier == [])
  }

  /** Inside a handler, before `ProcessLine`: the frontier may have caught up with the count. */
  ghost predicate Pending(runs: seq<seq<string>>, p: Pass) {
    Shape(runs, p) && Provenance(runs, p) && |p.frontier| <= p.filesToFinish
  }

  ghost predicate Inv(cmp: Comparer, runs: seq<seq<string>>, p: Pass) {
    Shape(runs, p) && Provenance(runs, p) && Ordered(cmp, runs, p) && Waiting(p)
  }

  lemma StartInv(cmp: Comparer, runs: seq<seq<string>>)
    ensures Inv(cmp, runs, Start(runs))
  {
    var p := Start(runs);
    assert Unfinished(p.cursors) == Range(|runs|);
    RangeSize(|runs|);
  }

  function Range(n: nat): (r: set<nat>)
    ensures forall x: nat :: x in r <==> x < n
  {
    if n == 0 then {} else Range(n - 1) + {n - 1}
  }

  lemma {:induction false} RangeSize(n: nat)
    ensures |Range(n)| == n
  {
    if n > 0 {
      RangeSize(n - 1);
    }
  }

  // ---------------------------------------------------------------------------------------------
  // Each event keeps the invariant.

  lemma RemoveIndex(f: seq<Entry>, m: nat)
    requires m < |f|
    ensures forall k :: 0 <= k < |Remove(f, m)| ==> Remove(f, m)[k] == (if k < m then f[k] else f[k + 1])
  {
    var g := Remove(f, m);
    forall k | 0 <= k < |g| ensures g[k] == (if k < m then f[k] else f[k + 1]) {
      if k < m {
        assert g[k] == f[..m][k];
      } else {
        assert g[k] == f[m + 1..][k - m];
      }
    }
  }

  /** Moving the winner from the frontier to the output keeps every cursor's written-or-waiting lines. */
  lemma PickProject(out: seq<Entry>, f: seq<Entry>, m: nat, i: nat)
    requires m < |f| && DistinctReaders(f)
    ensures Project(out + [f[m]], i) + Project(Remove(f, m), i) == Project(out, i) + Project(f, i)
  {
    var w := f[m];
    ProjectAppend(out, [w], i);
    ProjectOne(w, i);
    if w.reader == i {
      HeldProject(f, m);
      RemoveProjectHeld(f, m);
    } else {
      RemoveProjectOther(f, m, i);
    }
  }

  /** Removing a cursor's only frontier entry leaves nothing of that cursor in the frontier. */
  lemma RemoveProjectHeld(f: seq<Entry>, m: nat)
    requires m < |f| && DistinctReaders(f)
    ensures Project(Remove(f, m), f[m].reader) == []
  {
    var i := f[m].reader;
    var a, b := f[..m], f[m + 1..];
    ProjectAppend(a, b, i);
    assert forall k :: 0 <= k < |a| ==> a[k] == f[k];
    assert forall k :: 0 <= k < |b| ==> b[k] == f[m + 1 + k];
    ProjectAbsent(a, i);
    ProjectAbsent(b, i);
  }

  /** Removing another cursor's entry leaves the projection on `i` as it was. */
  lemma RemoveProjectOther(f: seq<Entry>, m: nat, i: nat)
    requires m < |f| && f[m].reader != i
    ensures Project(Remove(f, m), i) == Project(f, i)
  {
    var w := f[m];
    var a, b := f[..m], f[m + 1..];
    assert f == a + [w] + b;
    ProjectAppend(a + [w], b, i);
    ProjectAppend(a, [w], i);
    ProjectOne(w, i);
    ProjectAppend(a, b, i);
  }

  /** The line a paused cursor has in the frontier precedes everything it will still emit. */
  lemma HeldBelowRest(cmp: Comparer, runs: seq<seq<string>>, q: Pass, k: nat, t: nat)
    requires Shape(runs, q) && Provenance(runs, q) && RunsSorted(cmp, runs)
    requires k < |q.frontier| && t < |q.cursors[q.frontier[k].reader].rest|
    ensures Le(cmp, q.frontier[k].line, q.cursors[q.frontier[k].reader].rest[t])
  {
    var i := q.frontier[k].reader;
    HeldProject(q.frontier, k);
    var pre := Project(q.out, i);
    var run := runs[i];
    assert run == pre + [q.frontier[k].line] + q.cursors[i].rest;
    SortedAt(cmp, run, |pre|, |pre| + 1 + t);
  }

  /** Cursors hold at most one frontier line each, so the frontier's projection on the reader of entry `k` is that entry. */
  lemma HeldProject(f: seq<Entry>, k: nat)
    requires DistinctReaders(f) && k < |f|
    ensures Project(f, f[k].reader) == [f[k].line]
  {
    var i := f[k].reader;
    var a, b := f[..k], f[k + 1..];
    assert f == a + [f[k]] + b;
    ProjectAppend(a + [f[k]], b, i);
    ProjectAppend(a, [f[k]], i);
    ProjectOne(f[k], i);
    assert forall j :: 0 <= j < |a| ==> a[j] == f[j];
    ProjectAbsent(a, i);
    assert forall j :: 0 <= j < |b| ==> b[j] == f[k + 1 + j];
    ProjectAbsent(b, i);
  }

  lemma SortedAt(cmp: Comparer, run: seq<string>, a: nat, b: nat)
    requires Sorted(cmp, run) && a < b < |run|
    ensures Le(cmp, run[a], run[b])
  {
  }

  /** When the frontier has caught up with the count, every unfinished cursor is paused on a frontier line. */
  lemma AllHold(runs: seq<seq<string>>, q: Pass)
    requires Shape(runs, q) && |q.frontier| == q.filesToFinish
    ensures Unfinished(q.cursors) == Readers(q.frontier)
  {
    DistinctReadersCount(q.frontier);
    SubsetSameSize(Readers(q.frontier), Unfinished(q.cursors));
  }

  lemma ProcessLineInv(cmp: Comparer, runs: seq<seq<string>>, q: Pass)
    requires Pending(runs, q) && Ordered(cmp, runs, q)
    ensures Inv(cmp, runs, ProcessLine(cmp, q))
  {
    if |q.frontier| == q.filesToFinish > 0 {
      PickInv(cmp, runs, q);
    }
  }

  lemma PickInv(cmp: Comparer, runs: seq<seq<string>>, q: Pass)
    requires Pending(runs, q) && Ordered(cmp, runs, q) && |q.frontier| == q.filesToFinish > 0
    ensures Inv(cmp, runs, ProcessLine(cmp, q))
  {
    PickProvenance(cmp, runs, q);
    PickShape(cmp, runs, q);
    if RunsSorted(cmp, runs) {
      PickOrdered(cmp, runs, q);
    }
  }

  lemma PickProvenance(cmp: Comparer, runs: seq<seq<string>>, q: Pass)
    requires Pending(runs, q) && |q.frontier| == q.filesToFinish > 0
    ensures Provenance(runs, ProcessLine(cmp, q))
  {
    var f := q.frontier;
    var m := MinIndex(cmp, f);
    var p' := ProcessLine(cmp, q);
    assert p'.frontier == Remove(f, m) && p'.out == q.out + [f[m]];
    forall i | 0 <= i < |runs|
      ensures Project(p'.out, i) + Project(p'.frontier, i) + p'.cursors[i].rest == runs[i]
    {
      PickProject(q.out, f, m, i);
    }
  }

  lemma PickShape(cmp: Comparer, runs: seq<seq<string>>, q: Pass)
    requires Pending(runs, q) && |q.frontier| == q.filesToFinish > 0
    ensures Shape(runs, ProcessLine(cmp, q))
  {
    var f := q.frontier;
    var m := MinIndex(cmp, f);
    var p' := ProcessLine(cmp, q);
    assert p'.frontier == Remove(f, m) && p'.out == q.out + [f[m]];
    RemoveKeeps(f, m);
    assert forall k :: 0 <= k < |q.out| ==> p'.out[k] == q.out[k];
  }

  /** Removing an entry keeps the readers distinct and keeps only entries that were there. */
  lemma RemoveKeeps(f: seq<Entry>, m: nat)
    requires m < |f| && DistinctReaders(f)
    ensures DistinctReaders(Remove(f, m))
    ensures forall k :: 0 <= k < |Remove(f, m)| ==> Remove(f, m)[k] in f
  {
    RemoveIndex(f, m);
  }

  lemma PickOrdered(cmp: Comparer, runs: seq<seq<string>>, q: Pass)
    requires Pending(runs, q) && Ordered(cmp, runs, q) && |q.frontier| == q.filesToFinish > 0
    requires RunsSorted(cmp, runs)
    ensures Ordered(cmp, runs, ProcessLine(cmp, q))
  {
    var f := q.frontier;
    var m := MinIndex(cmp, f);
    var w := f[m];
    var p' := ProcessLine(cmp, q);
    assert p'.frontier == Remove(f, m) && p'.out == q.out + [w];
    RemoveIndex(f, m);
    assert Lines(p'.out) == Lines(q.out) + [w.line] by {
      assert p'.out[..|p'.out| - 1] == q.out;
    }
    assert AdjacentSorted(cmp, Lines(p'.out)) by {
      if |q.out| > 0 {
        LinesIndex(q.out);
        assert Le(cmp, q.out[|q.out| - 1].line, w.line);
      }
    }
    WinnerBelowRest(cmp, runs, q);
    assert Below(cmp, w.line, p');
  }

  /** The winner precedes every line still to come: each comes after a frontier line of its cursor. */
  lemma WinnerBelowRest(cmp: Comparer, runs: seq<seq<string>>, q: Pass)
    requires Pending(runs, q) && |q.frontier| == q.filesToFinish > 0
    requires RunsSorted(cmp, runs)
    ensures var w := q.frontier[MinIndex(cmp, q.frontier)];
      forall i, t :: 0 <= i < |q.cursors| && 0 <= t < |q.cursors[i].rest| ==> Le(cmp, w.line, q.cursors[i].rest[t])
  {
    var f := q.frontier;
    var w := f[MinIndex(cmp, f)];
    AllHold(runs, q);
    forall i, t | 0 <= i < |q.cursors| && 0 <= t < |q.cursors[i].rest|
      ensures Le(cmp, w.line, q.cursors[i].rest[t])
    {
      assert i in Unfinished(q.cursors);
      var k :| 0 <= k < |f| && f[k].reader == i;
      HeldBelowRest(cmp, runs, q, k, t);
      assert Le(cmp, w.line, f[k].line);
    }
  }

  /** The state inside the `line` handler, before `ProcessLine`. */
  function Pushed(p: Pass, i: nat): (q: Pass)
    requires Enabled(p, i) && |p.cursors[i].rest| > 0
    ensures |q.frontier| == |p.frontier| + 1 && q.out == p.out
  {
    var c := p.cursors[i];
    p.(cursors := p.cursors[i := Cursor(c.rest[1..], false)], frontier := p.frontier + [Entry(c.rest[0], i)])
  }

  lemma PushShape(runs: seq<seq<string>>, p: Pass, i: nat)
    requires Shape(runs, p) && Waiting(p) && Enabled(p, i) && |p.cursors[i].rest| > 0
    ensures Shape(runs, Pushed(p, i)) && |Pushed(p, i).frontier| <= Pushed(p, i).filesToFinish
  {
    var q := Pushed(p, i);
    assert i in Unfinished(p.cursors);
    assert Unfinished(q.cursors) == Unfinished(p.cursors);
    assert forall k :: 0 <= k < |p.frontier| ==> p.frontier[k].reader != i;
  }

  lemma PushProvenance(runs: seq<seq<string>>, p: Pass, i: nat)
    requires Shape(runs, p) && Provenance(runs, p) && Enabled(p, i) && |p.cursors[i].rest| > 0
    ensures Provenance(runs, Pushed(p, i))
  {
    var q := Pushed(p, i);
    forall j | 0 <= j < |runs|
      ensures Project(q.out, j) + Project(q.frontier, j) + q.cursors[j].rest == runs[j]
    {
      PushProjectAt(p, i, j);
    }
  }

  /** A push moves one line of cursor `i` from its rest to the frontier: written, waiting and to come together stay the same for every cursor. */
  lemma PushProjectAt(p: Pass, i: nat, j: nat)
    requires Enabled(p, i) && |p.cursors[i].rest| > 0 && j < |p.cursors|
    ensures var q := Pushed(p, i);
      Project(q.out, j) + Project(q.frontier, j) + q.cursors[j].rest == Project(p.out, j) + Project(p.frontier, j) + p.cursors[j].rest
  {
    var c := p.cursors[i];
    var e := Entry(c.rest[0], i);
    ProjectAppend(p.frontier, [e], j);
    ProjectOne(e, j);
    if j == i {
      assert forall k :: 0 <= k < |p.frontier| ==> p.frontier[k].reader != i;
      ProjectAbsent(p.frontier, i);
      assert c.rest == [c.rest[0]] + c.rest[1..];
    }
  }

  lemma PushOrdered(cmp: Comparer, runs: seq<seq<string>>, p: Pass, i: nat)
    requires Ordered(cmp, runs, p) && Enabled(p, i) && |p.cursors[i].rest| > 0
    ensures Ordered(cmp, runs, Pushed(p, i))
  {
    var q := Pushed(p, i);
    var c := p.cursors[i];
    if RunsSorted(cmp, runs) && |q.out| > 0 {
      var x := q.out[|q.out| - 1].line;
      forall j, t | 0 <= j < |q.cursors| && 0 <= t < |q.cursors[j].rest|
        ensures Le(cmp, x, q.cursors[j].rest[t])
      {
        if j == i {
          assert q.cursors[j].rest[t] == c.rest[t + 1];
        }
      }
      forall k | 0 <= k < |q.frontier| ensures Le(cmp, x, q.frontier[k].line) {
        if k == |p.frontier| {
          assert q.frontier[k].line == c.rest[0];
        }
      }
    }
  }

  lemma PushInv(cmp: Comparer, runs: seq<seq<string>>, p: Pass, i: nat)
    requires Inv(cmp, runs, p) && Enabled(p, i) && |p.cursors[i].rest| > 0
    ensures Inv(cmp, runs, Push(cmp, p, i))
  {
    PushShape(runs, p, i);
    PushProvenance(runs, p, i);
    PushOrdered(cmp, runs, p, i);
    ProcessLineInv(cmp, runs, Pushed(p, i));
  }

  lemma FinishPending(cmp: Comparer, runs: seq<seq<string>>, p: Pass, i: nat)
    requires Inv(cmp, runs, p) && Enabled(p, i) && |p.cursors[i].rest| == 0
    ensures var q := p.(cursors := p.cursors[i := Cursor([], true)], filesToFinish := p.filesToFinish - 1);
            Pending(runs, q) && Ordered(cmp, runs, q)
  {
    var q := p.(cursors := p.cursors[i := Cursor([], true)], filesToFinish := p.filesToFinish - 1);
    assert Unfinished(q.cursors) == Unfinished(p.cursors) - {i};
    assert i in Unfinished(p.cursors);
    assert forall k :: 0 <= k < |p.frontier| ==> p.frontier[k].reader != i;
    assert Shape(runs, q);
    assert Provenance(runs, q);
  }

  lemma FinishInv(cmp: Comparer, runs: seq<seq<string>>, p: Pass, i: nat, rule: Rule)
    requires Inv(cmp, runs, p) && Enabled(p, i) && |p.cursors[i].rest| == 0
    ensures Inv(cmp, runs, FinishCursor(cmp, p, i, rule))
  {
    var q := p.(cursors := p.cursors[i := Cursor([], true)], filesToFinish := p.filesToFinish - 1);
    FinishPending(cmp, runs, p, i);
    ProcessLineInv(cmp, runs, q);
  }

  /** Every event, under either `finish` rule, keeps the invariant. */
  lemma StepInv(cmp: Comparer, runs: seq<seq<string>>, p: Pass, i: nat, rule: Rule)
    requires Inv(cmp, runs, p) && Enabled(p, i)
    ensures Inv(cmp, runs, Step(cmp, p, i, rule))
  {
    if |p.cursors[i].rest| > 0 {
      PushInv(cmp, runs, p, i);
    } else {
      FinishInv(cmp, runs, p, i, rule);
    }
  }

  /**
   * The extra `linesData.length > 0` test of src/ExternalSort.ts changes nothing: when the count
   * reaches zero the frontier is already empty, so both `finish` handlers act alike.
   */
  lemma FinishRulesAgree(cmp: Comparer, runs: seq<seq<string>>, p: Pass, i: nat)
    requires Inv(cmp, runs, p) && Enabled(p, i)
    ensures Step(cmp, p, i, CurrentRule) == Step(cmp, p, i, LegacyRule)
  {
    if |p.cursors[i].rest| == 0 {
      FinishPending(cmp, runs, p, i);
    }
  }

  // ---------------------------------------------------------------------------------------------
  // Any schedule, and the result of a pass.

  /** Fire the listed cursors' events in order, skipping those that cannot fire at that moment. */
  function Exec(cmp: Comparer, p: Pass, schedule: seq<nat>, rule: Rule): Pass
    decreases |schedule|
  {
    if |schedule| == 0 then p
    else
      var p1 := if Enabled(p, schedule[0]) then Step(cmp, p, schedule[0], rule) else p;
      Exec(cmp, p1, schedule[1..], rule)
  }

  /** Whatever order the events fire in, the invariant holds after each of them. */
  lemma {:induction false} ExecInv(cmp: Comparer, runs: seq<seq<string>>, p: Pass, schedule: seq<nat>, rule: Rule)
    requires Inv(cmp, runs, p)
    ensures Inv(cmp, runs, Exec(cmp, p, schedule, rule))
    decreases |schedule|
  {
    if |schedule| > 0 {
      if Enabled(p, schedule[0]) {
        StepInv(cmp, runs, p, schedule[0], rule);
      }
      var p1 := if Enabled(p, schedule[0]) then Step(cmp, p, schedule[0], rule) else p;
      ExecInv(cmp, runs, p1, schedule[1..], rule);
    }
  }

  /** No cursor can fire: every one is finished or paused on a frontier line. */
  predicate Quiet(p: Pass) {
    forall i :: 0 <= i < |p.cursors| ==> !Enabled(p, i)
  }

  /** Cursor `i`'s contribution to a multiset union over cursors `0 .. n-1`. */
  function SumProjections(es: seq<Entry>, n: nat): multiset<string> {
    if n == 0 then multiset{} else SumProjections(es, n - 1) + multiset(Project(es, n - 1))
  }

  lemma ProjectSnoc(es: seq<Entry>, e: Entry, i: nat)
    ensures Project(es + [e], i) == Project(es, i) + (if e.reader == i then [e.line] else [])
  {
    assert (es + [e])[..|es|] == es;
  }

  lemma ProjectSnocCount(es: seq<Entry>, e: Entry, i: nat)
    ensures multiset(Project(es + [e], i)) == multiset(Project(es, i)) + (if e.reader == i then multiset{e.line} else multiset{})
  {
    ProjectSnoc(es, e, i);
  }

  lemma Regroup(a: multiset<string>, b: multiset<string>, c: multiset<string>, d: multiset<string>)
    ensures (a + b) + (c + d) == (a + c) + (b + d)
  {
  }

  lemma {:induction false} SumProjectionsAppend(es: seq<Entry>, e: Entry, n: nat)
    ensures SumProjections(es + [e], n)
         == SumProjections(es, n) + (if e.reader < n then multiset{e.line} else multiset{})
  {
    if n > 0 {
      var x: multiset<string> := if e.reader == n - 1 then multiset{e.line} else multiset{};
      var y: multiset<string> := if e.reader < n - 1 then multiset{e.line} else multiset{};
      SumProjectionsAppend(es, e, n - 1);
      ProjectSnocCount(es, e, n - 1);
      Regroup(SumProjections(es, n - 1), y, multiset(Project(es, n - 1)), x);
      assert y + x == (if e.reader < n then multiset{e.line} else multiset{});
    }
  }

  /** Splitting the written lines by cursor loses none and invents none. */
  lemma {:induction false} LinesAreProjections(es: seq<Entry>, n: nat)
    requires forall k :: 0 <= k < |es| ==> es[k].reader < n
    ensures multiset(Lines(es)) == SumProjections(es, n)
    decreases |es|
  {
    if |es| == 0 {
      if n > 0 {
        ZeroProjections(n);
      }
    } else {
      var g := es[..|es| - 1];
      LinesAreProjections(g, n);
      SumProjectionsAppend(g, es[|es| - 1], n);
      assert es == g + [es[|es| - 1]];
    }
  }

  lemma {:induction false} ZeroProjections(n: nat)
    ensures SumProjections([], n) == multiset{}
  {
    if n > 0 {
      ZeroProjections(n - 1);
    }
  }

  lemma {:induction false} ProjectionsAreRuns(es: seq<Entry>, runs: seq<seq<string>>, n: nat)
    requires n <= |runs|
    requires forall i :: 0 <= i < n ==> Project(es, i) == runs[i]
    ensures SumProjections(es, n) == multiset(Flatten(runs[..n]))
  {
    if n == 0 {
    } else {
      ProjectionsAreRuns(es, runs, n - 1);
      FlattenTake(runs, n);
      assert multiset(Flatten(runs[..n])) == multiset(Flatten(runs[..n - 1])) + multiset(runs[n - 1]);
    }
  }

  /**
   * When no cursor can fire, the pass is over: every cursor finished, the frontier is empty, each
   * run appears in the output with its lines in their original order, the output is a
   * permutation of all runs' lines, and it is sorted when every run is.
   */
  lemma QuietComplete(cmp: Comparer, runs: seq<seq<string>>, p: Pass)
    requires Inv(cmp, runs, p) && Quiet(p)
    ensures p.frontier == [] && p.filesToFinish == 0
    ensures forall i :: 0 <= i < |p.cursors| ==> p.cursors[i].finished
    ensures forall i :: 0 <= i < |runs| ==> Project(p.out, i) == runs[i]
    ensures multiset(Lines(p.out)) == multiset(Flatten(runs))
    ensures RunsSorted(cmp, runs) ==> Sorted(cmp, Lines(p.out))
  {
    QuietDrained(cmp, runs, p);
    DrainedOutput(runs, p);
    if RunsSorted(cmp, runs) {
      AdjacentSortedIsSorted(cmp, Lines(p.out));
    }
  }

  lemma DrainedOutput(runs: seq<seq<string>>, p: Pass)
    requires Shape(runs, p) && Provenance(runs, p) && p.frontier == []
    requires forall i :: 0 <= i < |p.cursors| ==> p.cursors[i].finished
    ensures forall i :: 0 <= i < |runs| ==> Project(p.out, i) == runs[i]
    ensures multiset(Lines(p.out)) == multiset(Flatten(runs))
  {
    forall i | 0 <= i < |runs|
      ensures Project(p.out, i) == runs[i]
    {
      DrainedAt(runs, p, i);
    }
    OutputCount(runs, p.out);
  }

  /** An output whose projections are the runs holds exactly the runs' lines. */
  lemma OutputCount(runs: seq<seq<string>>, out: seq<Entry>)
    requires forall k :: 0 <= k < |out| ==> out[k].reader < |runs|
    requires forall i :: 0 <= i < |runs| ==> Project(out, i) == runs[i]
    ensures multiset(Lines(out)) == multiset(Flatten(runs))
  {
    LinesAreProjections(out, |runs|);
    ProjectionsAreRuns(out, runs, |runs|);
    assert runs[..|runs|] == runs;
  }

  lemma DrainedAt(runs: seq<seq<string>>, p: Pass, i: nat)
    requires Provenance(runs, p) && p.frontier == [] && i < |runs|
    requires p.cursors[i].rest == []
    ensures Project(p.out, i) == runs[i]
  {
    assert Project(p.frontier, i) == [];
    assert Project(p.out, i) + Project(p.frontier, i) + p.cursors[i].rest == runs[i];
  }

  lemma QuietDrained(cmp: Comparer, runs: seq<seq<string>>, p: Pass)
    requires Inv(cmp, runs, p) && Quiet(p)
    ensures p.frontier == [] && p.filesToFinish == 0
    ensures forall i :: 0 <= i < |p.cursors| ==> p.cursors[i].finished
  {
    forall i | i in Unfinished(p.cursors) ensures i in Readers(p.frontier) {
      assert !Enabled(p, i);
    }
    assert Readers(p.frontier) <= Unfinished(p.cursors);
    assert Unfinished(p.cursors) == Readers(p.frontier);
    DistinctReadersCount(p.frontier);
    assert |p.frontier| == p.filesToFinish;
    assert p.filesToFinish == 0;
    forall i | 0 <= i < |p.cursors| ensures p.cursors[i].finished {
      assert i !in Unfinished(p.cursors);
    }
  }

  function TotalRest(cs: seq<Cursor>): nat {
    if |cs| == 0 then 0 else TotalRest(cs[..|cs| - 1]) + |cs[|cs| - 1].rest|
  }

  lemma {:induction false} TotalRestUpdate(cs: seq<Cursor>, i: nat, c: Cursor)
    requires i < |cs|
    ensures TotalRest(cs[i := c]) + |cs[i].rest| == TotalRest(cs) + |c.rest|
    decreases |cs|
  {
    var n := |cs| - 1;
    if i < n {
      assert cs[i := c][..n] == cs[..n][i := c];
      TotalRestUpdate(cs[..n], i, c);
    } else {
      assert cs[i := c][..n] == cs[..n];
    }
  }

  /** The first cursor at or after `k` that can fire, or `|p.cursors|` when none can. */
  function FirstEnabled(p: Pass, k: nat): (i: nat)
    requires k <= |p.cursors|
    ensures k <= i <= |p.cursors|
    ensures i < |p.cursors| ==> Enabled(p, i)
    ensures forall j :: k <= j < i ==> !Enabled(p, j)
    decreases |p.cursors| - k
  {
    if k == |p.cursors| || Enabled(p, k) then k else FirstEnabled(p, k + 1)
  }

  /** Run a pass to the end, letting the lowest-numbered cursor that can fire go first. */
  function Drive(cmp: Comparer, runs: seq<seq<string>>, p: Pass, rule: Rule): (d: Pass)
    requires Inv(cmp, runs, p)
    ensures Inv(cmp, runs, d) && Quiet(d)
    decreases TotalRest(p.cursors) + p.filesToFinish
  {
    var i := FirstEnabled(p, 0);
    if i == |p.cursors| then p
    else
      StepInv(cmp, runs, p, i, rule);
      var p' := Step(cmp, p, i, rule);
      assert TotalRest(p'.cursors) + p'.filesToFinish < TotalRest(p.cursors) + p.filesToFinish by {
        var c := p.cursors[i];
        if |c.rest| > 0 {
          TotalRestUpdate(p.cursors, i, Cursor(c.rest[1..], false));
        } else {
          TotalRestUpdate(p.cursors, i, Cursor([], true));
        }
      }
      Drive(cmp, runs, p', rule)
  }

  /** One merge pass over `runs`: the written lines, each tagged with the run it came from. */
  function MergeEntries(cmp: Comparer, runs: seq<seq<string>>, rule: Rule): (out: seq<Entry>)
    ensures forall k :: 0 <= k < |out| ==> out[k].reader < |runs|
    ensures forall i :: 0 <= i < |runs| ==> Project(out, i) == runs[i]
    ensures multiset(Lines(out)) == multiset(Flatten(runs))
    ensures RunsSorted(cmp, runs) ==> Sorted(cmp, Lines(out))
  {
    StartInv(cmp, runs);
    var d := Drive(cmp, runs, Start(runs), rule);
    QuietComplete(cmp, runs, d);
    d.out
  }

  /** The lines one merge pass writes, in order. */
  function MergeRuns(cmp: Comparer, runs: seq<seq<string>>, rule: Rule): (out: seq<string>)
    ensures multiset(out) == multiset(Flatten(runs))
    ensures RunsSorted(cmp, runs) ==> Sorted(cmp, out)
  {
    Lines(MergeEntries(cmp, runs, rule))
  }

  /**
   * With a comparator under which equivalent lines are equal (ordinal mode), merging sorted runs
   * writes exactly the sorted concatenation of the runs, whatever the schedule.
   */
  lemma MergeIsSort(cmp: Comparer, runs: seq<seq<string>>, p: Pass)
    requires RunsSorted(cmp, runs) && Antisymmetric(cmp)
    requires Inv(cmp, runs, p) && Quiet(p)
    ensures Lines(p.out) == SortBy(cmp, Flatten(runs))
  {
    QuietComplete(cmp, runs, p);
    SortedUnique(cmp, Lines(p.out), SortBy(cmp, Flatten(runs)));
  }

  /** Entries that all come from cursor `i` project to all their lines. */
  lemma {:induction false} ProjectOnly(es: seq<Entry>, i: nat)
    requires forall k :: 0 <= k < |es| ==> es[k].reader == i
    ensures Project(es, i) == Lines(es)
    decreases |es|
  {
    if |es| > 0 {
      ProjectOnly(es[..|es| - 1], i);
    }
  }

  /** A pass over a single file copies it: its lines come out in the file's order, sorted or not. */
  lemma MergeSingle(cmp: Comparer, run: seq<string>, rule: Rule)
    ensures MergeRuns(cmp, [run], rule) == run
  {
    var out := MergeEntries(cmp, [run], rule);
    ProjectOnly(out, 0);
  }
}
