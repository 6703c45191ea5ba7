/**
 * The line cursor `LineReader` (src/LineReader.ts) and its older variant (LineReader.js) as an
 * explicit state machine. Stream callbacks become transition functions, the underlying read
 * stream becomes a list of already-decoded data arrivals, and every `setImmediate(() => next())`
 * becomes a `Next` step the scheduler may take at any time.
 */
module LineReader {
  import opened Order
  import opened LineSplit
  import Strings

  /** What the cursor emits. */
  datatype Event = Line(text: string) | Finish | End

  /** Which file's behaviour a transition follows: src/LineReader.ts or the older LineReader.js. */
  datatype Variant = Current | Legacy

  /** The cursor's fields; `sourcePaused` and `destroyed` are the state of its read stream. */
  datatype Reader = Reader(
    filterEmpty: bool,
    lines: seq<string>,
    fragment: string,
    paused: bool,
    ended: bool,
    finished: bool,
    sourcePaused: bool,
    destroyed: bool,
    events: seq<Event>)

  /** The constructor: empty queue and fragment, all flags cleared, the stream flowing. */
  function Create(filterEmpty: bool): Reader {
    Reader(filterEmpty, [], "", false, false, false, false, false, [])
  }

  /** The complete lines of a data arrival and the text retained after its last break. */
  datatype Arrival = Arrival(complete: seq<string>, fragment: string)

  /** Split the arrival on `/\r?\n/`, glue the old fragment to the first part, pop the last part. */
  function Arrive(fragment: string, chunk: string): (a: Arrival)
    ensures NoLF(fragment) ==> NoLF(a.fragment)
    ensures NoLF(fragment) && !(EndsWithCR(fragment) && StartsWithLF(chunk))
            ==> a.complete + [a.fragment] == SplitLines(fragment + chunk)
  {
    var glued := Glue(fragment, chunk);
    GlueSplits(fragment, chunk);
    Arrival(Init(glued), Last(glued))
  }

  /** The parts of the arrival, the old fragment glued to the first. */
  function Glue(fragment: string, chunk: string): (glued: seq<string>)
    ensures |glued| > 0
  {
    var parts := SplitLines(chunk);
    parts[0 := fragment + parts[0]]
  }

  /** Gluing is splitting the joined text, unless the glue point falls inside a `\r\n`. */
  lemma GlueSplits(fragment: string, chunk: string)
    ensures var glued := Glue(fragment, chunk);
      && (NoLF(fragment) ==> NoLF(Last(glued)))
      && (NoLF(fragment) && !(EndsWithCR(fragment) && StartsWithLF(chunk))
          ==> Init(glued) + [Last(glued)] == SplitLines(fragment + chunk))
  {
    if NoLF(fragment) {
      GlueNoLF(fragment, chunk);
      if !(EndsWithCR(fragment) && StartsWithLF(chunk)) {
        GlueSplit(fragment, chunk);
      }
    }
  }

  lemma GlueNoLF(fragment: string, chunk: string)
    requires NoLF(fragment)
    ensures NoLF(Last(Glue(fragment, chunk)))
  {
    var parts := SplitLines(chunk);
    if |parts| == 1 {
      var l := fragment + parts[0];
      assert Last(Glue(fragment, chunk)) == l;
      assert NoLF(parts[0]);
      forall i | 0 <= i < |l|
        ensures l[i] != '\n'
      {
        if i < |fragment| {
          assert l[i] == fragment[i];
        } else {
          assert l[i] == parts[0][i - |fragment|];
        }
      }
    } else {
      assert Last(Glue(fragment, chunk)) == parts[|parts| - 1];
    }
  }

  lemma GlueSplit(fragment: string, chunk: string)
    requires NoLF(fragment) && !(EndsWithCR(fragment) && StartsWithLF(chunk))
    ensures var glued := Glue(fragment, chunk); Init(glued) + [Last(glued)] == SplitLines(fragment + chunk)
  {
    var glued := Glue(fragment, chunk);
    var parts := SplitLines(chunk);
    SplitPrepend(fragment, chunk);
    assert glued == [fragment + parts[0]] + parts[1..];
    assert Init(glued) + [Last(glued)] == glued;
  }

  /** Without '\r', the complete lines and the fragment rejoin to exactly the old fragment followed by the arrival. */
  lemma ArriveRoundTrip(fragment: string, chunk: string)
    requires NoLF(fragment)
    requires forall i :: 0 <= i < |fragment + chunk| ==> (fragment + chunk)[i] != '\r'
    ensures var a := Arrive(fragment, chunk); JoinLines(a.complete + [a.fragment]) == fragment + chunk
  {
    Strings.ConcatIndex(fragment, chunk);
    JoinSplit(fragment + chunk);
  }

  /** `lines.filter((l) => l.length > 0)` when `filterEmpty` is set. */
  function Keep(filterEmpty: bool, ls: seq<string>): (r: seq<string>)
    ensures filterEmpty ==> forall k :: 0 <= k < |r| ==> |r[k]| > 0
  {
    if filterEmpty then NonEmpty(ls) else ls
  }

  lemma KeepAppend(filterEmpty: bool, a: seq<string>, b: seq<string>)
    ensures Keep(filterEmpty, a + b) == Keep(filterEmpty, a) + Keep(filterEmpty, b)
  {
    if filterEmpty {
      NonEmptyAppend(a, b);
    }
  }

  /** The `data` handler (src/LineReader.ts): pause the source, split, filter the complete lines only. */
  function OnData(r: Reader, chunk: string): (r': Reader)
    ensures r'.sourcePaused && (NoLF(r.fragment) ==> NoLF(r'.fragment))
    ensures r'.filterEmpty ==> forall k :: 0 <= k < |r'.lines| ==> |r'.lines[k]| > 0
    ensures NoLF(r.fragment) && !(EndsWithCR(r.fragment) && StartsWithLF(chunk)) ==>
      && r'.lines == Keep(r.filterEmpty, Init(SplitLines(r.fragment + chunk)))
      && r'.fragment == Last(SplitLines(r.fragment + chunk))
    ensures r'.(lines := r.lines, fragment := r.fragment, sourcePaused := r.sourcePaused) == r
  {
    var a := Arrive(r.fragment, chunk);
    r.(sourcePaused := true, lines := Keep(r.filterEmpty, a.complete), fragment := a.fragment)
  }

  /** The `data` handler of LineReader.js: the filter's result is thrown away, so nothing is filtered. */
  function LegacyOnData(r: Reader, chunk: string): (r': Reader)
    ensures r'.sourcePaused && (NoLF(r.fragment) ==> NoLF(r'.fragment))
    ensures NoLF(r.fragment) && !(EndsWithCR(r.fragment) && StartsWithLF(chunk)) ==>
      && r'.lines == Init(SplitLines(r.fragment + chunk))
      && r'.fragment == Last(SplitLines(r.fragment + chunk))
    ensures r'.(lines := r.lines, fragment := r.fragment, sourcePaused := r.sourcePaused) == r
  {
    var a := Arrive(r.fragment, chunk);
    r.(sourcePaused := true, lines := a.complete, fragment := a.fragment)
  }

  /** `close()`: destroy the source, mark the input ended and drop the queue. */
  function Close(r: Reader): (r': Reader)
    ensures r'.ended && r'.destroyed && r'.lines == []
    ensures r'.events == r.events && r'.fragment == r.fragment && r'.finished == r.finished
  {
    r.(destroyed := true, ended := true, lines := [])
  }

  /** `close()` in LineReader.js assigns `this._lines`, a field nothing reads, so the queue survives. */
  function LegacyClose(r: Reader): (r': Reader)
    ensures r'.ended && r'.destroyed && r'.lines == r.lines
    ensures r'.events == r.events && r'.fragment == r.fragment && r'.finished == r.finished
  {
    r.(destroyed := true, ended := true)
  }

  /** `_finish()`: emit `finish` and close, unless already finished. */
  function FinishOnce(r: Reader, v: Variant): (r': Reader)
    ensures r'.finished && r'.fragment == r.fragment
    ensures r.finished ==> r' == r
    ensures !r.finished ==> r'.events == r.events + [Finish] && r'.ended && r'.destroyed
    ensures !r.finished && v == Current ==> r'.lines == []
    ensures !r.finished && v == Legacy ==> r'.lines == r.lines
  {
    if r.finished then r
    else
      var r1 := r.(finished := true, events := r.events + [Finish]);
      if v == Current then Close(r1) else LegacyClose(r1)
  }

  /** The `end` handler (src/LineReader.ts): finish at once only when nothing at all is left. */
  function OnEnd(r: Reader): (r': Reader)
    ensures r'.ended && r'.fragment == r.fragment
    ensures r'.finished <==> r.finished || (|r.lines| == 0 && r.fragment == "")
    ensures r.events <= r'.events && |r'.events| > 0 && r'.events[|r'.events| - 1] == End
  {
    var r1 := if |r.lines| == 0 && r.fragment == "" then FinishOnce(r, Current) else r;
    r1.(ended := true, events := r1.events + [End])
  }

  /** The `end` handler of LineReader.js: finishes whenever the queue is empty, even with a fragment left. */
  function LegacyOnEnd(r: Reader): (r': Reader)
    ensures r'.ended && r'.fragment == r.fragment
    ensures r'.finished <==> r.finished || |r.lines| == 0
    ensures r.events <= r'.events && |r'.events| > 0 && r'.events[|r'.events| - 1] == End
  {
    var r1 := if |r.lines| == 0 then FinishOnce(r, Legacy) else r;
    r1.(ended := true, events := r1.events + [End])
  }

  /** `next()`: nothing while paused; otherwise the queue head, or at the end the fragment, or `finish`; else re-arm the source. */
  function Next(r: Reader, v: Variant): (r': Reader)
    ensures r.paused ==> r' == r
    ensures !r.paused && |r.lines| > 0 ==> r'.events == r.events + [Line(r.lines[0])] && r'.lines == r.lines[1..]
    ensures !r.paused && |r.lines| == 0 && !r.ended ==> r' == r.(sourcePaused := false)
    ensures !r.paused && |r.lines| == 0 && r.ended && r.fragment != ""
            ==> r'.events == r.events + [Line(r.fragment)] && r'.fragment == "" && !r'.finished == !r.finished
    ensures !r.paused && |r.lines| == 0 && r.ended && r.fragment == "" ==> r'.finished && r'.lines == []
    ensures r.events <= r'.events
  {
    if r.paused then r
    else if |r.lines| == 0 then
      if r.ended then
        if r.fragment != "" then r.(events := r.events + [Line(r.fragment)], fragment := "")
        else FinishOnce(r, v)
      else r.(sourcePaused := false)
    else r.(events := r.events + [Line(r.lines[0])], lines := r.lines[1..])
  }

  /** `pause()`. */
  function Pause(r: Reader): (r': Reader)
    ensures r'.paused
    ensures r'.(paused := r.paused) == r
  {
    r.(paused := true)
  }

  /** `resume()`: clear the flag; the `next` it schedules is a separate step. */
  function Resume(r: Reader): (r': Reader)
    ensures !r'.paused
    ensures r'.(paused := r.paused) == r
  {
    r.(paused := false)
  }

  /** The public `end()`: emit `end` only if the input has not ended yet. */
  function EndCall(r: Reader): (r': Reader)
    ensures r'.ended
    ensures r.ended ==> r' == r
    ensures !r.ended ==> r'.events == r.events + [End]
  {
    if r.ended then r else r.(ended := true, events := r.events + [End])
  }

  /** Calling `end()` twice emits `end` at most once. */
  lemma EndCallIdempotent(r: Reader)
    ensures EndCall(EndCall(r)) == EndCall(r)
    ensures |EndCall(EndCall(r)).events| <= |r.events| + 1
  {
  }

  // ---------------------------------------------------------------------------------------------
  // The cursor together with its read stream.

  /** The read stream: data arrivals not yet delivered, and whether `end` was delivered. */
  datatype Source = Source(pending: seq<string>, endSent: bool)

  datatype Cursor = Cursor(reader: Reader, source: Source)

  /** The stream events and the calls the merge driver makes. */
  datatype Step = DataStep | EndStep | NextStep | PauseStep | ResumeStep

  /** A flowing, undestroyed stream delivers its next arrival, or `end` once nothing is left. */
  predicate Enabled(c: Cursor, step: Step) {
    match step
    case DataStep => !c.reader.sourcePaused && !c.reader.destroyed && |c.source.pending| > 0
    case EndStep => !c.reader.sourcePaused && !c.reader.destroyed && |c.source.pending| == 0 && !c.source.endSent
    case _ => true
  }

  /**
   * One step. The stream hands over each arrival once, in order, and `end` once; the cursor's
   * history of events only grows.
   */
  function Apply(c: Cursor, step: Step, v: Variant): (d: Cursor)
    requires Enabled(c, step)
    ensures d.source.pending == if step == DataStep then c.source.pending[1..] else c.source.pending
    ensures d.source.endSent <==> c.source.endSent || step == EndStep
    ensures d.reader.filterEmpty == c.reader.filterEmpty
    ensures c.reader.events <= d.reader.events
  {
    match step
    case DataStep =>
      var r := if v == Current then OnData(c.reader, c.source.pending[0])
               else LegacyOnData(c.reader, c.source.pending[0]);
      Cursor(r, c.source.(pending := c.source.pending[1..]))
    case EndStep =>
      var r := if v == Current then OnEnd(c.reader) else LegacyOnEnd(c.reader);
      Cursor(r, c.source.(endSent := true))
    case NextStep => Cursor(Next(c.reader, v), c.source)
    case PauseStep => Cursor(Pause(c.reader), c.source)
    case ResumeStep => Cursor(Resume(c.reader), c.source)
  }

  /** A fresh cursor over a file read as the given data arrivals. */
  function Start(arrivals: seq<string>, filterEmpty: bool): Cursor {
    Cursor(Create(filterEmpty), Source(arrivals, false))
  }

  function Concat(chunks: seq<string>): string {
    if |chunks| == 0 then "" else chunks[0] + Concat(chunks[1..])
  }

  /**
   * Read buffers are never empty and no boundary between two of them falls right after a '\r'
   * (a "\r\n" split across two buffers would leave the '\r' on the line).
   */
  ghost predicate ArrivalsOk(chunks: seq<string>) {
    forall k :: 0 <= k < |chunks| ==> |chunks[k]| > 0 && (k + 1 < |chunks| ==> !EndsWithCR(chunks[k]))
  }

  function CountFinish(events: seq<Event>): nat {
    if |events| == 0 then 0
    else CountFinish(events[..|events| - 1]) + (if events[|events| - 1] == Finish then 1 else 0)
  }

  ghost predicate NoLineAfterFinish(events: seq<Event>) {
    forall i, j :: 0 <= i < j < |events| && events[i] == Finish ==> !events[j].Line?
  }

  /** The texts of the `line` events, in order. */
  function Emitted(events: seq<Event>): seq<string> {
    if |events| == 0 then []
    else Emitted(events[..|events| - 1])
         + (if events[|events| - 1].Line? then [events[|events| - 1].text] else [])
  }

  lemma EmittedAppend(events: seq<Event>, e: Event)
    ensures Emitted(events + [e]) == Emitted(events) + (if e.Line? then [e.text] else [])
    ensures CountFinish(events + [e]) == CountFinish(events) + (if e == Finish then 1 else 0)
  {
    assert (events + [e])[..|events|] == events;
  }

  /** The invariants both variants keep: backpressure, a break-free fragment, at most one `finish`. */
  ghost predicate Basic(c: Cursor) {
    var r := c.reader;
    && NoLF(r.fragment)
    && (!r.sourcePaused ==> r.lines == [])
    && CountFinish(r.events) == (if r.finished then 1 else 0)
    && (r.ended <==> c.source.endSent)
    && (r.ended ==> c.source.pending == [])
    && (r.destroyed ==> r.finished)
    && (r.finished ==> r.ended)
    && ArrivalsOk(c.source.pending)
    && (EndsWithCR(r.fragment) ==> c.source.pending == [])
  }

  lemma {:induction false} LastPartEnd(s: string)
    requires |Last(SplitLines(s))| > 0
    ensures |s| > 0 && s[|s| - 1] == Last(SplitLines(s))[|Last(SplitLines(s))| - 1]
    decreases |s|
  {
    var ps := SplitLines(s);
    if |s| > 0 && s[0] == '\n' {
      assert ps == [""] + SplitLines(s[1..]);
      assert Last(ps) == Last(SplitLines(s[1..]));
      LastPartEnd(s[1..]);
    } else if |s| >= 2 && s[0] == '\r' && s[1] == '\n' {
      assert ps == [""] + SplitLines(s[2..]);
      assert Last(ps) == Last(SplitLines(s[2..]));
      LastPartEnd(s[2..]);
    } else if |s| > 0 {
      var q := SplitLines(s[1..]);
      assert ps == Cons(s[0], q);
      if |q| == 1 {
        SingleSplit(s[1..]);
        assert Last(ps) == [s[0]] + s[1..];
        assert s == [s[0]] + s[1..];
      } else {
        assert Last(ps) == Last(q);
        LastPartEnd(s[1..]);
      }
    }
  }

  lemma ArrivalsTail(chunks: seq<string>)
    requires ArrivalsOk(chunks) && |chunks| > 0
    ensures ArrivalsOk(chunks[1..])
  {
    forall k | 0 <= k < |chunks| - 1
      ensures |chunks[1..][k]| > 0 && (k + 1 < |chunks| - 1 ==> !EndsWithCR(chunks[1..][k]))
    {
      assert chunks[1..][k] == chunks[k + 1];
    }
  }

  /** The new fragment ends with '\r' only after the last arrival. */
  lemma DataFragmentEnd(c: Cursor)
    requires Basic(c) && Enabled(c, DataStep)
    ensures EndsWithCR(Arrive(c.reader.fragment, c.source.pending[0]).fragment) ==> |c.source.pending| == 1
  {
    var d := c.source.pending[0];
    var f := Arrive(c.reader.fragment, d).fragment;
    if EndsWithCR(f) {
      assert !EndsWithCR(c.reader.fragment);
      assert f == Last(SplitLines(c.reader.fragment + d));
      LastPartEnd(c.reader.fragment + d);
      assert (c.reader.fragment + d)[|c.reader.fragment + d| - 1] == d[|d| - 1];
      assert EndsWithCR(d);
    }
  }

  /** Every transition of either variant keeps the cursor's basic invariants. */
  lemma BasicStep(c: Cursor, step: Step, v: Variant)
    requires Basic(c) && Enabled(c, step)
    ensures Basic(Apply(c, step, v))
  {
    match step
    case DataStep =>
      ArrivalsTail(c.source.pending);
      DataFragmentEnd(c);
    case EndStep => BasicEnd(c, v);
    case NextStep => BasicNext(c, v);
    case PauseStep =>
    case ResumeStep =>
  }

  lemma BasicEnd(c: Cursor, v: Variant)
    requires Basic(c) && Enabled(c, EndStep)
    ensures Basic(Apply(c, EndStep, v))
  {
    var r := c.reader;
    if (if v == Current then |r.lines| == 0 && r.fragment == "" && !r.finished else |r.lines| == 0 && !r.finished) {
      EmittedAppend(r.events, Finish);
      EmittedAppend(r.events + [Finish], End);
    } else {
      EmittedAppend(r.events, End);
    }
  }

  lemma BasicNext(c: Cursor, v: Variant)
    requires Basic(c) && Enabled(c, NextStep)
    ensures Basic(Apply(c, NextStep, v))
  {
    var r := c.reader;
    if !r.paused {
      if |r.lines| > 0 {
        BasicNextLine(c, v);
      } else if r.ended && r.fragment != "" {
        BasicNextFragment(c, v);
      } else if r.ended && !r.finished {
        BasicNextFinish(c, v);
      }
    }
  }

  lemma BasicNextLine(c: Cursor, v: Variant)
    requires Basic(c) && !c.reader.paused && |c.reader.lines| > 0
    ensures Basic(Cursor(Next(c.reader, v), c.source))
  {
    EmittedAppend(c.reader.events, Line(c.reader.lines[0]));
  }

  lemma BasicNextFragment(c: Cursor, v: Variant)
    requires Basic(c) && !c.reader.paused && |c.reader.lines| == 0 && c.reader.ended && c.reader.fragment != ""
    ensures Basic(Cursor(Next(c.reader, v), c.source))
  {
    EmittedAppend(c.reader.events, Line(c.reader.fragment));
  }

  lemma BasicNextFinish(c: Cursor, v: Variant)
    requires Basic(c) && !c.reader.paused && |c.reader.lines| == 0 && c.reader.ended && c.reader.fragment == "" && !c.reader.finished
    ensures Basic(Cursor(Next(c.reader, v), c.source))
  {
    EmittedAppend(c.reader.events, Finish);
  }

  lemma BasicInit(arrivals: seq<string>, filterEmpty: bool)
    requires ArrivalsOk(arrivals)
    ensures Basic(Start(arrivals, filterEmpty))
  {
  }

  /** A data arrival overwrites the queue only when it is already empty: no undelivered line is lost. */
  lemma DataNeverDiscards(c: Cursor)
    requires Basic(c) && Enabled(c, DataStep)
    ensures c.reader.lines == []
  {
  }

  // ---------------------------------------------------------------------------------------------
  // What a cursor over a text emits (src/LineReader.ts).

  function NonEmptyOpt(s: string): seq<string> {
    if s != "" then [s] else []
  }

  /** The lines still to come from a fragment followed by unread text. */
  function Tail(fragment: string, unread: string, filterEmpty: bool): seq<string> {
    var ps := SplitLines(fragment + unread);
    Keep(filterEmpty, Init(ps)) + NonEmptyOpt(Last(ps))
  }

  /**
   * The lines a cursor over `text` emits: every part of `text.split(/\r?\n/)` but the last
   * (without empty ones when filtering), then the last part if it is not empty.
   */
  function LinesOf(text: string, filterEmpty: bool): seq<string> {
    Tail("", text, filterEmpty)
  }

  /** Lines a cursor will still emit. */
  function Future(c: Cursor): seq<string> {
    c.reader.lines + Tail(c.reader.fragment, Concat(c.source.pending), c.reader.filterEmpty)
  }

  /** Invariant of src/LineReader.ts: emitted so far, then still to come, is exactly the text's lines. */
  ghost predicate Inv(c: Cursor, text: string) {
    var r := c.reader;
    && Basic(c)
    && (r.filterEmpty ==> forall k :: 0 <= k < |r.lines| ==> |r.lines[k]| > 0)
    && (r.finished ==> r.lines == [] && r.fragment == "")
    && NoLineAfterFinish(r.events)
    && Emitted(r.events) + Future(c) == LinesOf(text, r.filterEmpty)
  }

  lemma SingleFragment(f: string, filterEmpty: bool)
    requires NoLF(f)
    ensures Tail(f, "", filterEmpty) == NonEmptyOpt(f)
  {
    assert f + "" == f;
    SplitPrepend(f, "");
  }

  lemma FinishFree(events: seq<Event>)
    requires CountFinish(events) == 0
    ensures forall i :: 0 <= i < |events| ==> events[i] != Finish
  {
    if |events| > 0 {
      FinishFree(events[..|events| - 1]);
      forall i | 0 <= i < |events| - 1 ensures events[i] != Finish {
        assert events[i] == events[..|events| - 1][i];
      }
    }
  }

  lemma NoLineAfterFinishAppend(events: seq<Event>, e: Event)
    requires NoLineAfterFinish(events)
    requires e.Line? ==> CountFinish(events) == 0
    ensures NoLineAfterFinish(events + [e])
  {
    if e.Line? {
      FinishFree(events);
    }
  }

  /** The lines still to come from `fragment` and `d + rest`: the complete lines of `fragment + d`, then those of its last part and `rest`. */
  lemma TailConcat(fragment: string, d: string, rest: string, filterEmpty: bool)
    requires !(EndsWithCR(fragment + d) && StartsWithLF(rest))
    ensures Tail(fragment, d + rest, filterEmpty)
         == Keep(filterEmpty, Init(SplitLines(fragment + d))) + Tail(Last(SplitLines(fragment + d)), rest, filterEmpty)
  {
    var p := SplitLines(fragment + d);
    var z := SplitLines(Last(p) + rest);
    SplitConcatAssoc(fragment, d, rest);
    PartsTail(Init(p), z, filterEmpty);
  }

  lemma SplitConcatAssoc(fragment: string, d: string, rest: string)
    requires !(EndsWithCR(fragment + d) && StartsWithLF(rest))
    ensures SplitLines(fragment + (d + rest))
         == Init(SplitLines(fragment + d)) + SplitLines(Last(SplitLines(fragment + d)) + rest)
  {
    var x := fragment + d;
    SplitConcat(x, rest);
    Strings.AppendAssoc(fragment, d, rest);
  }

  lemma PartsTail(ps: seq<string>, z: seq<string>, filterEmpty: bool)
    requires |z| > 0
    ensures Keep(filterEmpty, Init(ps + z)) + NonEmptyOpt(Last(ps + z))
         == Keep(filterEmpty, ps) + (Keep(filterEmpty, Init(z)) + NonEmptyOpt(Last(z)))
  {
    assert Init(ps + z) == ps + Init(z);
    assert Last(ps + z) == Last(z);
    KeepAppend(filterEmpty, ps, Init(z));
  }

  lemma DataFuture(c: Cursor)
    requires Basic(c) && Enabled(c, DataStep)
    ensures Future(Apply(c, DataStep, Current)) == Future(c)
  {
    var r := c.reader;
    var d := c.source.pending[0];
    var rest := c.source.pending[1..];
    assert Concat(c.source.pending) == d + Concat(rest);
    assert !(EndsWithCR(r.fragment) && StartsWithLF(d));
    var a := Arrive(r.fragment, d);
    var p := SplitLines(r.fragment + d);
    assert a.complete == Init(p) && a.fragment == Last(p) by {
      assert a.complete + [a.fragment] == p;
    }
    assert !(EndsWithCR(r.fragment + d) && StartsWithLF(Concat(rest))) by {
      if |rest| > 0 {
        assert !EndsWithCR(d);
        assert (r.fragment + d)[|r.fragment + d| - 1] == d[|d| - 1];
      }
    }
    TailConcat(r.fragment, d, Concat(rest), r.filterEmpty);
    assert r.lines == [];
  }

  lemma EndFuture(c: Cursor)
    requires Basic(c) && Enabled(c, EndStep)
    ensures Future(Apply(c, EndStep, Current)) == Future(c)
  {
  }

  /** Every src/LineReader.ts transition keeps the emission invariant. */
  lemma InvStep(c: Cursor, step: Step, text: string)
    requires Inv(c, text) && Enabled(c, step)
    ensures Inv(Apply(c, step, Current), text)
  {
    BasicStep(c, step, Current);
    match step
    case DataStep => InvData(c, text);
    case EndStep => InvEnd(c, text);
    case NextStep => InvNext(c, text);
    case PauseStep =>
    case ResumeStep =>
  }

  lemma InvData(c: Cursor, text: string)
    requires Inv(c, text) && Enabled(c, DataStep)
    ensures Inv(Apply(c, DataStep, Current), text)
  {
    BasicStep(c, DataStep, Current);
    DataFuture(c);
  }

  lemma InvEnd(c: Cursor, text: string)
    requires Inv(c, text) && Enabled(c, EndStep)
    ensures Inv(Apply(c, EndStep, Current), text)
  {
    BasicStep(c, EndStep, Current);
    EndFuture(c);
    var r := c.reader;
    var r' := Apply(c, EndStep, Current).reader;
    if |r.lines| == 0 && r.fragment == "" && !r.finished {
      EmittedAppend(r.events, Finish);
      EmittedAppend(r.events + [Finish], End);
      NoLineAfterFinishAppend(r.events, Finish);
      NoLineAfterFinishAppend(r.events + [Finish], End);
      assert r'.events == r.events + [Finish] + [End];
    } else {
      EmittedAppend(r.events, End);
      NoLineAfterFinishAppend(r.events, End);
      assert r'.events == r.events + [End];
    }
    assert Emitted(r'.events) == Emitted(r.events);
  }

  lemma InvNext(c: Cursor, text: string)
    requires Inv(c, text)
    ensures Inv(Apply(c, NextStep, Current), text)
  {
    BasicStep(c, NextStep, Current);
    var r := c.reader;
    if !r.paused {
      if |r.lines| > 0 {
        InvNextLine(c, text);
      } else if r.ended && r.fragment != "" {
        InvNextFragment(c, text);
      } else if r.ended && !r.finished {
        InvNextFinish(c, text);
      }
    }
  }

  lemma InvNextLine(c: Cursor, text: string)
    requires Inv(c, text) && !c.reader.paused && |c.reader.lines| > 0
    ensures Inv(Apply(c, NextStep, Current), text)
  {
    BasicStep(c, NextStep, Current);
    var r := c.reader;
    var c' := Apply(c, NextStep, Current);
    assert c'.reader == r.(events := r.events + [Line(r.lines[0])], lines := r.lines[1..]);
    assert c'.source == c.source;
    NoLineAfterFinishAppend(r.events, Line(r.lines[0]));
    assert Emitted(c'.reader.events) + Future(c') == Emitted(r.events) + Future(c) by {
      EmittedAppend(r.events, Line(r.lines[0]));
      var t := Tail(r.fragment, Concat(c.source.pending), r.filterEmpty);
      LineMoves(Emitted(r.events), r.lines, t);
    }
    assert r.filterEmpty ==> forall k :: 0 <= k < |r.lines[1..]| ==> |r.lines[1..][k]| > 0 by {
      assert forall k :: 0 <= k < |r.lines[1..]| ==> r.lines[1..][k] == r.lines[k + 1];
    }
  }

  /** Emitting the first queued line moves it from what is to come to what was emitted. */
  lemma LineMoves(e: seq<string>, ls: seq<string>, t: seq<string>)
    requires |ls| > 0
    ensures (e + [ls[0]]) + (ls[1..] + t) == e + (ls + t)
  {
    assert ls == [ls[0]] + ls[1..];
  }

  lemma InvNextFragment(c: Cursor, text: string)
    requires Inv(c, text) && !c.reader.paused && |c.reader.lines| == 0 && c.reader.ended && c.reader.fragment != ""
    ensures Inv(Apply(c, NextStep, Current), text)
  {
    BasicStep(c, NextStep, Current);
    var r := c.reader;
    var c' := Apply(c, NextStep, Current);
    assert c'.reader == r.(events := r.events + [Line(r.fragment)], fragment := "");
    assert c.source.pending == [];
    EmittedAppend(r.events, Line(r.fragment));
    NoLineAfterFinishAppend(r.events, Line(r.fragment));
    SingleFragment(r.fragment, r.filterEmpty);
    SingleFragment("", r.filterEmpty);
    assert Future(c) == [r.fragment];
    assert Future(c') == [];
    assert Emitted(c'.reader.events) + Future(c') == Emitted(r.events) + Future(c);
  }

  lemma InvNextFinish(c: Cursor, text: string)
    requires Inv(c, text) && !c.reader.paused && |c.reader.lines| == 0 && c.reader.ended
    requires c.reader.fragment == "" && !c.reader.finished
    ensures Inv(Apply(c, NextStep, Current), text)
  {
    BasicStep(c, NextStep, Current);
    var r := c.reader;
    var c' := Apply(c, NextStep, Current);
    assert c'.reader == r.(finished := true, events := r.events + [Finish], destroyed := true, ended := true, lines := []);
    EmittedAppend(r.events, Finish);
    NoLineAfterFinishAppend(r.events, Finish);
    assert Future(c') == Future(c);
  }

  lemma InvInit(arrivals: seq<string>, filterEmpty: bool)
    requires ArrivalsOk(arrivals)
    ensures Inv(Start(arrivals, filterEmpty), Concat(arrivals))
  {
    assert "" + Concat(arrivals) == Concat(arrivals);
  }

  /** Once finished, the cursor has emitted exactly the lines of its text, `finish` once, and no line after it. */
  lemma FinishedEmittedAll(c: Cursor, text: string)
    requires Inv(c, text) && c.reader.finished
    ensures Emitted(c.reader.events) == LinesOf(text, c.reader.filterEmpty)
    ensures CountFinish(c.reader.events) == 1
    ensures NoLineAfterFinish(c.reader.events)
  {
    SingleFragment("", c.reader.filterEmpty);
  }

  /** Drive an unpaused cursor to completion: the schedule of a consumer that takes every line at once. */
  function Drain(c: Cursor, ghost text: string): (d: Cursor)
    requires Inv(c, text) && !c.reader.paused
    ensures Inv(d, text) && d.reader.finished && d.reader.filterEmpty == c.reader.filterEmpty
    decreases |c.source.pending|, (if c.reader.ended then 0 else 1),
              |c.reader.lines| + (if c.reader.fragment != "" then 1 else 0) + (if c.reader.finished then 0 else 1),
              (if c.reader.sourcePaused then 1 else 0)
  {
    var r := c.reader;
    if r.finished then c
    else
      var step :=
        if |r.lines| > 0 || r.ended || r.sourcePaused then NextStep
        else if |c.source.pending| > 0 then DataStep
        else EndStep;
      InvStep(c, step, text);
      Drain(Apply(c, step, Current), text)
  }

  /**
   * The lines a cursor over a file emits when read to the end, whatever the read-buffer
   * boundaries: the lines of the whole text, in order, each once, without empty ones when
   * filtering, and without a trailing empty part; `finish` comes once, after the last line.
   */
  function ReadFile(arrivals: seq<string>, filterEmpty: bool): (lines: seq<string>)
    requires ArrivalsOk(arrivals)
    ensures lines == LinesOf(Concat(arrivals), filterEmpty)
  {
    InvInit(arrivals, filterEmpty);
    var d := Drain(Start(arrivals, filterEmpty), Concat(arrivals));
    FinishedEmittedAll(d, Concat(arrivals));
    Emitted(d.reader.events)
  }

  /** A file written line by line reads back as its lines, minus empty ones when filtering. */
  lemma LinesOfSerialized(ls: seq<string>, filterEmpty: bool)
    requires AllClean(ls)
    ensures LinesOf(Serialize(ls), filterEmpty) == Keep(filterEmpty, ls)
  {
    SplitSerialized(ls);
    assert "" + Serialize(ls) == Serialize(ls);
    assert Init(ls + [""]) == ls;
  }

  // ---------------------------------------------------------------------------------------------
  // LineReader.js against src/LineReader.ts.

  /** Take the given steps in order, skipping those the stream cannot deliver at that moment. */
  function Run(c: Cursor, steps: seq<Step>, v: Variant): (d: Cursor)
    ensures d.reader.filterEmpty == c.reader.filterEmpty
    ensures |d.reader.events| >= |c.reader.events|
    decreases |steps|
  {
    if |steps| == 0 then c
    else
      var c1 := if Enabled(c, steps[0]) then Apply(c, steps[0], v) else c;
      Run(c1, steps[1..], v)
  }

  /** Every schedule keeps the current cursor's emission invariant. */
  lemma {:induction false} RunInv(c: Cursor, steps: seq<Step>, text: string)
    requires Inv(c, text)
    ensures Inv(Run(c, steps, Current), text)
    decreases |steps|
  {
    if |steps| > 0 {
      if Enabled(c, steps[0]) {
        InvStep(c, steps[0], text);
        RunInv(Apply(c, steps[0], Current), steps[1..], text);
      } else {
        RunInv(c, steps[1..], text);
      }
    }
  }

  /** The same cursor state, asked not to filter. */
  function Unfiltered(c: Cursor): Cursor {
    c.(reader := c.reader.(filterEmpty := false))
  }

  /** What is left to read, the fragment followed by the undelivered arrivals, is empty or ends in a line break. */
  ghost predicate Tidy(c: Cursor) {
    var rest := c.reader.fragment + Concat(c.source.pending);
    rest == "" || rest[|rest| - 1] == '\n'
  }

  /**
   * While what is left to read ends in a line break, each LineReader.js step is the step of the
   * current cursor that does not filter: the `end` handler only sees an empty fragment, and
   * `finish` only comes with an empty queue.
   */
  lemma LegacyStepAgrees(c: Cursor, step: Step)
    requires Basic(c) && Tidy(c) && Enabled(c, step)
    ensures Unfiltered(Apply(c, step, Legacy)) == Apply(Unfiltered(c), step, Current)
    ensures Tidy(Apply(c, step, Legacy))
  {
    match step
    case DataStep => LegacyDataAgrees(c);
    case EndStep => LegacyEndAgrees(c);
    case NextStep => LegacyNextAgrees(c);
    case PauseStep =>
    case ResumeStep =>
  }

  lemma LegacyDataAgrees(c: Cursor)
    requires Basic(c) && Tidy(c) && Enabled(c, DataStep)
    ensures Unfiltered(Apply(c, DataStep, Legacy)) == Apply(Unfiltered(c), DataStep, Current)
    ensures Tidy(Apply(c, DataStep, Legacy))
  {
    LegacyDataTidy(c);
  }

  /** `end` comes only once everything was delivered, so the fragment is empty then. */
  lemma LegacyEndAgrees(c: Cursor)
    requires Basic(c) && Tidy(c) && Enabled(c, EndStep)
    ensures Unfiltered(Apply(c, EndStep, Legacy)) == Apply(Unfiltered(c), EndStep, Current)
    ensures Tidy(Apply(c, EndStep, Legacy))
  {
    assert Concat(c.source.pending) == "";
    assert c.reader.fragment + Concat(c.source.pending) == c.reader.fragment;
    assert c.reader.fragment == "";
    assert c.reader.lines == [];
  }

  lemma LegacyNextAgrees(c: Cursor)
    requires Basic(c) && Tidy(c)
    ensures Unfiltered(Apply(c, NextStep, Legacy)) == Apply(Unfiltered(c), NextStep, Current)
    ensures Tidy(Apply(c, NextStep, Legacy))
  {
    if c.reader.ended {
      assert Concat(c.source.pending) == "";
      assert c.reader.fragment + Concat(c.source.pending) == c.reader.fragment;
    }
  }

  lemma LegacyDataTidy(c: Cursor)
    requires Basic(c) && Tidy(c) && Enabled(c, DataStep)
    ensures Tidy(Apply(c, DataStep, Legacy))
  {
    var f := c.reader.fragment;
    var p := c.source.pending;
    var a := Arrive(f, p[0]);
    var x := Concat(p[1..]);
    assert Concat(p) == p[0] + x;
    assert f + Concat(p) == (f + p[0]) + x;
    if |p| > 1 {
      assert x == p[1..][0] + Concat(p[1..][1..]);
      assert |x| > 0;
      assert (a.fragment + x)[|a.fragment + x| - 1] == x[|x| - 1];
      assert ((f + p[0]) + x)[|(f + p[0]) + x| - 1] == x[|x| - 1];
    } else {
      assert x == "";
      assert a.fragment + x == a.fragment;
      assert (f + p[0]) + x == f + p[0];
      assert a.fragment == Last(SplitLines(f + p[0]));
      if a.fragment != "" {
        LastPartEnd(f + p[0]);
        assert false;
      }
    }
  }

  /** Under every schedule, LineReader.js on such a text makes the moves of the current cursor that does not filter. */
  lemma {:induction false} LegacyRunAgrees(c: Cursor, steps: seq<Step>)
    requires Basic(c) && Tidy(c)
    ensures Unfiltered(Run(c, steps, Legacy)) == Run(Unfiltered(c), steps, Current)
    decreases |steps|
  {
    if |steps| > 0 {
      if Enabled(c, steps[0]) {
        LegacyStepAgrees(c, steps[0]);
        BasicStep(c, steps[0], Legacy);
        LegacyRunAgrees(Apply(c, steps[0], Legacy), steps[1..]);
      } else {
        assert !Enabled(Unfiltered(c), steps[0]);
        LegacyRunAgrees(c, steps[1..]);
      }
    }
  }

  /**
   * LineReader.js over a file that ends in a line break, as every chunk file does: under any
   * schedule, once it finishes it has emitted every line of the text in order, empty ones
   * included whatever `filterEmpty` says, `finish` once, and no line after it.
   */
  lemma LegacyReadsAll(arrivals: seq<string>, filterEmpty: bool, steps: seq<Step>)
    requires ArrivalsOk(arrivals)
    requires Concat(arrivals) == "" || Concat(arrivals)[|Concat(arrivals)| - 1] == '\n'
    ensures var e := Run(Start(arrivals, filterEmpty), steps, Legacy).reader;
      e.finished ==>
        && Emitted(e.events) == LinesOf(Concat(arrivals), false)
        && CountFinish(e.events) == 1
        && NoLineAfterFinish(e.events)
  {
    var c := Start(arrivals, filterEmpty);
    BasicInit(arrivals, filterEmpty);
    assert "" + Concat(arrivals) == Concat(arrivals);
    LegacyRunAgrees(c, steps);
    assert Unfiltered(c) == Start(arrivals, false);
    InvInit(arrivals, false);
    RunInv(Start(arrivals, false), steps, Concat(arrivals));
    var d := Run(c, steps, Legacy);
    if d.reader.finished {
      FinishedEmittedAll(Unfiltered(d), Concat(arrivals));
    }
  }

  lemma OneCharLine(ch: char)
    requires ch != '\n' && ch != '\r'
    ensures SplitLines([ch]) == [[ch]]
  {
    assert [ch][1..] == "";
    assert SplitLines("") == [""];
    assert [ch] + "" == [ch];
  }

  /** The schedule of a file delivered as one buffer whose text has no final line break. */
  const OneBuffer: seq<Step> := [DataStep, NextStep, EndStep, NextStep, NextStep]

  /** LineReader.js keeps the empty lines it was asked to drop: its filter's result is discarded. */
  lemma LegacyFilterIgnored()
    ensures LegacyOnData(Create(true), "a\n\nb\n").lines == ["a", "", "b"]
    ensures OnData(Create(true), "a\n\nb\n").lines == ["a", "b"]
  {
    var s := "a\n\nb\n";
    assert SplitLines(s[4..]) == ["", ""] by {
      assert s[4..] == "\n";
      assert s[4..][1..] == "";
    }
    assert SplitLines(s[3..]) == ["b", ""] by {
      assert s[3..][1..] == s[4..];
      assert ['b'] + "" == "b";
      assert ["", ""][1..] == [""];
    }
    assert SplitLines(s[2..]) == ["", "b", ""] by {
      assert s[2..][1..] == s[3..];
    }
    assert SplitLines(s[1..]) == ["", "", "b", ""] by {
      assert s[1..][1..] == s[2..];
    }
    assert SplitLines(s) == ["a", "", "b", ""] by {
      assert s[1..] == s[1..];
      assert ['a'] + "" == "a";
      assert ["", "", "b", ""][1..] == ["", "b", ""];
    }
    var ps := SplitLines(s);
    assert "" + ps[0] == ps[0];
    assert ps[0 := "" + ps[0]] == ps;
    assert Init(ps) == ["a", "", "b"];
    assert NonEmpty(["a", "", "b"]) == ["a", "b"] by {
      assert NonEmpty(["", "b"]) == ["b"] by {
        assert ["", "b"][1..] == ["b"];
        assert NonEmpty(["b"]) == ["b"] by {
          assert ["b"][1..] == [];
        }
      }
      assert ["a", "", "b"][1..] == ["", "b"];
    }
  }

  /**
   * LineReader.js finishes at `end` while the last line is still in the fragment: for a file
   * "a" read as one buffer, `finish` comes before the line "a", so a consumer counting
   * `finish` as the end of the cursor loses that line.
   */
  lemma LegacyFinishBeforeLastLine()
    ensures var e := Run(Start(["a"], false), OneBuffer, Legacy).reader.events;
      e == [Finish, End, Line("a")] && !NoLineAfterFinish(e)
  {
    var e := OneBufferEvents(Legacy);
    assert e[0] == Finish && e[2] == Line("a");
    LineAfterFinish(e, 0, 2);
  }

  lemma LineAfterFinish(events: seq<Event>, i: nat, j: nat)
    requires i < j < |events| && events[i] == Finish && events[j].Line?
    ensures !NoLineAfterFinish(events)
  {
  }

  /** The events of the one-buffer schedule over the file "a", for either variant. */
  function OneBufferEvents(v: Variant): (e: seq<Event>)
    ensures e == Run(Start(["a"], false), OneBuffer, v).reader.events
    ensures v == Legacy ==> e == [Finish, End, Line("a")]
    ensures v == Current ==> e == [End, Line("a"), Finish]
  {
    if v == Current then OneBufferCurrent(); [End, Line("a"), Finish]
    else OneBufferLegacy(); [Finish, End, Line("a")]
  }

  /** After the buffer and a `next` that re-arms the stream, the schedule only has `end` and two `next`s left. */
  lemma OneBufferStart(v: Variant)
    ensures Run(Start(["a"], false), OneBuffer, v)
         == Run(Cursor(Reader(false, [], "a", false, false, false, false, false, []), Source([], false)),
                [EndStep, NextStep, NextStep], v)
  {
    var c0 := Start(["a"], false);
    var c1 := Cursor(Reader(false, [], "a", false, false, false, true, false, []), Source([], false));
    OneBufferData(v);
    RunFirst(c0, OneBuffer, v);
    assert OneBuffer[1..] == [NextStep, EndStep, NextStep, NextStep];
    RunFirst(c1, OneBuffer[1..], v);
    assert [NextStep, EndStep, NextStep, NextStep][1..] == [EndStep, NextStep, NextStep];
  }

  lemma OneBufferCurrent()
    ensures Run(Start(["a"], false), OneBuffer, Current).reader.events == [End, Line("a"), Finish]
  {
    var r := Reader(false, [], "a", false, false, false, false, false, []);
    var c2 := Cursor(r, Source([], false));
    var c3 := Cursor(r.(ended := true, events := [End]), Source([], true));
    var c4 := Cursor(r.(ended := true, fragment := "", events := [End, Line("a")]), Source([], true));
    var c5 := Cursor(r.(ended := true, fragment := "", finished := true, destroyed := true,
                        events := [End, Line("a"), Finish]), Source([], true));
    OneBufferStart(Current);
    CurrentAfterData(c2, c3, c4, c5);
    RunTail(c2, c3, c4, c5, Current);
  }

  lemma CurrentAfterData(c2: Cursor, c3: Cursor, c4: Cursor, c5: Cursor)
    requires var r := Reader(false, [], "a", false, false, false, false, false, []);
      && c2 == Cursor(r, Source([], false))
      && c3 == Cursor(r.(ended := true, events := [End]), Source([], true))
      && c4 == Cursor(r.(ended := true, fragment := "", events := [End, Line("a")]), Source([], true))
      && c5 == Cursor(r.(ended := true, fragment := "", finished := true, destroyed := true,
                         events := [End, Line("a"), Finish]), Source([], true))
    ensures Enabled(c2, EndStep) && Apply(c2, EndStep, Current) == c3
    ensures Apply(c3, NextStep, Current) == c4 && Apply(c4, NextStep, Current) == c5
  {
    assert [] + [End] == [End];
    assert [End] + [Line("a")] == [End, Line("a")];
    assert [End, Line("a")] + [Finish] == [End, Line("a"), Finish];
  }

  lemma LegacyAfterData(c2: Cursor, c3: Cursor, c4: Cursor)
    requires var r := Reader(false, [], "a", false, false, false, false, false, []);
      && c2 == Cursor(r, Source([], false))
      && c3 == Cursor(r.(ended := true, finished := true, destroyed := true, events := [Finish, End]), Source([], true))
      && c4 == Cursor(r.(ended := true, finished := true, destroyed := true, fragment := "",
                         events := [Finish, End, Line("a")]), Source([], true))
    ensures Enabled(c2, EndStep) && Apply(c2, EndStep, Legacy) == c3
    ensures Apply(c3, NextStep, Legacy) == c4 && Apply(c4, NextStep, Legacy) == c4
  {
    assert [] + [Finish] == [Finish];
    assert [Finish] + [End] == [Finish, End];
    assert [Finish, End] + [Line("a")] == [Finish, End, Line("a")];
  }

  /** The last three steps of the one-buffer schedule, once each of them is known. */
  lemma RunTail(c2: Cursor, c3: Cursor, c4: Cursor, c5: Cursor, v: Variant)
    requires Enabled(c2, EndStep) && Apply(c2, EndStep, v) == c3
    requires Apply(c3, NextStep, v) == c4 && Apply(c4, NextStep, v) == c5
    ensures Run(c2, [EndStep, NextStep, NextStep], v) == c5
  {
    RunFirst(c2, [EndStep, NextStep, NextStep], v);
    assert [EndStep, NextStep, NextStep][1..] == [NextStep, NextStep];
    RunFirst(c3, [NextStep, NextStep], v);
    assert [NextStep, NextStep][1..] == [NextStep];
    RunFirst(c4, [NextStep], v);
    assert [NextStep][1..] == [];
  }

  lemma OneBufferLegacy()
    ensures Run(Start(["a"], false), OneBuffer, Legacy).reader.events == [Finish, End, Line("a")]
  {
    var r := Reader(false, [], "a", false, false, false, false, false, []);
    var c2 := Cursor(r, Source([], false));
    var c3 := Cursor(r.(ended := true, finished := true, destroyed := true, events := [Finish, End]), Source([], true));
    var c4 := Cursor(r.(ended := true, finished := true, destroyed := true, fragment := "",
                        events := [Finish, End, Line("a")]), Source([], true));
    OneBufferStart(Legacy);
    LegacyAfterData(c2, c3, c4);
    RunTail(c2, c3, c4, c4, Legacy);
  }

  /** The one buffer "a" leaves the fragment "a" and an empty queue, in either variant. */
  lemma OneBufferData(v: Variant)
    ensures Enabled(Start(["a"], false), DataStep)
    ensures Apply(Start(["a"], false), DataStep, v)
         == Cursor(Reader(false, [], "a", false, false, false, true, false, []), Source([], false))
  {
    OneCharLine('a');
    assert "" + "a" == "a";
    assert Glue("", "a") == ["a"];
  }

  lemma RunFirst(c: Cursor, steps: seq<Step>, v: Variant)
    requires |steps| > 0
    ensures Run(c, steps, v) == Run(if Enabled(c, steps[0]) then Apply(c, steps[0], v) else c, steps[1..], v)
  {
  }

  /** On the same schedule src/LineReader.ts emits the line first and finishes after it. */
  lemma CurrentFinishAfterLastLine()
    ensures Run(Start(["a"], false), OneBuffer, Current).reader.events == [End, Line("a"), Finish]
    ensures NoLineAfterFinish(Run(Start(["a"], false), OneBuffer, Current).reader.events)
  {
    var e := OneBufferEvents(Current);
    assert e[..2] == [End, Line("a")];
    FinishOnlyLast(e);
  }

  /** Events with `finish` at most as the last one have no line after a `finish`. */
  lemma FinishOnlyLast(events: seq<Event>)
    requires |events| > 0 && Finish !in events[..|events| - 1]
    ensures NoLineAfterFinish(events)
  {
    forall i | 0 <= i < |events| - 1
      ensures events[i] != Finish
    {
      assert events[i] == events[..|events| - 1][i];
    }
  }
}
