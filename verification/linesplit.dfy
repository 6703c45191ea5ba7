/**
 * Splitting text into lines. Two splitters occur in the system: the line cursor's
 * `text.split(/\r?\n/)` (src/LineReader.ts) and Node's `readline` interface with
 * `crlfDelay: Infinity`, which the chunk splitter reads the entry file with. Writers append
 * `"\n"` after every line.
 */
module LineSplit {
  import opened Order

  predicate NoLF(s: string) {
    forall i :: 0 <= i < |s| ==> s[i] != '\n'
  }

  /** No line break of either kind: what a line produced by `readline` looks like. */
  predicate Clean(s: string) {
    forall i :: 0 <= i < |s| ==> s[i] != '\n' && s[i] != '\r'
  }

  predicate AllClean(ls: seq<string>) {
    forall k :: 0 <= k < |ls| ==> Clean(ls[k])
  }

  predicate EndsWithCR(s: string) {
    |s| > 0 && s[|s| - 1] == '\r'
  }

  predicate StartsWithLF(s: string) {
    |s| > 0 && s[0] == '\n'
  }

  function Last(ps: seq<string>): string
    requires |ps| > 0
  {
    ps[|ps| - 1]
  }

  function Init(ps: seq<string>): seq<string>
    requires |ps| > 0
  {
    ps[..|ps| - 1]
  }

  /** Put one character in front of the first part. */
  function Cons(c: char, r: seq<string>): seq<string>
    requires |r| > 0
  {
    [[c] + r[0]] + r[1..]
  }

  /** `s.split(/\r?\n/)`: the leftmost "\r\n" or "\n" ends a part; the text after the last break is the final part. */
  function SplitLines(s: string): (parts: seq<string>)
    ensures |parts| >= 1
    ensures forall k :: 0 <= k < |parts| ==> NoLF(parts[k])
    decreases |s|
  {
    if |s| == 0 then [""]
    else if s[0] == '\n' then [""] + SplitLines(s[1..])
    else if |s| >= 2 && s[0] == '\r' && s[1] == '\n' then [""] + SplitLines(s[2..])
    else
      var r := SplitLines(s[1..]);
      Cons(s[0], r)
  }

  /** The parts joined back with "\n" between them: `parts.join("\n")`. */
  function JoinLines(parts: seq<string>): string
    requires |parts| > 0
  {
    if |parts| == 1 then parts[0] else parts[0] + "\n" + JoinLines(parts[1..])
  }

  /** Content of a file written line by line with `${line}\n`. */
  function Serialize(ls: seq<string>): (s: string)
    ensures |ls| == 0 ==> s == ""
  {
    if |ls| == 0 then "" else ls[0] + "\n" + Serialize(ls[1..])
  }

  /** A file written line by line is empty or ends in a line break. */
  lemma {:induction false} SerializeEnds(ls: seq<string>)
    ensures var s := Serialize(ls); s == "" || s[|s| - 1] == '\n'
  {
    if |ls| > 0 {
      SerializeEnds(ls[1..]);
      var t := Serialize(ls[1..]);
      assert Serialize(ls) == ls[0] + "\n" + t;
    }
  }

  lemma {:induction false} SerializeAppend(a: seq<string>, b: seq<string>)
    ensures Serialize(a + b) == Serialize(a) + Serialize(b)
  {
    if |a| == 0 {
      assert a + b == b;
    } else {
      assert (a + b)[0] == a[0];
      assert (a + b)[1..] == a[1..] + b;
      SerializeAppend(a[1..], b);
    }
  }

  /** A text split into a single part contains no break at all. */
  lemma {:induction false} SingleSplit(s: string)
    requires |SplitLines(s)| == 1
    ensures SplitLines(s)[0] == s
  {
    if |s| > 0 {
      SingleSplit(s[1..]);
      assert s == [s[0]] + s[1..];
    }
  }

  lemma FirstPartStart(s: string)
    requires |SplitLines(s)[0]| > 0
    ensures |s| > 0 && SplitLines(s)[0][0] == s[0]
  {
  }

  /** Text without "\n" glues onto the first part of what follows. */
  lemma {:induction false} SplitPrepend(a: string, b: string)
    requires NoLF(a)
    requires !(EndsWithCR(a) && StartsWithLF(b))
    ensures SplitLines(a + b) == [a + SplitLines(b)[0]] + SplitLines(b)[1..]
  {
    if |a| == 0 {
      assert a + b == b;
      var sb := SplitLines(b);
      assert a + sb[0] == sb[0];
      assert sb == [sb[0]] + sb[1..];
    } else {
      var a' := a[1..];
      assert (a + b)[0] == a[0];
      assert (a + b)[1..] == a' + b;
      if |a'| > 0 {
        assert (a + b)[1] == a'[0];
        assert EndsWithCR(a') ==> EndsWithCR(a);
      } else {
        assert a' + b == b;
      }
      SplitPrepend(a', b);
      assert [a[0]] + (a' + SplitLines(b)[0]) == a + SplitLines(b)[0];
    }
  }

  /** Splitting a concatenation: the complete parts of `x`, then the split of `x`'s last part followed by `y`. */
  lemma {:induction false} SplitConcat(x: string, y: string)
    requires !(EndsWithCR(x) && StartsWithLF(y))
    ensures SplitLines(x + y) == Init(SplitLines(x)) + SplitLines(Last(SplitLines(x)) + y)
    decreases |x|, 1
  {
    if |x| == 0 {
      assert x + y == y;
    } else if x[0] == '\n' {
      SplitConcatBreak(x, y, 1);
    } else if |x| >= 2 && x[0] == '\r' && x[1] == '\n' {
      SplitConcatBreak(x, y, 2);
    } else {
      SplitConcatChar(x, y);
    }
  }

  /** `SplitConcat` when `x` starts with a break of length `n`. */
  lemma {:induction false} SplitConcatBreak(x: string, y: string, n: nat)
    requires !(EndsWithCR(x) && StartsWithLF(y))
    requires n == 1 || n == 2
    requires n == 1 ==> |x| >= 1 && x[0] == '\n'
    requires n == 2 ==> |x| >= 2 && x[0] == '\r' && x[1] == '\n'
    ensures SplitLines(x + y) == Init(SplitLines(x)) + SplitLines(Last(SplitLines(x)) + y)
    decreases |x|, 0
  {
    var x' := x[n..];
    var q := SplitLines(x');
    BreakUnfold(x, n);
    BreakUnfoldConcat(x, y, n);
    assert !(EndsWithCR(x') && StartsWithLF(y)) by {
      assert EndsWithCR(x') ==> EndsWithCR(x);
    }
    SplitConcat(x', y);
    EmptyFirstInitLast(q);
  }

  /** A text starting with a break of length `n` splits into an empty part and the split of the rest. */
  lemma BreakUnfold(s: string, n: nat)
    requires n == 1 || n == 2
    requires n == 1 ==> |s| >= 1 && s[0] == '\n'
    requires n == 2 ==> |s| >= 2 && s[0] == '\r' && s[1] == '\n'
    ensures SplitLines(s) == [""] + SplitLines(s[n..])
  {
  }

  lemma BreakUnfoldConcat(x: string, y: string, n: nat)
    requires n == 1 || n == 2
    requires n == 1 ==> |x| >= 1 && x[0] == '\n'
    requires n == 2 ==> |x| >= 2 && x[0] == '\r' && x[1] == '\n'
    ensures SplitLines(x + y) == [""] + SplitLines(x[n..] + y)
  {
    assert (x + y)[0] == x[0];
    assert n == 2 ==> (x + y)[1] == '\n';
    assert (x + y)[n..] == x[n..] + y;
    BreakUnfold(x + y, n);
  }

  lemma EmptyFirstInitLast(q: seq<string>)
    requires |q| > 0
    ensures Init([""] + q) == [""] + Init(q)
    ensures Last([""] + q) == Last(q)
  {
  }

  /** `SplitConcat` when `x` starts with an ordinary character. */
  lemma {:induction false} SplitConcatChar(x: string, y: string)
    requires !(EndsWithCR(x) && StartsWithLF(y))
    requires |x| > 0 && x[0] != '\n' && !(|x| >= 2 && x[0] == '\r' && x[1] == '\n')
    ensures SplitLines(x + y) == Init(SplitLines(x)) + SplitLines(Last(SplitLines(x)) + y)
    decreases |x|, 0
  {
    var x' := x[1..];
    var q := SplitLines(x');
    CharUnfold(x);
    CharUnfoldConcat(x, y);
    assert !(EndsWithCR(x') && StartsWithLF(y)) by {
      assert EndsWithCR(x') ==> EndsWithCR(x);
    }
    SplitConcat(x', y);
    if |q| >= 2 {
      ConsInitLast(x[0], q, SplitLines(Last(q) + y));
    } else {
      SingleSplit(x');
      CharSingle(x, y);
    }
  }

  /** A text starting with an ordinary character puts it in front of the first part of the rest's split. */
  lemma CharUnfold(s: string)
    requires |s| > 0 && s[0] != '\n' && !(|s| >= 2 && s[0] == '\r' && s[1] == '\n')
    ensures SplitLines(s) == Cons(s[0], SplitLines(s[1..]))
  {
  }

  lemma CharUnfoldConcat(x: string, y: string)
    requires !(EndsWithCR(x) && StartsWithLF(y))
    requires |x| > 0 && x[0] != '\n' && !(|x| >= 2 && x[0] == '\r' && x[1] == '\n')
    ensures SplitLines(x + y) == Cons(x[0], SplitLines(x[1..] + y))
  {
    assert (x + y)[0] == x[0] && (x + y)[1..] == x[1..] + y;
    assert !(|x + y| >= 2 && x[0] == '\r' && (x + y)[1] == '\n') by {
      if |x| > 1 {
        assert (x + y)[1] == x[1];
      } else if |y| > 0 {
        assert (x + y)[1] == y[0];
      }
    }
    CharUnfold(x + y);
  }

  /** `SplitConcatChar` when the rest of `x` holds no break. */
  lemma CharSingle(x: string, y: string)
    requires !(EndsWithCR(x) && StartsWithLF(y))
    requires |x| > 0 && x[0] != '\n' && !(|x| >= 2 && x[0] == '\r' && x[1] == '\n')
    requires |SplitLines(x[1..])| == 1 && SplitLines(x[1..])[0] == x[1..]
    ensures Cons(x[0], SplitLines(x[1..] + y)) == Init(Cons(x[0], SplitLines(x[1..]))) + SplitLines(Last(Cons(x[0], SplitLines(x[1..]))) + y)
  {
    var x' := x[1..];
    var t := x' + y;
    assert [x[0]] + x' == x;
    assert x + y == [x[0]] + t;
    assert !(|t| > 0 && x[0] == '\r' && t[0] == '\n') by {
      if |x'| > 0 {
        assert t[0] == x'[0];
      } else {
        assert t == y;
      }
    }
    assert ([x[0]] + t)[0] == x[0];
    assert ([x[0]] + t)[1..] == t;
    CharUnfold([x[0]] + t);
    assert Init(Cons(x[0], SplitLines(x'))) == [];
    assert Last(Cons(x[0], SplitLines(x'))) == [x[0]] + x';
  }

  /** Sequence bookkeeping for `SplitConcatChar`. */
  lemma ConsInitLast(c: char, q: seq<string>, z: seq<string>)
    requires |q| >= 2 && |z| > 0
    ensures Cons(c, Init(q) + z) == Init(Cons(c, q)) + z
    ensures Last(Cons(c, q)) == Last(q)
  {
    assert Init(Cons(c, q)) == [[c] + q[0]] + q[1..|q| - 1];
    assert (Init(q) + z)[0] == q[0];
    assert (Init(q) + z)[1..] == q[1..|q| - 1] + z;
  }

  /** Lines without breaks survive a join and a split unchanged. */
  lemma {:induction false} SplitJoin(ps: seq<string>)
    requires |ps| > 0 && AllClean(ps)
    ensures SplitLines(JoinLines(ps)) == ps
  {
    if |ps| == 1 {
      assert NoLF(ps[0]);
      SplitPrepend(ps[0], "");
      assert ps[0] + "" == ps[0];
    } else {
      var j := JoinLines(ps[1..]);
      assert AllClean(ps[1..]) by {
        forall k | 0 <= k < |ps| - 1 ensures Clean(ps[1..][k]) {
          assert ps[1..][k] == ps[k + 1];
        }
      }
      SplitJoin(ps[1..]);
      assert ps[0] + "\n" + j == ps[0] + ("\n" + j);
      assert Clean(ps[0]);
      assert !EndsWithCR(ps[0]);
      SplitPrepend(ps[0], "\n" + j);
      assert ("\n" + j)[1..] == j;
      assert SplitLines("\n" + j) == [""] + ps[1..];
      assert ps[0] + "" == ps[0];
      assert ps == [ps[0]] + ps[1..];
    }
  }

  /** Text without '\r' is rebuilt exactly by joining its parts. */
  lemma {:induction false} JoinSplit(s: string)
    requires forall i :: 0 <= i < |s| ==> s[i] != '\r'
    ensures JoinLines(SplitLines(s)) == s
    decreases |s|
  {
    if |s| > 0 {
      JoinSplit(s[1..]);
      var r := SplitLines(s[1..]);
      if s[0] == '\n' {
        assert s == "\n" + s[1..];
      } else {
        var c := Cons(s[0], r);
        if |r| == 1 {
          assert JoinLines(c) == [s[0]] + JoinLines(r);
        } else {
          assert c[1..] == r[1..];
          assert JoinLines(c) == [s[0]] + r[0] + "\n" + JoinLines(r[1..]);
        }
        assert s == [s[0]] + s[1..];
      }
    }
  }

  /** A serialized file is its lines joined with "\n", plus an empty last part. */
  lemma {:induction false} SerializeIsJoin(ls: seq<string>)
    ensures Serialize(ls) == JoinLines(ls + [""])
  {
    if |ls| > 0 {
      SerializeIsJoin(ls[1..]);
      assert (ls + [""])[1..] == ls[1..] + [""];
      assert ls[0] + "\n" + Serialize(ls[1..]) == ls[0] + "\n" + JoinLines(ls[1..] + [""]);
    }
  }

  /** Splitting a serialized file yields its lines and then the empty text after the final "\n". */
  lemma SplitSerialized(ls: seq<string>)
    requires AllClean(ls)
    ensures SplitLines(Serialize(ls)) == ls + [""]
  {
    SerializeIsJoin(ls);
    assert AllClean(ls + [""]) by {
      forall k | 0 <= k < |ls| + 1 ensures Clean((ls + [""])[k]) {
        if k < |ls| { assert (ls + [""])[k] == ls[k]; }
      }
    }
    SplitJoin(ls + [""]);
  }

  /** `readline`'s segmentation: "\r\n", a lone "\n" and a lone "\r" each end a line. */
  function ReadlineParts(s: string): (parts: seq<string>)
    ensures |parts| >= 1
    ensures AllClean(parts)
    decreases |s|
  {
    if |s| == 0 then [""]
    else if s[0] == '\n' then [""] + ReadlineParts(s[1..])
    else if s[0] == '\r' then
      if |s| >= 2 && s[1] == '\n' then [""] + ReadlineParts(s[2..]) else [""] + ReadlineParts(s[1..])
    else
      var r := ReadlineParts(s[1..]);
      Cons(s[0], r)
  }

  /** The lines `for await (const line of rl)` yields: the parts, without an empty one after a final break. */
  function ReadlineSplit(s: string): (lines: seq<string>)
    ensures AllClean(lines)
  {
    var ps := ReadlineParts(s);
    if Last(ps) == "" then Init(ps) else ps
  }

  lemma {:induction false} ReadlineJoin(ps: seq<string>)
    requires |ps| > 0 && AllClean(ps)
    ensures ReadlineParts(JoinLines(ps)) == ps
  {
    if |ps| == 1 {
      ReadlineSingle(ps[0]);
    } else {
      var j := JoinLines(ps[1..]);
      assert AllClean(ps[1..]) by {
        forall k | 0 <= k < |ps| - 1 ensures Clean(ps[1..][k]) {
          assert ps[1..][k] == ps[k + 1];
        }
      }
      ReadlineJoin(ps[1..]);
      ReadlinePrepend(ps[0], "\n" + j);
      assert ps[0] + "\n" + j == ps[0] + ("\n" + j);
      assert ("\n" + j)[1..] == j;
      assert ps[0] + "" == ps[0];
      assert ps == [ps[0]] + ps[1..];
    }
  }

  lemma {:induction false} ReadlineSingle(s: string)
    requires Clean(s)
    ensures ReadlineParts(s) == [s]
  {
    if |s| > 0 {
      ReadlineSingle(s[1..]);
      assert s == [s[0]] + s[1..];
    }
  }

  lemma {:induction false} ReadlinePrepend(a: string, b: string)
    requires Clean(a)
    ensures ReadlineParts(a + b) == [a + ReadlineParts(b)[0]] + ReadlineParts(b)[1..]
  {
    if |a| == 0 {
      assert a + b == b;
      var rb := ReadlineParts(b);
      assert a + rb[0] == rb[0];
      assert rb == [rb[0]] + rb[1..];
    } else {
      assert (a + b)[0] == a[0];
      assert (a + b)[1..] == a[1..] + b;
      ReadlinePrepend(a[1..], b);
      assert [a[0]] + (a[1..] + ReadlineParts(b)[0]) == a + ReadlineParts(b)[0];
    }
  }

  /** The entry file's lines survive being written one per line and read back with `readline`. */
  lemma ReadlineSerialized(ls: seq<string>)
    requires AllClean(ls)
    ensures ReadlineSplit(Serialize(ls)) == ls
  {
    SerializeIsJoin(ls);
    assert AllClean(ls + [""]) by {
      forall k | 0 <= k < |ls| + 1 ensures Clean((ls + [""])[k]) {
        if k < |ls| { assert (ls + [""])[k] == ls[k]; }
      }
    }
    ReadlineJoin(ls + [""]);
    assert Init(ls + [""]) == ls;
  }
}
