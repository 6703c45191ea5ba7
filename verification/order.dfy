/**
 * Comparators in the JavaScript sense (`(a, b) => number`), the "at most" relation they induce,
 * sortedness, and the insertion sort that stands for `Array.prototype.sort`.
 */
module Order {

  /** `ComparerFN`: negative or zero means the first argument may come first. */
  type Comparer = (string, string) -> int

  /** `cmp(a, b) <= 0`. */
  predicate Le(cmp: Comparer, a: string, b: string) {
    cmp(a, b) <= 0
  }

  /** Every two strings are related one way or the other. */
  ghost predicate Total(cmp: Comparer) {
    forall a, b :: Le(cmp, a, b) || Le(cmp, b, a)
  }

  ghost predicate Transitive(cmp: Comparer) {
    forall a, b, c :: Le(cmp, a, b) && Le(cmp, b, c) ==> Le(cmp, a, c)
  }

  /** What a comparator must satisfy for sorting and merging with it to be meaningful. */
  ghost predicate TotalPreorder(cmp: Comparer) {
    Total(cmp) && Transitive(cmp)
  }

  lemma LeReflexive(cmp: Comparer, a: string)
    requires Total(cmp)
    ensures Le(cmp, a, a)
  {
    assert Le(cmp, a, a) || Le(cmp, a, a);
  }

  /** Strings related both ways are equal: then sorted order is unique. */
  ghost predicate Antisymmetric(cmp: Comparer) {
    forall a, b :: Le(cmp, a, b) && Le(cmp, b, a) ==> a == b
  }

  /** Every earlier element is at most every later one. */
  ghost predicate Sorted(cmp: Comparer, s: seq<string>) {
    forall i, j :: 0 <= i < j < |s| ==> Le(cmp, s[i], s[j])
  }

  /** Each element is at most its successor: the shape in which the output order is usually stated. */
  ghost predicate AdjacentSorted(cmp: Comparer, s: seq<string>) {
    forall k :: 0 <= k < |s| - 1 ==> Le(cmp, s[k], s[k + 1])
  }

  /** Under a transitive comparator, checking neighbours suffices. */
  lemma {:induction false} AdjacentSortedIsSorted(cmp: Comparer, s: seq<string>)
    requires Transitive(cmp)
    ensures AdjacentSorted(cmp, s) <==> Sorted(cmp, s)
  {
    if AdjacentSorted(cmp, s) && |s| > 1 {
      AdjacentSortedIsSorted(cmp, s[1..]);
      assert Sorted(cmp, s[1..]);
      forall i, j | 0 <= i < j < |s|
        ensures Le(cmp, s[i], s[j])
      {
        if i > 0 {
          assert s[i] == s[1..][i - 1] && s[j] == s[1..][j - 1];
        } else if j > 1 {
          assert s[1] == s[1..][0] && s[j] == s[1..][j - 1];
        }
      }
    }
  }

  /** Insert `x` before the first element it is at most. */
  function Insert(cmp: Comparer, x: string, s: seq<string>): (r: seq<string>)
    ensures multiset(r) == multiset(s) + multiset{x}
  {
    if |s| == 0 then [x]
    else if Le(cmp, x, s[0]) then [x] + s
    else
      assert s == [s[0]] + s[1..];
      [s[0]] + Insert(cmp, x, s[1..])
  }

  lemma {:induction false} InsertSorted(cmp: Comparer, x: string, s: seq<string>)
    requires TotalPreorder(cmp) && Sorted(cmp, s)
    ensures Sorted(cmp, Insert(cmp, x, s))
  {
    if |s| > 0 && !Le(cmp, x, s[0]) {
      var t := Insert(cmp, x, s[1..]);
      SortedTail(cmp, s);
      InsertSorted(cmp, x, s[1..]);
      forall k | 0 <= k < |t|
        ensures Le(cmp, s[0], t[k])
      {
        assert t[k] in multiset(t);
        if t[k] != x {
          TailMultiset(s);
          HeadLeAll(cmp, s, t[k]);
        }
      }
      ConsSorted(cmp, s[0], t);
    }
  }

  lemma SortedTail(cmp: Comparer, s: seq<string>)
    requires Sorted(cmp, s) && |s| > 0
    ensures Sorted(cmp, s[1..])
  {
    forall i, j | 0 <= i < j < |s| - 1
      ensures Le(cmp, s[1..][i], s[1..][j])
    {
      assert s[1..][i] == s[i + 1] && s[1..][j] == s[j + 1];
    }
  }

  lemma TailMultiset(s: seq<string>)
    requires |s| > 0
    ensures multiset(s) == multiset{s[0]} + multiset(s[1..])
  {
    assert s == [s[0]] + s[1..];
  }

  /** The head of a sorted sequence is at most each of its elements. */
  lemma HeadLeAll(cmp: Comparer, s: seq<string>, y: string)
    requires TotalPreorder(cmp) && Sorted(cmp, s) && y in multiset(s)
    ensures Le(cmp, s[0], y)
  {
    var m :| 0 <= m < |s| && s[m] == y;
    if m == 0 {
      LeReflexive(cmp, y);
    }
  }

  lemma ConsSorted(cmp: Comparer, x: string, t: seq<string>)
    requires Sorted(cmp, t) && forall k :: 0 <= k < |t| ==> Le(cmp, x, t[k])
    ensures Sorted(cmp, [x] + t)
  {
    var r := [x] + t;
    forall i, j | 0 <= i < j < |r|
      ensures Le(cmp, r[i], r[j])
    {
      if i > 0 {
        assert r[i] == t[i - 1] && r[j] == t[j - 1];
      } else {
        assert r[j] == t[j - 1];
      }
    }
  }

  /** `data.sort(cmp)`: one sorted rearrangement of `s`. */
  function SortBy(cmp: Comparer, s: seq<string>): (r: seq<string>)
    ensures multiset(r) == multiset(s)
    ensures TotalPreorder(cmp) ==> Sorted(cmp, r)
  {
    if |s| == 0 then []
    else
      assert s == [s[0]] + s[1..];
      var r := Insert(cmp, s[0], SortBy(cmp, s[1..]));
      assert TotalPreorder(cmp) ==> Sorted(cmp, r) by {
        if TotalPreorder(cmp) {
          InsertSorted(cmp, s[0], SortBy(cmp, s[1..]));
        }
      }
      r
  }

  /** Under an antisymmetric total preorder there is exactly one sorted arrangement of a multiset. */
  lemma {:induction false} SortedUnique(cmp: Comparer, s: seq<string>, t: seq<string>)
    requires TotalPreorder(cmp) && Antisymmetric(cmp)
    requires Sorted(cmp, s) && Sorted(cmp, t)
    requires multiset(s) == multiset(t)
    ensures s == t
  {
    if |s| == 0 {
      assert |multiset(t)| == 0;
    } else {
      SameHeads(cmp, s, t);
      SortedUnique(cmp, s[1..], t[1..]);
      assert s == [s[0]] + s[1..] && t == [t[0]] + t[1..];
    }
  }

  /** Two sorted arrangements of one multiset start alike, and what follows is again two such arrangements. */
  lemma SameHeads(cmp: Comparer, s: seq<string>, t: seq<string>)
    requires TotalPreorder(cmp) && Antisymmetric(cmp)
    requires Sorted(cmp, s) && Sorted(cmp, t)
    requires multiset(s) == multiset(t) && |s| > 0
    ensures |t| > 0 && s[0] == t[0]
    ensures Sorted(cmp, s[1..]) && Sorted(cmp, t[1..]) && multiset(s[1..]) == multiset(t[1..])
  {
    assert |t| > 0 by { assert |multiset(t)| == |multiset(s)|; }
    assert s[0] == t[0] by {
      assert s[0] in multiset(t) && t[0] in multiset(s);
      HeadLeAll(cmp, t, s[0]);
      HeadLeAll(cmp, s, t[0]);
    }
    TailMultiset(s);
    TailMultiset(t);
    assert multiset(s[1..]) == multiset(s) - multiset{s[0]};
    assert multiset(t[1..]) == multiset(t) - multiset{t[0]};
    SortedTail(cmp, s);
    SortedTail(cmp, t);
  }

  /** All runs one after another. */
  function Flatten(runs: seq<seq<string>>): (r: seq<string>)
    ensures |runs| == 0 ==> r == []
  {
    if |runs| == 0 then [] else runs[0] + Flatten(runs[1..])
  }

  lemma {:induction false} FlattenAppend(a: seq<seq<string>>, b: seq<seq<string>>)
    ensures Flatten(a + b) == Flatten(a) + Flatten(b)
  {
    if |a| == 0 {
      assert a + b == b;
    } else {
      assert (a + b)[1..] == a[1..] + b;
      FlattenAppend(a[1..], b);
    }
  }

  /** The first `n` runs flatten to the first `n - 1` followed by run `n - 1`. */
  lemma FlattenTake(runs: seq<seq<string>>, n: nat)
    requires 0 < n <= |runs|
    ensures Flatten(runs[..n]) == Flatten(runs[..n - 1]) + runs[n - 1]
  {
    assert runs[..n] == runs[..n - 1] + [runs[n - 1]];
    FlattenAppend(runs[..n - 1], [runs[n - 1]]);
    assert [runs[n - 1]][1..] == [];
  }

  /** `lines.filter((l) => l.length > 0)`. */
  function NonEmpty(s: seq<string>): (r: seq<string>)
    ensures forall k :: 0 <= k < |r| ==> |r[k]| > 0
    ensures |r| <= |s|
  {
    if |s| == 0 then []
    else if |s[0]| > 0 then [s[0]] + NonEmpty(s[1..])
    else NonEmpty(s[1..])
  }

  lemma {:induction false} NonEmptyAppend(a: seq<string>, b: seq<string>)
    ensures NonEmpty(a + b) == NonEmpty(a) + NonEmpty(b)
  {
    if |a| == 0 {
      assert a + b == b;
    } else {
      assert (a + b)[0] == a[0];
      assert (a + b)[1..] == a[1..] + b;
      NonEmptyAppend(a[1..], b);
    }
  }

  /** Filtering keeps every non-empty element, as often as it occurs, and drops every empty one. */
  lemma {:induction false} NonEmptyCounts(s: seq<string>)
    ensures multiset(NonEmpty(s))[[]] == 0
    ensures forall x :: |x| > 0 ==> multiset(NonEmpty(s))[x] == multiset(s)[x]
  {
    if |s| > 0 {
      NonEmptyCounts(s[1..]);
      NonEmptyHead(s);
    }
  }

  /** One step of the filter, counted: the head is kept exactly when it is not empty. */
  lemma NonEmptyHead(s: seq<string>)
    requires |s| > 0
    ensures multiset(s) == multiset{s[0]} + multiset(s[1..])
    ensures multiset(NonEmpty(s)) == (if |s[0]| > 0 then multiset{s[0]} else multiset{}) + multiset(NonEmpty(s[1..]))
  {
    assert s == [s[0]] + s[1..];
  }

  /** Filtering depends only on how often each string occurs, not on the order. */
  lemma NonEmptyMultiset(a: seq<string>, b: seq<string>)
    requires multiset(a) == multiset(b)
    ensures multiset(NonEmpty(a)) == multiset(NonEmpty(b))
  {
    NonEmptyCounts(a);
    NonEmptyCounts(b);
    forall x
      ensures multiset(NonEmpty(a))[x] == multiset(NonEmpty(b))[x]
    {
      if |x| == 0 {
        assert x == [];
      }
    }
  }

  /** Filtering a sequence without empty elements changes nothing. */
  lemma {:induction false} NonEmptyKeepsAll(s: seq<string>)
    requires forall k :: 0 <= k < |s| ==> |s[k]| > 0
    ensures NonEmpty(s) == s
  {
    if |s| > 0 {
      NonEmptyKeepsAll(s[1..]);
      assert s == [s[0]] + s[1..];
    }
  }

  /** Filtering keeps a sorted sequence sorted: what remains is a subsequence. */
  lemma {:induction false} NonEmptySorted(cmp: Comparer, s: seq<string>)
    requires Sorted(cmp, s)
    ensures Sorted(cmp, NonEmpty(s))
  {
    if |s| > 0 {
      var t := s[1..];
      assert Sorted(cmp, t);
      NonEmptySorted(cmp, t);
      if |s[0]| > 0 {
        var r := NonEmpty(t);
        forall k | 0 <= k < |r|
          ensures Le(cmp, s[0], r[k])
        {
          NonEmptyCounts(t);
          assert r[k] in multiset(r);
          assert r[k] in multiset(t);
          var j :| 0 <= j < |t| && t[j] == r[k];
          assert s[j + 1] == t[j];
        }
        var full := [s[0]] + r;
        forall i, j | 0 <= i < j < |full|
          ensures Le(cmp, full[i], full[j])
        {
          if i > 0 {
            assert full[i] == r[i - 1] && full[j] == r[j - 1];
          } else {
            assert full[j] == r[j - 1];
          }
        }
      }
    }
  }
}
