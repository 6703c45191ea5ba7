/**
 * The comparator factory `_getComparer` (src/ExternalSort.ts, and identically in the older
 * ExternalSort.ts / ExternalSort.js): locale collation or ordinal code-unit comparison, ascending
 * or descending.
 */
module Comparator {
  import opened Order
  import opened Wrappers
  import Strings
  import Utf16

  /** `ExternalSortOrder`. */
  datatype SortOrder = Asc | Desc

  /** JavaScript `<` on code-unit sequences: first differing unit decides, a proper prefix comes first. */
  predicate UnitsLess(a: seq<int>, b: seq<int>)
    decreases |a|
  {
    |b| > 0 && (|a| == 0 || a[0] < b[0] || (a[0] == b[0] && UnitsLess(a[1..], b[1..])))
  }

  /** JavaScript `a > b` on strings. */
  predicate Greater(a: string, b: string) {
    UnitsLess(Utf16.Encode(b), Utf16.Encode(a))
  }

  lemma {:induction false} UnitsLessIrreflexive(a: seq<int>)
    ensures !UnitsLess(a, a)
  {
    if |a| > 0 {
      UnitsLessIrreflexive(a[1..]);
    }
  }

  lemma {:induction false} UnitsLessTransitive(a: seq<int>, b: seq<int>, c: seq<int>)
    requires UnitsLess(a, b) && UnitsLess(b, c)
    ensures UnitsLess(a, c)
  {
    if |a| > 0 && a[0] == b[0] && b[0] == c[0] {
      UnitsLessTransitive(a[1..], b[1..], c[1..]);
    }
  }

  lemma {:induction false} UnitsLessTrichotomy(a: seq<int>, b: seq<int>)
    ensures a == b || UnitsLess(a, b) || UnitsLess(b, a)
  {
    if |a| > 0 && |b| > 0 && a[0] == b[0] {
      UnitsLessTrichotomy(a[1..], b[1..]);
      if a[1..] == b[1..] {
        assert a == [a[0]] + a[1..] && b == [b[0]] + b[1..];
      }
    }
  }

  lemma UnitsLessAsymmetric(a: seq<int>, b: seq<int>)
    requires UnitsLess(a, b)
    ensures !UnitsLess(b, a)
  {
    if UnitsLess(b, a) {
      UnitsLessTransitive(a, b, a);
      UnitsLessIrreflexive(a);
    }
  }

  /**
   * `_getComparer()`: `localeCompare` when locale order is used, the `>` operator otherwise. In
   * ordinal mode the answer is 1 or -1 and never 0, and equal strings compare as -1 in either
   * direction.
   */
  function GetComparer(order: SortOrder, useLocaleOrder: bool, localeCompare: Comparer): (cmp: Comparer)
    ensures !useLocaleOrder ==> forall a, b :: cmp(a, b) == 1 || cmp(a, b) == -1
    ensures !useLocaleOrder ==> forall a :: cmp(a, a) == -1
  {
    assert forall a :: !Greater(a, a) by {
      forall a
        ensures !Greater(a, a)
      {
        UnitsLessIrreflexive(Utf16.Encode(a));
      }
    }
    if useLocaleOrder then
      if order == Desc then (a: string, b: string) => localeCompare(b, a) else localeCompare
    else
      if order == Desc then (a: string, b: string) => if Greater(b, a) then 1 else -1
      else (a: string, b: string) => if Greater(a, b) then 1 else -1
  }

  /** The descending comparator is the ascending one with its arguments swapped, in both modes. */
  lemma DescSwapsAsc(useLocaleOrder: bool, localeCompare: Comparer, a: string, b: string)
    ensures GetComparer(Desc, useLocaleOrder, localeCompare)(a, b)
         == GetComparer(Asc, useLocaleOrder, localeCompare)(b, a)
  {
  }

  /** Ascending ordinal mode puts `a` first exactly when `a`'s code units are lexicographically at most `b`'s. */
  lemma OrdinalMeaning(localeCompare: Comparer, a: string, b: string)
    ensures Le(GetComparer(Asc, false, localeCompare), a, b)
        <==> (a == b || UnitsLess(Utf16.Encode(a), Utf16.Encode(b)))
    ensures Le(GetComparer(Desc, false, localeCompare), a, b)
        <==> (a == b || UnitsLess(Utf16.Encode(b), Utf16.Encode(a)))
  {
    var ua, ub := Utf16.Encode(a), Utf16.Encode(b);
    UnitsLessTrichotomy(ua, ub);
    UnitsLessIrreflexive(ua);
    if UnitsLess(ua, ub) {
      UnitsLessAsymmetric(ua, ub);
    }
    if UnitsLess(ub, ua) {
      UnitsLessAsymmetric(ub, ua);
    }
    if ua == ub {
      Utf16.EncodeInjective(a, b);
    }
  }

  /** In ordinal mode `cmp(a, b) <= 0` is a total order on strings, in both directions. */
  lemma OrdinalTotalOrder(order: SortOrder, localeCompare: Comparer)
    ensures TotalPreorder(GetComparer(order, false, localeCompare))
    ensures Antisymmetric(GetComparer(order, false, localeCompare))
  {
    var cmp := GetComparer(order, false, localeCompare);
    forall a, b
      ensures Le(cmp, a, b) || Le(cmp, b, a)
    {
      OrdinalMeaning(localeCompare, a, b);
      OrdinalMeaning(localeCompare, b, a);
      UnitsLessTrichotomy(Utf16.Encode(a), Utf16.Encode(b));
    }
    forall a, b, c | Le(cmp, a, b) && Le(cmp, b, c)
      ensures Le(cmp, a, c)
    {
      OrdinalMeaning(localeCompare, a, b);
      OrdinalMeaning(localeCompare, b, c);
      OrdinalMeaning(localeCompare, a, c);
      var ua, ub, uc := Utf16.Encode(a), Utf16.Encode(b), Utf16.Encode(c);
      if a != b && b != c {
        if order == Asc {
          UnitsLessTransitive(ua, ub, uc);
        } else {
          UnitsLessTransitive(uc, ub, ua);
        }
      }
    }
    forall a, b | Le(cmp, a, b) && Le(cmp, b, a)
      ensures a == b
    {
      OrdinalMeaning(localeCompare, a, b);
      OrdinalMeaning(localeCompare, b, a);
      if a != b {
        UnitsLessAsymmetric(Utf16.Encode(a), Utf16.Encode(b));
        UnitsLessAsymmetric(Utf16.Encode(b), Utf16.Encode(a));
      }
    }
  }

  /** Swapping the arguments of a total preorder gives a total preorder, so descending locale order is one too. */
  lemma LocaleComparerTotalPreorder(order: SortOrder, localeCompare: Comparer)
    requires TotalPreorder(localeCompare)
    ensures TotalPreorder(GetComparer(order, true, localeCompare))
  {
    var cmp := GetComparer(order, true, localeCompare);
    if order == Desc {
      forall a, b
        ensures Le(cmp, a, b) || Le(cmp, b, a)
      {
        assert Le(localeCompare, b, a) || Le(localeCompare, a, b);
      }
      forall a, b, c | Le(cmp, a, b) && Le(cmp, b, c)
        ensures Le(cmp, a, c)
      {
        assert Le(localeCompare, c, b) && Le(localeCompare, b, a);
      }
    }
  }

  /** Whatever the mode, the comparator is a total preorder when the locale collation is one. */
  lemma ComparerTotalPreorder(order: SortOrder, useLocaleOrder: bool, localeCompare: Comparer)
    requires useLocaleOrder ==> TotalPreorder(localeCompare)
    ensures TotalPreorder(GetComparer(order, useLocaleOrder, localeCompare))
  {
    if useLocaleOrder {
      LocaleComparerTotalPreorder(order, localeCompare);
    } else {
      OrdinalTotalOrder(order, localeCompare);
    }
  }

  /** The direction as the older ExternalSort.js reads it: `orderBy?.toLowerCase() ?? 'asc'`, then `=== 'desc'`. */
  function LegacyOrder(orderBy: Option<string>): (order: SortOrder)
    ensures order == Desc <==> orderBy.Some? && Strings.AsciiLower(orderBy.value) == "desc"
  {
    if Strings.AsciiLower(orderBy.GetOr("asc")) == "desc" then Desc else Asc
  }

  /** Upper-case spellings select descending order in the older ExternalSort.js. */
  lemma LegacyOrderIgnoresCase()
    ensures LegacyOrder(Some("DESC")) == Desc
    ensures LegacyOrder(Some("Desc")) == Desc
    ensures LegacyOrder(None) == Asc
  {
    assert Strings.AsciiLower("DESC") == "desc";
    assert Strings.AsciiLower("Desc") == "desc";
    assert Strings.AsciiLower("asc") == "asc";
  }

  /** The order `Array.prototype.sort` uses without a comparer: ascending code units, equal strings tie. */
  const DefaultSortOrder: Comparer :=
    (a: string, b: string) =>
      if UnitsLess(Utf16.Encode(a), Utf16.Encode(b)) then -1
      else if UnitsLess(Utf16.Encode(b), Utf16.Encode(a)) then 1
      else 0

  /** The default sort orders strings exactly as the ascending ordinal comparator does. */
  lemma DefaultIsOrdinalAsc(localeCompare: Comparer, a: string, b: string)
    ensures Le(DefaultSortOrder, a, b) <==> Le(GetComparer(Asc, false, localeCompare), a, b)
  {
    OrdinalMeaning(localeCompare, a, b);
    var ua, ub := Utf16.Encode(a), Utf16.Encode(b);
    UnitsLessTrichotomy(ua, ub);
    if UnitsLess(ua, ub) {
      UnitsLessAsymmetric(ua, ub);
    }
    if ua == ub {
      Utf16.EncodeInjective(a, b);
    }
  }

  lemma DefaultSortTotalOrder()
    ensures TotalPreorder(DefaultSortOrder) && Antisymmetric(DefaultSortOrder)
  {
    var asc := GetComparer(Asc, false, DefaultSortOrder);
    OrdinalTotalOrder(Asc, DefaultSortOrder);
    forall a, b ensures Le(DefaultSortOrder, a, b) <==> Le(asc, a, b) {
      DefaultIsOrdinalAsc(DefaultSortOrder, a, b);
    }
  }
}
