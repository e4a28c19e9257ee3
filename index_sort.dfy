/** Sorting lists of array indices. `Array.prototype.sort()` without a
    comparator orders numbers by their text, so 10 comes before 9; a numeric
    comparator orders them by value. Both are modelled as the same stable
    insertion sort, parameterised by the "comes before" relation. */
module IndexSort {
  import opened JsText

  /** Insert x before the first element it comes before (after any equal
      ones, which keeps the sort stable). */
  function Insert(x: int, s: seq<int>, before: (int, int) -> bool): (r: seq<int>)
    ensures multiset(r) == multiset(s) + multiset{x}
    ensures |r| == |s| + 1
  {
    if |s| == 0 || before(x, s[0]) then [x] + s
    else
      assert s == [s[0]] + s[1..];
      [s[0]] + Insert(x, s[1..], before)
  }

  /** Insertion sort, taking the elements left to right. */
  function SortBy(xs: seq<int>, before: (int, int) -> bool): (r: seq<int>)
    ensures multiset(r) == multiset(xs)
    ensures |r| == |xs|
  {
    if |xs| == 0 then []
    else
      assert xs == xs[..|xs| - 1] + [xs[|xs| - 1]];
      Insert(xs[|xs| - 1], SortBy(xs[..|xs| - 1], before), before)
  }

  /** The order `sort()` uses: by the numbers' text. */
  predicate TextBefore(a: int, b: int)
  {
    StringLess(IntToString(a), IntToString(b))
  }

  /** `sort()` with no comparator, as the source calls it: the same indices,
      none of them placed after one whose text it precedes. */
  function TextSort(xs: seq<int>): (r: seq<int>)
    ensures multiset(r) == multiset(xs)
    ensures OrderedBy(r, TextBefore)
  {
    TextOrder();
    SortByOrdered(xs, TextBefore);
    SortBy(xs, TextBefore)
  }

  /** The text order is a strict order. */
  lemma TextOrder()
    ensures StrictOrder(TextBefore)
  {
    forall a, b | TextBefore(a, b) ensures !TextBefore(b, a) {
      StringLessAsymmetric(IntToString(a), IntToString(b));
    }
    forall a, b, c | TextBefore(a, b) && TextBefore(b, c) ensures TextBefore(a, c) {
      StringLessTransitive(IntToString(a), IntToString(b), IntToString(c));
    }
  }

  /** A "comes before" relation that is asymmetric and transitive. */
  ghost predicate StrictOrder(before: (int, int) -> bool)
  {
    && (forall a, b :: before(a, b) ==> !before(b, a))
    && (forall a, b, c :: before(a, b) && before(b, c) ==> before(a, c))
  }

  /** One use of asymmetry. */
  lemma Asymmetric(a: int, b: int, before: (int, int) -> bool)
    requires StrictOrder(before)
    ensures before(a, b) ==> !before(b, a)
  {
  }

  /** One use of transitivity. */
  lemma Transitive(a: int, b: int, c: int, before: (int, int) -> bool)
    requires StrictOrder(before)
    ensures before(a, b) && before(b, c) ==> before(a, c)
  {
  }

  /** No element comes before one placed ahead of it. */
  predicate OrderedBy(s: seq<int>, before: (int, int) -> bool)
  {
    forall i, j :: 0 <= i < j < |s| ==> !before(s[j], s[i])
  }

  /** An element that comes after none of an ordered list can go in front. */
  lemma OrderedCons(h: int, t: seq<int>, before: (int, int) -> bool)
    requires OrderedBy(t, before) && forall k :: 0 <= k < |t| ==> !before(t[k], h)
    ensures OrderedBy([h] + t, before)
  {
    var s := [h] + t;
    forall i, j | 0 <= i < j < |s| ensures !before(s[j], s[i]) {
      assert s[j] == t[j - 1];
      if i > 0 {
        assert s[i] == t[i - 1];
      }
    }
  }

  /** Inserting into an ordered list keeps it ordered, for a strict order. */
  lemma {:induction false} InsertOrdered(x: int, s: seq<int>, before: (int, int) -> bool)
    requires StrictOrder(before) && OrderedBy(s, before)
    ensures OrderedBy(Insert(x, s, before), before)
  {
    if |s| == 0 {
      assert Insert(x, s, before) == [x];
    } else if before(x, s[0]) {
      forall k | 0 <= k < |s| ensures !before(s[k], x) {
        if k > 0 {
          assert !before(s[k], s[0]);
          Transitive(s[k], x, s[0], before);
        } else {
          Asymmetric(x, s[0], before);
        }
      }
      OrderedCons(x, s, before);
    } else {
      InsertOrdered(x, s[1..], before);
      var rest := Insert(x, s[1..], before);
      assert forall y :: y in multiset(rest) ==> y == x || y in multiset(s[1..]);
      forall k | 0 <= k < |rest| ensures !before(rest[k], s[0]) {
        assert rest[k] in multiset(rest);
        if rest[k] != x {
          assert rest[k] in multiset(s[1..]);
          var m :| 0 <= m < |s[1..]| && s[1..][m] == rest[k];
          assert s[m + 1] == rest[k];
        }
      }
      OrderedCons(s[0], rest, before);
    }
  }

  /** Insertion sort by a strict order yields an ordered list. */
  lemma {:induction false} SortByOrdered(xs: seq<int>, before: (int, int) -> bool)
    requires StrictOrder(before)
    ensures OrderedBy(SortBy(xs, before), before)
  {
    if |xs| > 0 {
      SortByOrdered(xs[..|xs| - 1], before);
      InsertOrdered(xs[|xs| - 1], SortBy(xs[..|xs| - 1], before), before);
    }
  }

  /** The order a numeric comparator gives: by value. */
  predicate ValueBefore(a: int, b: int)
  {
    a < b
  }

  /** Sorting by numeric value. */
  function NumericSort(xs: seq<int>): seq<int>
  {
    SortBy(xs, ValueBefore)
  }

  predicate Ascending(s: seq<int>)
  {
    forall i, j :: 0 <= i < j < |s| ==> s[i] <= s[j]
  }

  /** Inserting into an ascending list by value keeps it ascending. */
  lemma {:induction false} InsertAscending(x: int, s: seq<int>)
    requires Ascending(s)
    ensures Ascending(Insert(x, s, ValueBefore))
  {
    if |s| == 0 {
      assert Insert(x, s, ValueBefore) == [x];
    } else if ValueBefore(x, s[0]) {
      assert forall k :: 0 <= k < |s| ==> x <= s[k];
      AscendingCons(x, s);
    } else {
      InsertAscending(x, s[1..]);
      var rest := Insert(x, s[1..], ValueBefore);
      assert forall y :: y in multiset(rest) ==> y == x || y in multiset(s[1..]);
      forall k | 0 <= k < |rest| ensures s[0] <= rest[k] {
        assert rest[k] in multiset(rest);
        if rest[k] != x {
          assert rest[k] in multiset(s[1..]);
          var m :| 0 <= m < |s[1..]| && s[1..][m] == rest[k];
          assert s[m + 1] == rest[k];
        }
      }
      AscendingCons(s[0], rest);
    }
  }

  /** An element no larger than any of an ascending list can go in front. */
  lemma AscendingCons(h: int, t: seq<int>)
    requires Ascending(t) && forall k :: 0 <= k < |t| ==> h <= t[k]
    ensures Ascending([h] + t)
  {
    var s := [h] + t;
    forall i, j | 0 <= i < j < |s| ensures s[i] <= s[j] {
      assert s[j] == t[j - 1];
      if i > 0 {
        assert s[i] == t[i - 1];
      }
    }
  }

  /** The numeric sort is ascending and a permutation of its input. */
  lemma {:induction false} NumericSortAscending(xs: seq<int>)
    ensures Ascending(NumericSort(xs)) && multiset(NumericSort(xs)) == multiset(xs)
  {
    if |xs| > 0 {
      NumericSortAscending(xs[..|xs| - 1]);
      InsertAscending(xs[|xs| - 1], NumericSort(xs[..|xs| - 1]));
    }
  }

  /** The head of an ascending list is its least element. */
  lemma HeadLeast(s: seq<int>, x: int)
    requires Ascending(s) && x in multiset(s)
    ensures |s| > 0 && s[0] <= x
  {
    var i :| 0 <= i < |s| && s[i] == x;
  }

  /** Dropping the head removes one copy of it. */
  lemma DropHead(s: seq<int>)
    requires |s| > 0
    ensures multiset(s[1..]) == multiset(s) - multiset{s[0]}
  {
    assert s == [s[0]] + s[1..];
  }

  /** Two ascending lists with the same elements start with the same element. */
  lemma SameHead(a: seq<int>, b: seq<int>)
    requires Ascending(a) && Ascending(b) && multiset(a) == multiset(b) && |a| > 0
    ensures |b| > 0 && a[0] == b[0]
  {
    assert a[0] in multiset(b);
    HeadLeast(b, a[0]);
    assert b[0] in multiset(a);
    HeadLeast(a, b[0]);
  }

  /** The tail of an ascending list is ascending. */
  lemma AscendingTail(s: seq<int>)
    requires Ascending(s) && |s| > 0
    ensures Ascending(s[1..])
  {
  }

  /** Two ascending lists holding the same elements are the same list: the
      numeric sort has only one possible result. */
  lemma {:induction false} AscendingUnique(a: seq<int>, b: seq<int>)
    requires Ascending(a) && Ascending(b) && multiset(a) == multiset(b)
    ensures a == b
  {
    if |a| == 0 {
      assert |multiset(b)| == 0;
    } else {
      SameHead(a, b);
      DropHead(a);
      DropHead(b);
      AscendingTail(a);
      AscendingTail(b);
      AscendingUnique(a[1..], b[1..]);
      assert a == [a[0]] + a[1..];
      assert b == [b[0]] + b[1..];
    }
  }

  /** lo, lo+1, ..., lo+n-1. */
  function Range(lo: int, n: nat): (r: seq<int>)
    ensures |r| == n && forall i :: 0 <= i < n ==> r[i] == lo + i
  {
    seq(n, i => lo + i)
  }

  /** Each element is one less than the next: the test the selection check
      applies to the sorted indices. */
  predicate Steps(s: seq<int>)
  {
    forall i :: 0 <= i < |s| - 1 ==> s[i] == s[i + 1] - 1
  }

  /** In a stepping list the element at position i is i above the first. */
  lemma {:induction false} StepsAt(s: seq<int>, i: nat)
    requires Steps(s) && i < |s|
    ensures s[i] == s[0] + i
  {
    if i > 0 {
      StepsAt(s, i - 1);
    }
  }

  /** A stepping list is a range. */
  lemma StepsRange(s: seq<int>)
    requires Steps(s) && |s| > 0
    ensures s == Range(s[0], |s|)
  {
    forall i | 0 <= i < |s| ensures s[i] == s[0] + i {
      StepsAt(s, i);
    }
  }

  /** A range steps and ascends. */
  lemma RangeSteps(lo: int, n: nat)
    ensures Steps(Range(lo, n)) && Ascending(Range(lo, n))
  {
  }

  /** Any list that sorts, by value, into a stepping list is a range in some
      order, and the converse: the numeric sort of a permuted range is that range. */
  lemma NumericSortRange(xs: seq<int>, lo: int)
    requires multiset(xs) == multiset(Range(lo, |xs|))
    ensures NumericSort(xs) == Range(lo, |xs|)
  {
    NumericSortAscending(xs);
    RangeSteps(lo, |xs|);
    AscendingUnique(NumericSort(xs), Range(lo, |xs|));
  }
}
