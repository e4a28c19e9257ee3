/** The small part of JavaScript's array library that the pipeline code leans on,
    over Dafny sequences: identity search (`findIndex`, `includes`), the two
    `filter` shapes the code uses, and `splice` with the ECMAScript rules for a
    negative or out-of-range start position. */
module JsArray {

  datatype Option<+T> = None | Some(value: T)

  /** `s.findIndex(a => a === x)`: the first index holding x, or -1. */
  function FindIndex<T(==,!new)>(s: seq<T>, x: T): (i: int)
    ensures -1 <= i < |s|
    ensures i == -1 <==> x !in s
    ensures 0 <= i ==> s[i] == x && x !in s[..i]
    ensures 0 <= i ==> forall k :: 0 <= k < i ==> s[k] != x
  {
    if |s| == 0 then -1
    else if s[0] == x then 0
    else
      var j := FindIndex(s[1..], x);
      assert j >= 0 ==> s[..j + 1] == [s[0]] + s[1..][..j];
      if j == -1 then -1 else j + 1
  }

  /** The index of the first x is where x occurs with no x before it. */
  lemma FindIndexAt<T(!new)>(s: seq<T>, x: T, i: nat)
    requires i < |s| && s[i] == x && forall k :: 0 <= k < i ==> s[k] != x
    ensures FindIndex(s, x) == i
  {
  }

  /** `s.filter(a => a !== x)`. */
  function Without<T(==,!new)>(s: seq<T>, x: T): (r: seq<T>)
    ensures x !in r
    ensures forall y :: y in r ==> y in s
    ensures forall y :: y != x ==> multiset(r)[y] == multiset(s)[y]
    ensures x !in s ==> r == s
  {
    if |s| == 0 then []
    else
      assert s == [s[0]] + s[1..];
      (if s[0] == x then [] else [s[0]]) + Without(s[1..], x)
  }

  /** `s.filter(a => !xs.includes(a))`. */
  function WithoutAll<T(==,!new)>(s: seq<T>, xs: seq<T>): (r: seq<T>)
    ensures |r| <= |s|
  {
    if |s| == 0 then []
    else (if s[0] in xs then [] else [s[0]]) + WithoutAll(s[1..], xs)
  }

  /** What survives the filter: exactly the entries not listed in xs. */
  lemma {:induction false} WithoutAllMembers<T(!new)>(s: seq<T>, xs: seq<T>)
    ensures forall y :: y in WithoutAll(s, xs) <==> y in s && y !in xs
  {
    if |s| > 0 {
      WithoutAllMembers(s[1..], xs);
      assert s == [s[0]] + s[1..];
    }
  }

  /** A filter that matches nothing changes nothing. */
  lemma {:induction false} WithoutAllNone<T(!new)>(s: seq<T>, xs: seq<T>)
    requires forall y :: y in s ==> y !in xs
    ensures WithoutAll(s, xs) == s
  {
    if |s| > 0 {
      assert s[0] in s;
      assert forall y :: y in s[1..] ==> y in s;
      WithoutAllNone(s[1..], xs);
      assert s == [s[0]] + s[1..];
    }
  }

  /** A filter that matches everything leaves nothing. */
  lemma {:induction false} WithoutAllEvery<T(!new)>(s: seq<T>, xs: seq<T>)
    requires forall y :: y in s ==> y in xs
    ensures WithoutAll(s, xs) == []
  {
    if |s| > 0 {
      assert s[0] in s;
      assert forall y :: y in s[1..] ==> y in s;
      WithoutAllEvery(s[1..], xs);
    }
  }

  /** Filtering distributes over concatenation: `filter` keeps the order. */
  lemma {:induction false} WithoutConcat<T(!new)>(a: seq<T>, b: seq<T>, x: T)
    ensures Without(a + b, x) == Without(a, x) + Without(b, x)
  {
    if |a| > 0 {
      assert (a + b)[0] == a[0];
      assert (a + b)[1..] == a[1..] + b;
      WithoutConcat(a[1..], b, x);
      assert Without(a + b, x) == (if a[0] == x then [] else [a[0]]) + Without(a[1..] + b, x);
    } else {
      assert a + b == b;
    }
  }

  lemma {:induction false} WithoutAllConcat<T(!new)>(a: seq<T>, b: seq<T>, xs: seq<T>)
    ensures WithoutAll(a + b, xs) == WithoutAll(a, xs) + WithoutAll(b, xs)
  {
    if |a| == 0 {
      assert a + b == b;
    } else {
      var head := if a[0] in xs then [] else [a[0]];
      calc {
        WithoutAll(a + b, xs);
        { assert (a + b)[0] == a[0] && (a + b)[1..] == a[1..] + b; }
        head + WithoutAll(a[1..] + b, xs);
        { WithoutAllConcat(a[1..], b, xs); }
        head + (WithoutAll(a[1..], xs) + WithoutAll(b, xs));
        (head + WithoutAll(a[1..], xs)) + WithoutAll(b, xs);
        WithoutAll(a, xs) + WithoutAll(b, xs);
      }
    }
  }

  /** The position `splice` really starts at: a negative start counts back from
      the end (and stops at 0), a start past the end is the end. */
  function SpliceStart(len: nat, start: int): (k: nat)
    ensures k <= len
    ensures 0 <= start <= len ==> k == start
  {
    if start < 0 then (if len + start < 0 then 0 else len + start)
    else if start > len then len
    else start
  }

  /** The array that `s.splice(start, deleteCount, ...items)` leaves behind. */
  function Splice<T(!new)>(s: seq<T>, start: int, deleteCount: nat, items: seq<T>): (r: seq<T>)
    ensures forall x :: x in r ==> x in s || x in items
  {
    var k := SpliceStart(|s|, start);
    var e := if k + deleteCount <= |s| then k + deleteCount else |s|;
    s[..k] + items + s[e..]
  }

  /** A splice that deletes nothing inserts the items at the start position. */
  lemma SpliceInsert<T(!new)>(s: seq<T>, k: nat, items: seq<T>)
    requires k <= |s|
    ensures Splice(s, k, 0, items) == s[..k] + items + s[k..]
  {
  }

  /** Cutting a concatenation where its parts meet gives the parts back. */
  lemma SplitAt<T>(a: seq<T>, b: seq<T>)
    ensures (a + b)[..|a|] == a && (a + b)[|a|..] == b
  {
  }

  /** A list is its three pieces cut at i and j, put back together. */
  lemma ThreeParts<T>(s: seq<T>, i: nat, j: nat)
    requires i <= j <= |s|
    ensures s == s[..i] + s[i..j] + s[j..]
  {
    assert s[..j] == s[..i] + s[i..j];
    assert s == s[..j] + s[j..];
  }

  /** A non-empty list is its head before its tail, also in front of more. */
  lemma ConsSplit<T>(a: seq<T>, b: seq<T>)
    requires |a| > 0
    ensures a == [a[0]] + a[1..] && a + b == [a[0]] + (a[1..] + b)
  {
    assert a == [a[0]] + a[1..];
  }

  /** Concatenation is associative. */
  lemma Associative<T>(a: seq<T>, b: seq<T>, c: seq<T>)
    ensures a + (b + c) == (a + b) + c
  {
  }

  /** n copies of x: what n listeners are each handed. */
  function Repeat<T>(n: nat, x: T): (r: seq<T>)
    ensures |r| == n && forall i :: 0 <= i < n ==> r[i] == x
  {
    seq(n, _ => x)
  }

  /** No element occurs twice. */
  predicate Distinct<T(==,!new)>(s: seq<T>)
  {
    forall i, j :: 0 <= i < j < |s| ==> s[i] != s[j]
  }
}
