/**
 * Generic sequence machinery behind `Array.prototype.filter(...).length`
 * and the stable `Array.prototype.sort` with a comparator.
 */
module Sequences {

  /** Number of elements satisfying `p`: `s.filter(p).length`. */
  function Count<T>(s: seq<T>, p: T -> bool): (n: nat)
    ensures n <= |s|
    ensures n == 0 <==> forall i :: 0 <= i < |s| ==> !p(s[i])
    ensures n == |s| <==> forall i :: 0 <= i < |s| ==> p(s[i])
  {
    if s == [] then 0 else (if p(s[0]) then 1 else 0) + Count(s[1..], p)
  }

  lemma {:induction false} CountAppend<T>(a: seq<T>, b: seq<T>, p: T -> bool)
    ensures Count(a + b, p) == Count(a, p) + Count(b, p)
    decreases |a|
  {
    if a != [] {
      assert (a + b)[0] == a[0];
      assert (a + b)[1..] == a[1..] + b;
      CountAppend(a[1..], b, p);
    } else {
      assert a + b == b;
    }
  }

  /** `le(a, b)` says `a` may be placed before `b`: the comparator returned at most 0. */
  ghost predicate TotalPreorder<T(!new)>(le: (T, T) -> bool) {
    && (forall a, b :: le(a, b) || le(b, a))
    && (forall a, b, c :: le(a, b) && le(b, c) ==> le(a, c))
  }

  predicate Sorted<T>(s: seq<T>, le: (T, T) -> bool) {
    forall i, j :: 0 <= i < j < |s| ==> le(s[i], s[j])
  }

  /** Puts `x` in front of the first element it may precede, so that equal elements keep their order. */
  function Insert<T>(x: T, s: seq<T>, le: (T, T) -> bool): (r: seq<T>)
    ensures |r| == |s| + 1
    ensures multiset(r) == multiset(s) + multiset{x}
  {
    if s == [] then [x]
    else if le(x, s[0]) then [x] + s
    else assert s == [s[0]] + s[1..]; [s[0]] + Insert(x, s[1..], le)
  }

  /** A stable sort (JavaScript's `sort` is stable since ES2019), as insertion sort. */
  function SortBy<T>(s: seq<T>, le: (T, T) -> bool): (r: seq<T>)
    ensures |r| == |s|
    ensures multiset(r) == multiset(s)
  {
    if s == [] then [] else assert s == [s[0]] + s[1..]; Insert(s[0], SortBy(s[1..], le), le)
  }

  /** `le` ranks `x` and `y` equal: each may be placed before the other. */
  predicate Tied<T>(le: (T, T) -> bool, x: T, y: T) {
    le(x, y) && le(y, x)
  }

  /** The elements of `s` that `le` ranks equal to `e`, in their order in `s`. */
  function Ties<T>(s: seq<T>, le: (T, T) -> bool, e: T): seq<T> {
    if s == [] then [] else (if Tied(le, s[0], e) then [s[0]] else []) + Ties(s[1..], le, e)
  }

  /** Inserting `x` puts it ahead of every element ranked equal to it. */
  lemma {:induction false} InsertTies<T(!new)>(x: T, s: seq<T>, le: (T, T) -> bool, e: T)
    requires TotalPreorder(le)
    ensures Ties(Insert(x, s, le), le, e) == (if Tied(le, x, e) then [x] else []) + Ties(s, le, e)
    decreases |s|
  {
    var r := Insert(x, s, le);
    if s == [] {
      assert r == [x];
    } else if le(x, s[0]) {
      assert r == [x] + s && r[1..] == s;
    } else {
      assert r == [s[0]] + Insert(x, s[1..], le) && r[1..] == Insert(x, s[1..], le);
      InsertTies(x, s[1..], le, e);
      if Tied(le, x, e) {
        assert !Tied(le, s[0], e);
      }
    }
  }

  /** The sort is stable: the elements it ranks equal keep their input order. */
  lemma {:induction false} SortByStable<T(!new)>(s: seq<T>, le: (T, T) -> bool, e: T)
    requires TotalPreorder(le)
    ensures Ties(SortBy(s, le), le, e) == Ties(s, le, e)
  {
    if s != [] {
      SortByStable(s[1..], le, e);
      InsertTies(s[0], SortBy(s[1..], le), le, e);
    }
  }

  lemma {:induction false} InsertSorted<T(!new)>(x: T, s: seq<T>, le: (T, T) -> bool)
    requires TotalPreorder(le)
    requires Sorted(s, le)
    ensures Sorted(Insert(x, s, le), le)
    decreases |s|
  {
    if s != [] && !le(x, s[0]) {
      var rest := Insert(x, s[1..], le);
      InsertSorted(x, s[1..], le);
      InsertKeepsLowerBound(x, s[1..], le, s[0]);
      assert Insert(x, s, le) == [s[0]] + rest;
    } else if s != [] {
      var r := [x] + s;
      forall i, j | 0 <= i < j < |r| ensures le(r[i], r[j]) {
        if i == 0 && j > 1 {
          assert le(s[0], s[j - 1]);
        }
      }
    }
  }

  /** An element that may precede `x` and all of `s` may precede everything in `Insert(x, s, le)`. */
  lemma InsertKeepsLowerBound<T>(x: T, s: seq<T>, le: (T, T) -> bool, y: T)
    requires le(y, x) && forall j :: 0 <= j < |s| ==> le(y, s[j])
    ensures forall j :: 0 <= j < |Insert(x, s, le)| ==> le(y, Insert(x, s, le)[j])
  {
    var r := Insert(x, s, le);
    forall j | 0 <= j < |r| ensures le(y, r[j]) {
      assert r[j] in multiset(s) + multiset{x} by {
        assert r[j] in multiset(r);
      }
      if r[j] != x {
        assert r[j] in s;
      }
    }
  }

  /** The sort's result is ordered by `le`, for any comparator that is a total preorder. */
  lemma {:induction false} SortBySorted<T(!new)>(s: seq<T>, le: (T, T) -> bool)
    requires TotalPreorder(le)
    ensures Sorted(SortBy(s, le), le)
  {
    if s != [] {
      SortBySorted(s[1..], le);
      InsertSorted(s[0], SortBy(s[1..], le), le);
    }
  }

  /** Sorting what is already sorted changes nothing. */
  lemma {:induction false} SortByIdempotent<T>(s: seq<T>, le: (T, T) -> bool)
    requires Sorted(s, le)
    ensures SortBy(s, le) == s
  {
    if s != [] {
      assert Sorted(s[1..], le);
      SortByIdempotent(s[1..], le);
      if |s| > 1 {
        assert le(s[0], s[1]);
      }
      assert [s[0]] + s[1..] == s;
    }
  }

  lemma {:induction false} CountInsert<T>(x: T, s: seq<T>, le: (T, T) -> bool, p: T -> bool)
    ensures Count(Insert(x, s, le), p) == Count([x], p) + Count(s, p)
    decreases |s|
  {
    if s != [] {
      if le(x, s[0]) {
        CountAppend([x], s, p);
      } else {
        CountInsert(x, s[1..], le, p);
        CountAppend([s[0]], Insert(x, s[1..], le), p);
        CountAppend([s[0]], s[1..], p);
        assert [s[0]] + s[1..] == s;
      }
    }
  }

  /** Sorting neither adds nor loses an element of any kind. */
  lemma {:induction false} CountSortBy<T>(s: seq<T>, le: (T, T) -> bool, p: T -> bool)
    ensures Count(SortBy(s, le), p) == Count(s, p)
  {
    if s != [] {
      CountSortBy(s[1..], le, p);
      CountInsert(s[0], SortBy(s[1..], le), le, p);
      CountAppend([s[0]], s[1..], p);
      assert [s[0]] + s[1..] == s;
    }
  }

  /** The first `n` elements of a sorted sequence: `s.slice(0, n)`. */
  function Take<T>(s: seq<T>, n: nat): (r: seq<T>)
    ensures |r| == if n <= |s| then n else |s|
    ensures r == s[..|r|]
  {
    if n <= |s| then s[..n] else s
  }

  /** In a sorted sequence every element of a prefix may precede every element after it. */
  lemma SortedPrefixDominates<T>(s: seq<T>, le: (T, T) -> bool, n: nat)
    requires Sorted(s, le) && n <= |s|
    ensures forall x, y :: x in s[..n] && y in s[n..] ==> le(x, y)
  {
    forall x, y | x in s[..n] && y in s[n..] ensures le(x, y) {
      var i :| 0 <= i < n && s[..n][i] == x;
      var j :| 0 <= j < |s| - n && s[n..][j] == y;
      assert s[i] == x && s[n + j] == y;
    }
  }

  /**
   * `sort(le).slice(0, n)`: the first `n` elements in `le` order, taken from
   * `s`, and none left out may precede one taken.
   */
  lemma TopOfSorted<T(!new)>(s: seq<T>, le: (T, T) -> bool, n: nat)
    requires TotalPreorder(le)
    ensures |Take(SortBy(s, le), n)| == if n <= |s| then n else |s|
    ensures forall t :: t in Take(SortBy(s, le), n) ==> t in s
    ensures multiset(Take(SortBy(s, le), n)) <= multiset(s)
    ensures Sorted(Take(SortBy(s, le), n), le)
    ensures forall x, y :: x in Take(SortBy(s, le), n) && y in s && y !in Take(SortBy(s, le), n) ==> le(x, y)
  {
    var sorted := SortBy(s, le);
    SortedMembers(s, le);
    SortBySorted(s, le);
    TopDominates(sorted, le, n);
    TakeSubMultiset(sorted, n);
  }

  /** Taking at least as many elements as there are keeps them all. */
  lemma TakeAll<T>(s: seq<T>, n: nat)
    requires |s| <= n
    ensures Take(s, n) == s
  {
  }

  /** A prefix holds each element at most as often as the whole sequence. */
  lemma TakeSubMultiset<T>(s: seq<T>, n: nat)
    ensures multiset(Take(s, n)) <= multiset(s)
  {
    assert s == Take(s, n) + s[|Take(s, n)|..];
  }

  /** Sorting keeps exactly the elements. */
  lemma SortedMembers<T>(s: seq<T>, le: (T, T) -> bool)
    ensures forall t :: t in SortBy(s, le) <==> t in s
  {
    var sorted := SortBy(s, le);
    assert forall t :: t in sorted <==> t in multiset(sorted);
  }

  /** A prefix of a sorted sequence is sorted, and no element after it may precede one in it. */
  lemma TopDominates<T>(sorted: seq<T>, le: (T, T) -> bool, n: nat)
    requires Sorted(sorted, le)
    ensures Sorted(Take(sorted, n), le)
    ensures forall x, y :: x in Take(sorted, n) && y in sorted && y !in Take(sorted, n) ==> le(x, y)
  {
    var top := Take(sorted, n);
    SortedPrefixDominates(sorted, le, |top|);
    assert sorted == top + sorted[|top|..];
  }

  /** `a` is `b` with some elements left out, the rest in their original order. */
  predicate IsSubsequence<T(==)>(a: seq<T>, b: seq<T>)
    decreases |a| + |b|
  {
    a == [] || (b != [] && ((a[0] == b[0] && IsSubsequence(a[1..], b[1..])) || IsSubsequence(a, b[1..])))
  }

  lemma {:induction false} SubsequenceReflexive<T>(s: seq<T>)
    ensures IsSubsequence(s, s)
  {
    if s != [] {
      SubsequenceReflexive(s[1..]);
    }
  }

  lemma {:induction false} SubsequenceTransitive<T>(a: seq<T>, b: seq<T>, c: seq<T>)
    requires IsSubsequence(a, b) && IsSubsequence(b, c)
    ensures IsSubsequence(a, c)
    decreases |a| + |b| + |c|
  {
    if a != [] {
      if IsSubsequence(b, c[1..]) {
        SubsequenceTransitive(a, b, c[1..]);
      } else if a[0] == b[0] && IsSubsequence(a[1..], b[1..]) {
        SubsequenceTransitive(a[1..], b[1..], c[1..]);
      } else {
        SubsequenceTransitive(a, b[1..], c[1..]);
      }
    }
  }
}
