/** Comparator sorting, as `Array.prototype.sort(compare)` (stable since ES2019) and LINQ
    `OrderBy` / `OrderByDescending` do it: a stable insertion sort parameterised by a
    "sorts no later than" relation `le`. */
module Sorting {

  /** `le` is total and transitive: what a consistent comparator induces. */
  ghost predicate TotalPreorder<T(!new)>(le: (T, T) -> bool) {
    && (forall a, b :: le(a, b) || le(b, a))
    && (forall a, b, c :: le(a, b) && le(b, c) ==> le(a, c))
  }

  predicate SortedBy<T>(s: seq<T>, le: (T, T) -> bool) {
    forall i, j :: 0 <= i < j < |s| ==> le(s[i], s[j])
  }

  /** Inserts `x` before the first element it sorts no later than. */
  function Insert<T(==)>(x: T, s: seq<T>, le: (T, T) -> bool): (r: seq<T>)
    ensures multiset(r) == multiset(s) + multiset{x}
    ensures |r| == |s| + 1
  {
    if s == [] then [x]
    else if le(x, s[0]) then [x] + s
    else
      assert s == [s[0]] + s[1..];
      [s[0]] + Insert(x, s[1..], le)
  }

  /** The sorted copy of `s`; the result is a permutation of `s`. */
  function Sort<T(==)>(s: seq<T>, le: (T, T) -> bool): (r: seq<T>)
    ensures multiset(r) == multiset(s)
    ensures |r| == |s|
  {
    if s == [] then []
    else
      assert s == [s[0]] + s[1..];
      Insert(s[0], Sort(s[1..], le), le)
  }

  /** The last element of the sorted copy is one of the elements. */
  lemma SortLastIn<T>(s: seq<T>, le: (T, T) -> bool)
    requires s != []
    ensures Sort(s, le)[|s| - 1] in s
  {
    var r := Sort(s, le);
    assert r[|s| - 1] in multiset(r);
  }

  /** `le` is total and transitive on the elements of `xs`: enough for a comparator
      that is only consistent on the values actually sorted. */
  ghost predicate TotalPreorderOn<T(!new)>(le: (T, T) -> bool, xs: seq<T>) {
    && (forall a, b :: a in xs && b in xs ==> le(a, b) || le(b, a))
    && (forall a, b, c :: a in xs && b in xs && c in xs && le(a, b) && le(b, c) ==> le(a, c))
  }

  lemma TotalPreorderOnSub<T(!new)>(le: (T, T) -> bool, xs: seq<T>, ys: seq<T>)
    requires TotalPreorderOn(le, ys)
    requires forall a :: a in xs ==> a in ys
    ensures TotalPreorderOn(le, xs)
  {
  }

  /** Everything in `Insert(x, s)` is `x` or an element of `s`. */
  lemma InsertFrom<T(!new)>(x: T, s: seq<T>, le: (T, T) -> bool, y: T)
    requires y in Insert(x, s, le)
    ensures y == x || y in s
  {
    assert y in multiset(Insert(x, s, le));
  }

  /** When `x` goes after the head, the head still sorts no later than anything that
      follows it. */
  lemma HeadBeforeInserted<T(!new)>(x: T, s: seq<T>, le: (T, T) -> bool)
    requires s != [] && TotalPreorderOn(le, [x] + s) && SortedBy(s, le) && !le(x, s[0])
    ensures forall y :: y in Insert(x, s[1..], le) ==> le(s[0], y)
  {
    assert s[0] in [x] + s && x in [x] + s;
    assert le(s[0], x);
    forall y | y in Insert(x, s[1..], le) ensures le(s[0], y) {
      InsertFrom(x, s[1..], le, y);
      if y != x {
        var k :| 0 <= k < |s[1..]| && s[1..][k] == y;
        assert s[k + 1] == y;
      }
    }
  }

  lemma {:induction false} InsertSorted<T(!new)>(x: T, s: seq<T>, le: (T, T) -> bool)
    requires TotalPreorderOn(le, [x] + s) && SortedBy(s, le)
    ensures SortedBy(Insert(x, s, le), le)
  {
    if s != [] && !le(x, s[0]) {
      var t := Insert(x, s[1..], le);
      TotalPreorderOnSub(le, [x] + s[1..], [x] + s);
      InsertSorted(x, s[1..], le);
      HeadBeforeInserted(x, s, le);
      var r := [s[0]] + t;
      forall i, j | 0 <= i < j < |r| ensures le(r[i], r[j]) {
        if i == 0 {
          assert r[j] == t[j - 1] && r[j] in t;
        } else {
          assert r[i] == t[i - 1] && r[j] == t[j - 1];
        }
      }
    } else if s != [] {
      forall j | 0 <= j < |s| ensures le(x, s[j]) {
        assert x in [x] + s && s[0] in [x] + s && s[j] in [x] + s;
      }
    }
  }

  /** With a comparator consistent on the input the result is sorted. */
  lemma {:induction false} SortSorted<T(!new)>(s: seq<T>, le: (T, T) -> bool)
    requires TotalPreorderOn(le, s)
    ensures SortedBy(Sort(s, le), le)
  {
    if s != [] {
      TotalPreorderOnSub(le, s[1..], s);
      SortSorted(s[1..], le);
      var t := Sort(s[1..], le);
      forall a | a in [s[0]] + t ensures a in s {
        if a != s[0] {
          assert a in multiset(t);
          assert a in multiset(s[1..]);
        }
      }
      TotalPreorderOnSub(le, [s[0]] + t, s);
      InsertSorted(s[0], t, le);
    }
  }

  /** Sorting a list that is already in order leaves it as it is. */
  lemma {:induction false} SortOfSorted<T>(s: seq<T>, le: (T, T) -> bool)
    requires SortedBy(s, le)
    ensures Sort(s, le) == s
  {
    if s != [] {
      assert SortedBy(s[1..], le) by {
        forall i, j | 0 <= i < j < |s[1..]| ensures le(s[1..][i], s[1..][j]) {
          assert s[1..][i] == s[i + 1] && s[1..][j] == s[j + 1];
        }
      }
      SortOfSorted(s[1..], le);
      if |s| > 1 {
        assert le(s[0], s[1]);
        assert s[1..][0] == s[1];
      }
      assert s == [s[0]] + s[1..];
    }
  }

  /** In a sorted list everything before position `n` sorts no later than everything
      from `n` on. */
  lemma SortedSplit<T>(s: seq<T>, n: nat, le: (T, T) -> bool)
    requires SortedBy(s, le) && n <= |s|
    ensures forall x, y :: x in s[..n] && y in s[n..] ==> le(x, y)
  {
    forall x, y | x in s[..n] && y in s[n..] ensures le(x, y) {
      var i :| 0 <= i < n && s[..n][i] == x;
      var j :| 0 <= j < |s| - n && s[n..][j] == y;
      assert s[i] == x && s[n + j] == y;
    }
  }

  /** The numeric comparator `(a, b) => a - b`, and the ascending order of keys. */
  predicate IntLe(a: int, b: int) {
    a <= b
  }

  lemma IntLeTotalPreorder()
    ensures TotalPreorder(IntLe)
  {
  }

  /** Sorted ascending without repeats means strictly increasing. */
  lemma SortedDistinctIncreasing(s: seq<int>)
    requires SortedBy(s, IntLe)
    requires forall i, j :: 0 <= i < j < |s| ==> s[i] != s[j]
    ensures forall i, j :: 0 <= i < j < |s| ==> s[i] < s[j]
  {
  }
}
