/** Python's `sorted`: a stable sort by a strict order. */
module Sorting {

  function Insert<T(==,!new)>(less: (T, T) -> bool, x: T, s: seq<T>): (r: seq<T>)
    ensures |r| == |s| + 1
    ensures forall y :: y in r <==> y == x || y in s
  {
    if s == [] || !less(s[0], x) then [x] + s
    else
      assert s == [s[0]] + s[1..];
      [s[0]] + Insert(less, x, s[1..])
  }

  /** An element never moves past an earlier one that compares equal. */
  function Sort<T(==,!new)>(less: (T, T) -> bool, s: seq<T>): (r: seq<T>)
    ensures |r| == |s|
    ensures forall y :: y in r <==> y in s
  {
    if s == [] then []
    else
      assert s == [s[0]] + s[1..];
      Insert(less, s[0], Sort(less, s[1..]))
  }

  ghost predicate StrictOrder<T(!new)>(less: (T, T) -> bool) {
    && (forall x, y :: less(x, y) ==> !less(y, x))
    && (forall x, y, z :: less(x, y) && less(y, z) ==> less(x, z))
  }

  ghost predicate Sorted<T>(less: (T, T) -> bool, s: seq<T>) {
    forall i, j :: 0 <= i < j < |s| ==> less(s[i], s[j])
  }

  /** Any two elements at different places are ordered one way or the other. */
  ghost predicate Comparable<T>(less: (T, T) -> bool, s: seq<T>) {
    forall i, j :: 0 <= i < j < |s| ==> less(s[i], s[j]) || less(s[j], s[i])
  }

  lemma {:induction false} InsertSorted<T(!new)>(less: (T, T) -> bool, x: T, s: seq<T>)
    requires StrictOrder(less) && Sorted(less, s)
    requires forall y :: y in s ==> less(x, y) || less(y, x)
    ensures Sorted(less, Insert(less, x, s))
  {
    if s != [] {
      assert s[0] in s;
      if less(s[0], x) {
        InsertSorted(less, x, s[1..]);
        var r := Insert(less, x, s[1..]);
        forall j | 0 <= j < |r| ensures less(s[0], r[j]) {
          assert r[j] in r;
        }
      }
    }
  }

  lemma {:induction false} SortSorted<T(!new)>(less: (T, T) -> bool, s: seq<T>)
    requires StrictOrder(less) && Comparable(less, s)
    ensures Sorted(less, Sort(less, s))
  {
    if s != [] {
      SortSorted(less, s[1..]);
      forall y | y in Sort(less, s[1..]) ensures less(s[0], y) || less(y, s[0]) {
        var k :| 1 <= k < |s| && s[k] == y;
      }
      InsertSorted(less, s[0], Sort(less, s[1..]));
    }
  }

  /** Sorting leaves a sequence alone when nothing in it belongs before something earlier. */
  lemma {:induction false} SortInOrder<T(!new)>(less: (T, T) -> bool, s: seq<T>)
    requires forall i, j :: 0 <= i < j < |s| ==> !less(s[j], s[i])
    ensures Sort(less, s) == s
  {
    if s != [] {
      SortInOrder(less, s[1..]);
    }
  }

  /** A sorted sequence is determined by its elements. */
  lemma {:induction false} SortedUnique<T(!new)>(less: (T, T) -> bool, a: seq<T>, b: seq<T>)
    requires StrictOrder(less) && Sorted(less, a) && Sorted(less, b)
    requires forall x :: x in a <==> x in b
    ensures a == b
  {
    if a != [] && b != [] {
      SortedHead(less, a, b);
      SortedTail(less, a, b);
      SortedTail(less, b, a);
      SortedUnique(less, a[1..], b[1..]);
    } else if b != [] {
      NotEmpty(a, b);
    } else if a != [] {
      NotEmpty(b, a);
    }
  }

  lemma NotEmpty<T(!new)>(a: seq<T>, b: seq<T>)
    requires b != [] && forall x :: x in b ==> x in a
    ensures a != []
  {
    assert b[0] in b;
  }

  lemma SortedHead<T(!new)>(less: (T, T) -> bool, a: seq<T>, b: seq<T>)
    requires a != [] && b != [] && StrictOrder(less) && Sorted(less, a) && Sorted(less, b)
    requires forall x :: x in a <==> x in b
    ensures a[0] == b[0]
  {
    assert a[0] in b && b[0] in a;
    var i :| 0 <= i < |a| && a[i] == b[0];
    var j :| 0 <= j < |b| && b[j] == a[0];
    assert i > 0 ==> less(a[0], b[0]);
    assert j > 0 ==> less(b[0], a[0]);
  }

  lemma SortedTail<T(!new)>(less: (T, T) -> bool, a: seq<T>, b: seq<T>)
    requires a != [] && b != [] && StrictOrder(less) && Sorted(less, a) && Sorted(less, b) && a[0] == b[0]
    requires forall x :: x in a ==> x in b
    ensures forall x :: x in a[1..] ==> x in b[1..]
  {
    forall x | x in a[1..] ensures x in b[1..] {
      var i :| 1 <= i < |a| && a[i] == x;
      assert less(a[0], x) && !less(x, a[0]);
      assert a[i] in b;
      var j :| 0 <= j < |b| && b[j] == x;
    }
  }
}
