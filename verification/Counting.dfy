/** How many elements of a sequence satisfy a predicate. */
module Counting {

  function Count<T>(s: seq<T>, p: T -> bool): (n: nat)
    ensures n <= |s|
  {
    if s == [] then 0 else (if p(s[0]) then 1 else 0) + Count(s[1..], p)
  }

  lemma {:induction false} CountConcat<T>(a: seq<T>, b: seq<T>, p: T -> bool)
    ensures Count(a + b, p) == Count(a, p) + Count(b, p)
  {
    if a == [] {
      assert a + b == b;
    } else {
      CountConcat(a[1..], b, p);
      assert a + b == [a[0]] + (a[1..] + b);
    }
  }

  lemma {:induction false} CountAll<T>(s: seq<T>, p: T -> bool)
    requires forall i :: 0 <= i < |s| ==> p(s[i])
    ensures Count(s, p) == |s|
  {
    if s != [] {
      CountAll(s[1..], p);
    }
  }

  lemma {:induction false} CountNone<T>(s: seq<T>, p: T -> bool)
    requires forall i :: 0 <= i < |s| ==> !p(s[i])
    ensures Count(s, p) == 0
  {
    if s != [] {
      CountNone(s[1..], p);
    }
  }

  /** A stretch that satisfies `p` throughout is a lower bound. */
  lemma CountAtLeast<T>(s: seq<T>, p: T -> bool, lo: nat, hi: nat)
    requires lo <= hi <= |s|
    requires forall i :: lo <= i < hi ==> p(s[i])
    ensures Count(s, p) >= hi - lo
  {
    hide Count;
    assert s == s[..lo] + s[lo..];
    CountConcat(s[..lo], s[lo..], p);
    assert s[lo..] == s[lo..hi] + s[hi..];
    CountConcat(s[lo..hi], s[hi..], p);
    CountAll(s[lo..hi], p);
  }

  /** When any two hits lie fewer than `k` places apart, there are at most `k` of them. */
  lemma {:induction false} CountSpread<T>(s: seq<T>, p: T -> bool, k: nat)
    requires forall i, j :: 0 <= i < j < |s| && p(s[i]) && p(s[j]) ==> j - i < k
    requires k >= 1
    ensures Count(s, p) <= k
  {
    if s == [] {
    } else if p(s[0]) {
      var m := if |s| < k then |s| else k;
      assert s == s[..m] + s[m..];
      CountConcat(s[..m], s[m..], p);
      CountNone(s[m..], p);
    } else {
      CountSpread(s[1..], p, k);
    }
  }
}
