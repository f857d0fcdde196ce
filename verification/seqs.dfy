/** Sequence helpers shared by the model: list comprehensions with a
    condition (`[x for x in s if p(x)]`) and Python's `s[-k:]` slice. */
module Seqs {

  /** `[x for x in s if p(x)]`: the elements of `s` satisfying `p`, in order. */
  function Filter<T(!new)>(p: T -> bool, s: seq<T>): (r: seq<T>)
    ensures |r| <= |s|
    ensures forall x :: x in r <==> x in s && p(x)
    ensures forall i :: 0 <= i < |r| ==> p(r[i])
    ensures multiset(r) <= multiset(s)
  {
    if |s| == 0 then []
    else
      assert s == [s[0]] + s[1..];
      if p(s[0]) then [s[0]] + Filter(p, s[1..]) else Filter(p, s[1..])
  }

  /** Filtering distributes over concatenation, so it keeps the relative
      order of the elements it retains. */
  lemma {:induction false} FilterAppend<T(!new)>(p: T -> bool, a: seq<T>, b: seq<T>)
    ensures Filter(p, a + b) == Filter(p, a) + Filter(p, b)
  {
    if |a| == 0 {
      assert a + b == b;
    } else {
      assert (a + b)[1..] == a[1..] + b;
      FilterAppend(p, a[1..], b);
    }
  }

  /** A filter keeps every element that satisfies the condition as often as
      the input holds it. */
  lemma {:induction false} FilterCounts<T(!new)>(p: T -> bool, s: seq<T>, x: T)
    requires p(x)
    ensures multiset(Filter(p, s))[x] == multiset(s)[x]
  {
    if |s| > 0 {
      assert s == [s[0]] + s[1..];
      FilterCounts(p, s[1..], x);
    }
  }

  /** A filter whose condition holds everywhere changes nothing. */
  lemma {:induction false} FilterAll<T(!new)>(p: T -> bool, s: seq<T>)
    requires forall i :: 0 <= i < |s| ==> p(s[i])
    ensures Filter(p, s) == s
  {
    if |s| > 0 {
      FilterAll(p, s[1..]);
    }
  }

  /** A filter whose condition holds nowhere leaves nothing. */
  lemma {:induction false} FilterNone<T(!new)>(p: T -> bool, s: seq<T>)
    requires forall i :: 0 <= i < |s| ==> !p(s[i])
    ensures Filter(p, s) == []
  {
    if |s| > 0 {
      FilterNone(p, s[1..]);
    }
  }

  /** Filtering by a condition that implies an earlier filter's condition
      gives the same as filtering once. */
  lemma {:induction false} FilterNarrow<T(!new)>(p: T -> bool, q: T -> bool, s: seq<T>)
    requires forall x :: p(x) ==> q(x)
    ensures Filter(p, Filter(q, s)) == Filter(p, s)
  {
    if |s| > 0 {
      FilterNarrow(p, q, s[1..]);
      if q(s[0]) {
        FilterAppend(p, [s[0]], Filter(q, s[1..]));
      }
    }
  }

  /** Python's `s[-k:]` on a list, for any integer `k`:
      a positive `k` keeps the last `k` elements (all of them when the list
      is shorter), `-0` is `0` and keeps everything, and a negative `k`
      drops the first `-k` elements. */
  function PySuffix<T>(s: seq<T>, k: int): (r: seq<T>)
    ensures |r| <= |s|
    ensures r == s[|s| - |r|..]
    ensures k > 0 ==> |r| == if k < |s| then k else |s|
    ensures k == 0 ==> r == s
    ensures k < 0 ==> |r| == if -k < |s| then |s| + k else 0
  {
    if k > 0 then (if k < |s| then s[|s| - k..] else s)
    else if k == 0 then s
    else (if -k < |s| then s[-k..] else [])
  }
}
