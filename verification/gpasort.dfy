/** Sorting records by GPA, in either direction, as the toppers and at-risk handlers
    do. The sort is an insertion sort that keeps records with equal GPAs in their
    original order, like Python's stable sort. */
module GpaSort {
  import opened Records

  /** `a` may come before `b`: GPAs non-increasing when `descending`, non-decreasing otherwise. */
  predicate Precedes(a: Student, b: Student, descending: bool)
  {
    if descending then a.gpa >= b.gpa else a.gpa <= b.gpa
  }

  predicate SortedBy(s: seq<Student>, descending: bool)
  {
    forall i, j :: 0 <= i < j < |s| ==> Precedes(s[i], s[j], descending)
  }

  /** Inserts `x` before the first element it may precede. */
  function Insert(x: Student, s: seq<Student>, descending: bool): (r: seq<Student>)
    requires SortedBy(s, descending)
    ensures SortedBy(r, descending)
    ensures multiset(r) == multiset(s) + multiset{x}
    decreases |s|
  {
    if |s| == 0 || Precedes(x, s[0], descending) then [x] + s
    else
      var tail := Insert(x, s[1..], descending);
      PrecedesAllOfUnion(s[0], s[1..], x, tail, descending);
      assert s == [s[0]] + s[1..];
      [s[0]] + tail
  }

  /** An element that may precede every element of `s` and `x` may precede every
      element of a rearrangement of `s` plus `x`. */
  lemma PrecedesAllOfUnion(a: Student, s: seq<Student>, x: Student, t: seq<Student>, descending: bool)
    requires forall k :: 0 <= k < |s| ==> Precedes(a, s[k], descending)
    requires Precedes(a, x, descending)
    requires multiset(t) == multiset(s) + multiset{x}
    ensures forall k :: 0 <= k < |t| ==> Precedes(a, t[k], descending)
  {
    forall k | 0 <= k < |t|
      ensures Precedes(a, t[k], descending)
    {
      assert t[k] in multiset(t);
      if t[k] != x {
        assert t[k] in multiset(s);
      }
    }
  }

  function Sort(s: seq<Student>, descending: bool): (r: seq<Student>)
    ensures SortedBy(r, descending)
    ensures multiset(r) == multiset(s)
    decreases |s|
  {
    if |s| == 0 then []
    else
      assert s == [s[0]] + s[1..];
      Insert(s[0], Sort(s[1..], descending), descending)
  }

  /** In a list sorted by GPA descending, every element of a prefix has a GPA at least
      that of every element after it. */
  lemma PrefixDominates(s: seq<Student>, n: nat)
    requires SortedBy(s, true) && n <= |s|
    ensures forall x, y :: x in multiset(s[..n]) && y in multiset(s[n..]) ==> x.gpa >= y.gpa
  {
  }
}
