/** calculate_median: the median of a non-empty vector of group totals,
    computed on a sorted copy (the caller's vector is passed by value).
    That the copy is sorted and a permutation is proved in lemmas rather than
    stated on Sort itself, so that callers which only use the median's value
    do not carry the sorting facts around. */
module Median {

  predicate Sorted(s: seq<real>) {
    forall i, j :: 0 <= i < j < |s| ==> s[i] <= s[j]
  }

  /** Inserts x before the first element not below it. */
  function Insert(x: real, s: seq<real>): (r: seq<real>)
    ensures |r| == |s| + 1
  {
    if s == [] || x <= s[0] then [x] + s else [s[0]] + Insert(x, s[1..])
  }

  /** The sorted copy that std::sort produces. */
  function Sort(s: seq<real>): (r: seq<real>)
    ensures |r| == |s|
  {
    if s == [] then [] else Insert(s[0], Sort(s[1..]))
  }

  /** The middle element of the sorted copy for an odd size, the mean of the
      two middle elements for an even size; it is at least the least value
      and at most the greatest. */
  function Median(x: seq<real>): (r: real)
    requires |x| > 0
    ensures exists i :: 0 <= i < |x| && x[i] <= r
    ensures exists j :: 0 <= j < |x| && r <= x[j]
  {
    var s := Sort(x);
    SortSorted(x);
    SortPermutes(x);
    MiddleBetween(s);
    SortedEnds(x, s);
    Middle(s)
  }

  /** The middle element, or the mean of the two middle elements. */
  function Middle(s: seq<real>): real
    requires |s| > 0
  {
    var size := |s|;
    if size % 2 == 0 then (s[size / 2 - 1] + s[size / 2]) / 2.0 else s[size / 2]
  }

  /** Inserting into a sorted sequence keeps it sorted; the result starts
      with x or with the old first element. */
  lemma {:induction false} InsertSorted(x: real, s: seq<real>)
    requires Sorted(s)
    ensures Sorted(Insert(x, s))
    ensures Insert(x, s)[0] == x || (s != [] && Insert(x, s)[0] == s[0])
  {
    if s != [] && x > s[0] {
      InsertSorted(x, s[1..]);
      var rest := Insert(x, s[1..]);
      assert rest[0] >= s[0];
      assert forall k :: 0 <= k < |rest| ==> rest[0] <= rest[k];
    }
  }

  /** Inserting adds exactly x to the multiset of elements. */
  lemma {:induction false} InsertPermutes(x: real, s: seq<real>)
    ensures multiset(Insert(x, s)) == multiset(s) + multiset{x}
  {
    if s != [] && x > s[0] {
      InsertPermutes(x, s[1..]);
      assert s == [s[0]] + s[1..];
    }
  }

  lemma {:induction false} SortSorted(s: seq<real>)
    ensures Sorted(Sort(s))
  {
    if s != [] {
      SortSorted(s[1..]);
      InsertSorted(s[0], Sort(s[1..]));
    }
  }

  /** The sorted copy holds the same elements as the vector. */
  lemma {:induction false} SortPermutes(s: seq<real>)
    ensures multiset(Sort(s)) == multiset(s)
  {
    if s != [] {
      SortPermutes(s[1..]);
      InsertPermutes(s[0], Sort(s[1..]));
      assert s == [s[0]] + s[1..];
    }
  }

  /** Sorting leaves an already sorted sequence as it is. */
  lemma {:induction false} SortOfSorted(s: seq<real>)
    requires Sorted(s)
    ensures Sort(s) == s
  {
    if s != [] {
      SortOfSorted(s[1..]);
      assert s == [s[0]] + s[1..];
    }
  }

  /** On a vector that is already in ascending order the median is its
      middle element, or the mean of its two middle elements. */
  lemma {:induction false} MedianOfSorted(x: seq<real>)
    requires |x| > 0 && Sorted(x)
    ensures |x| % 2 == 1 ==> Median(x) == x[|x| / 2]
    ensures |x| % 2 == 0 ==> Median(x) == (x[|x| / 2 - 1] + x[|x| / 2]) / 2.0
  {
    SortOfSorted(x);
  }

  lemma {:induction false} MiddleBetween(s: seq<real>)
    requires |s| > 0 && Sorted(s)
    ensures s[0] <= Middle(s) <= s[|s| - 1]
  {
    var n := |s|;
    if n % 2 == 0 {
      assert s[0] <= s[n / 2 - 1] <= s[n / 2] <= s[n - 1];
    } else {
      assert s[0] <= s[n / 2] <= s[n - 1];
    }
  }

  /** A sorted permutation of x starts with x's least element and ends with
      its greatest. */
  lemma {:induction false} SortedEnds(x: seq<real>, s: seq<real>)
    requires |s| > 0 && Sorted(s) && multiset(x) == multiset(s)
    ensures s[0] in x && s[|s| - 1] in x
    ensures forall k :: 0 <= k < |x| ==> s[0] <= x[k] <= s[|s| - 1]
  {
    SameElements(x, s);
    forall k | 0 <= k < |x| ensures s[0] <= x[k] <= s[|s| - 1] {
      assert x[k] in x;
      var m :| 0 <= m < |s| && s[m] == x[k];
    }
  }

  /** Sequences with the same multiset hold the same elements. */
  lemma {:induction false} SameElements(x: seq<real>, s: seq<real>)
    requires multiset(x) == multiset(s)
    ensures forall y :: y in x <==> y in s
  {
    forall y ensures y in x <==> y in s {
      assert y in x <==> y in multiset(x);
    }
  }
}
