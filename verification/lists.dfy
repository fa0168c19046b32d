/**
 * List operations the finders use from Python itself: concatenating the
 * workers' lists in order, and `list.sort()`, whose code is not part of this
 * model and is stood in for by an insertion sort with the same result.
 */
module Lists {

  /** The lists one after the other, in order. */
  function Flatten<T>(xss: seq<seq<T>>): seq<T> {
    if |xss| == 0 then [] else Flatten(xss[..|xss| - 1]) + xss[|xss| - 1]
  }

  function TotalLength<T>(xss: seq<seq<T>>): nat {
    if |xss| == 0 then 0 else TotalLength(xss[..|xss| - 1]) + |xss[|xss| - 1]|
  }

  /** Concatenation keeps every element: its length is the sum of the lengths. */
  lemma {:induction false} FlattenLength<T>(xss: seq<seq<T>>)
    ensures |Flatten(xss)| == TotalLength(xss)
  {
    if |xss| > 0 {
      FlattenLength(xss[..|xss| - 1]);
    }
  }

  /** Flattening respects concatenation of the outer list. */
  lemma {:induction false} FlattenAppend<T>(xss: seq<seq<T>>, yss: seq<seq<T>>)
    ensures Flatten(xss + yss) == Flatten(xss) + Flatten(yss)
    decreases |yss|
  {
    if |yss| > 0 {
      var init := yss[..|yss| - 1];
      assert (xss + yss)[..|xss + yss| - 1] == xss + init;
      FlattenAppend(xss, init);
    } else {
      assert xss + yss == xss;
    }
  }

  /** A non-empty list is its front followed by its last element. */
  lemma SplitLast<T>(s: seq<T>)
    requires |s| > 0
    ensures s[..|s| - 1] + [s[|s| - 1]] == s
  {
  }

  predicate Sorted(s: seq<int>) {
    forall i, j :: 0 <= i < j < |s| ==> s[i] <= s[j]
  }

  /** x put in place in a sorted list. */
  function Insert(x: int, s: seq<int>): (r: seq<int>)
    requires Sorted(s)
    ensures Sorted(r) && multiset(r) == multiset(s) + multiset{x}
  {
    if |s| == 0 || x <= s[0] then
      SortedCons(x, s);
      [x] + s
    else
      var rest := Insert(x, s[1..]);
      assert s == [s[0]] + s[1..];
      forall k | 0 <= k < |rest| ensures s[0] <= rest[k] {
        assert rest[k] in multiset(s[1..]) + multiset{x};
      }
      SortedCons(s[0], rest);
      [s[0]] + rest
  }

  /** A head no larger than any element of an ascending tail makes an ascending list. */
  lemma SortedCons(h: int, t: seq<int>)
    requires Sorted(t) && forall k :: 0 <= k < |t| ==> h <= t[k]
    ensures Sorted([h] + t)
  {
  }

  /** `list.sort()` on a list of ints: the same elements, in ascending order. */
  function SortAscending(s: seq<int>): (r: seq<int>)
    ensures Sorted(r) && multiset(r) == multiset(s)
  {
    if |s| == 0 then []
    else
      assert s == [s[0]] + s[1..];
      Insert(s[0], SortAscending(s[1..]))
  }

  /** Sorting a list that is already in ascending order leaves it as it is. */
  lemma {:induction false} SortAscendingSorted(s: seq<int>)
    requires Sorted(s)
    ensures SortAscending(s) == s
  {
    if |s| > 0 {
      SortAscendingSorted(s[1..]);
      assert s == [s[0]] + s[1..];
    }
  }

  /** The head of an ascending list is its least element. */
  lemma SortedHeadLeast(a: seq<int>, x: int)
    requires Sorted(a) && x in multiset(a)
    ensures a[0] <= x
  {
    var i :| 0 <= i < |a| && a[i] == x;
  }

  /** The tail of an ascending list is ascending. */
  lemma SortedTail(a: seq<int>)
    requires Sorted(a) && |a| > 0
    ensures Sorted(a[1..])
  {
  }

  /** Two ascending lists with the same elements are the same list. */
  lemma {:induction false} SortedUnique(a: seq<int>, b: seq<int>)
    requires Sorted(a) && Sorted(b) && multiset(a) == multiset(b)
    ensures a == b
    decreases |a|
  {
    if |a| == 0 {
      assert |b| == |multiset(b)| == 0;
    } else {
      assert |b| == |multiset(b)| > 0;
      SortedHeadLeast(a, b[0]);
      SortedHeadLeast(b, a[0]);
      var x := a[0];
      var ta, tb := a[1..], b[1..];
      assert a == [x] + ta;
      assert b == [x] + tb;
      assert multiset(ta) == multiset(tb) by {
        assert multiset(a) == multiset([x]) + multiset(ta);
        assert multiset(b) == multiset([x]) + multiset(tb);
        forall e ensures multiset(ta)[e] == multiset(tb)[e] {
          assert multiset(a)[e] == multiset(b)[e];
        }
      }
      SortedTail(a);
      SortedTail(b);
      SortedUnique(ta, tb);
    }
  }

  /** The sorted result depends only on the elements, not on the order they arrived in. */
  lemma SortAscendingOrderIndependent(a: seq<int>, b: seq<int>)
    requires multiset(a) == multiset(b)
    ensures SortAscending(a) == SortAscending(b)
  {
    SortedUnique(SortAscending(a), SortAscending(b));
  }
}
