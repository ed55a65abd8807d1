/** Non-decreasing sequences of values, and the insertion that puts a new value
    after every value that is not greater than it (the tree's duplicate policy). */
module Sorting {

  predicate Sorted(s: seq<int>) {
    forall i, j :: 0 <= i < j < |s| ==> s[i] <= s[j]
  }

  /** The length of the longest prefix of s whose elements are at most x. */
  function UpperBound(s: seq<int>, x: int): (k: nat)
    ensures k <= |s|
    ensures forall i :: 0 <= i < k ==> s[i] <= x
    ensures k < |s| ==> s[k] > x
  {
    if s == [] || s[0] > x then 0 else 1 + UpperBound(s[1..], x)
  }

  /** x placed in front of the first element greater than it. */
  function InsertSorted(s: seq<int>, x: int): seq<int>
  {
    if s == [] || s[0] > x then [x] + s else [s[0]] + InsertSorted(s[1..], x)
  }

  /** Insertion splits s at the end of its prefix of elements at most x. */
  lemma {:induction false} InsertSortedSplits(s: seq<int>, x: int)
    ensures InsertSorted(s, x) == s[..UpperBound(s, x)] + [x] + s[UpperBound(s, x)..]
  {
    if s == [] || s[0] > x {
    } else {
      InsertSortedSplits(s[1..], x);
      var k := UpperBound(s[1..], x);
      assert s[..k + 1] == [s[0]] + s[1..][..k];
      assert s[k + 1..] == s[1..][k..];
    }
  }

  /** On a sorted sequence the prefix found by UpperBound is exactly the elements at most x. */
  lemma {:induction false} UpperBoundSplits(s: seq<int>, x: int)
    requires Sorted(s)
    ensures forall i :: UpperBound(s, x) <= i < |s| ==> s[i] > x
  {
    var k := UpperBound(s, x);
    forall i | k <= i < |s| ensures s[i] > x {
      assert s[k] <= s[i];
    }
  }

  /** Insertion keeps every element and adds exactly one x. */
  lemma {:induction false} InsertSortedPermutes(s: seq<int>, x: int)
    ensures multiset(InsertSorted(s, x)) == multiset(s) + multiset{x}
  {
    var k := UpperBound(s, x);
    InsertSortedSplits(s, x);
    var front, back := s[..k], s[k..];
    assert s == front + back;
    assert multiset(s) == multiset(front) + multiset(back);
    assert InsertSorted(s, x) == front + [x] + back;
    assert multiset(front + [x] + back) == multiset(front) + multiset{x} + multiset(back);
  }

  /** The inserted sequence holds exactly the old elements and x. */
  lemma InsertSortedMembers(s: seq<int>, x: int)
    ensures forall v :: v in InsertSorted(s, x) <==> v == x || v in s
  {
    InsertSortedPermutes(s, x);
    forall v ensures v in InsertSorted(s, x) <==> v == x || v in s {
      assert v in InsertSorted(s, x) <==> v in multiset(InsertSorted(s, x));
      assert v in s <==> v in multiset(s);
    }
  }

  /** Insertion into a sorted sequence gives a sorted sequence. */
  lemma InsertSortedSorted(s: seq<int>, x: int)
    requires Sorted(s)
    ensures Sorted(InsertSorted(s, x))
  {
    var k := UpperBound(s, x);
    UpperBoundSplits(s, x);
    InsertSortedSplits(s, x);
    var r := InsertSorted(s, x);
    forall i, j | 0 <= i < j < |r| ensures r[i] <= r[j] {
      if j < k {
        assert r[i] == s[i] && r[j] == s[j];
      } else if j == k {
        assert r[j] == x;
      } else if i < k {
        assert r[i] == s[i] && r[j] == s[j - 1];
      } else if i == k {
        assert r[i] == x && r[j] == s[j - 1];
      } else {
        assert r[i] == s[i - 1] && r[j] == s[j - 1];
      }
    }
  }

  /** When a later part starts above x, insertion into a + b happens inside a. */
  lemma {:induction false} InsertBeforeTail(a: seq<int>, b: seq<int>, x: int)
    requires |b| > 0 && b[0] > x
    ensures InsertSorted(a + b, x) == InsertSorted(a, x) + b
  {
    if a == [] {
      assert a + b == b;
    } else if a[0] > x {
    } else {
      assert (a + b)[1..] == a[1..] + b;
      InsertBeforeTail(a[1..], b, x);
    }
  }

  /** Inserting x into a + [m] + b with m above x inserts it into a. */
  lemma InsertBeforeMiddle(a: seq<int>, m: int, b: seq<int>, x: int)
    requires m > x
    ensures InsertSorted(a + [m] + b, x) == InsertSorted(a, x) + [m] + b
  {
    InsertBeforeTail(a, [m] + b, x);
    assert a + [m] + b == a + ([m] + b);
    assert InsertSorted(a, x) + [m] + b == InsertSorted(a, x) + ([m] + b);
  }

  /** When no element of a is above x, insertion into a + b happens inside b. */
  lemma {:induction false} InsertAfterHead(a: seq<int>, b: seq<int>, x: int)
    requires forall v :: v in a ==> v <= x
    ensures InsertSorted(a + b, x) == a + InsertSorted(b, x)
  {
    if a == [] {
      assert a + b == b;
    } else {
      var rest := a[1..];
      assert a[0] in a;
      assert a == [a[0]] + rest;
      assert (a + b)[0] == a[0] && (a + b)[1..] == rest + b;
      forall v | v in rest ensures v <= x {
        assert v in a;
      }
      InsertAfterHead(rest, b, x);
      calc {
        InsertSorted(a + b, x);
        [a[0]] + InsertSorted(rest + b, x);
        [a[0]] + (rest + InsertSorted(b, x));
        a + InsertSorted(b, x);
      }
    }
  }

  /** Gluing two sorted parts around a separating middle value keeps the order. */
  lemma SortedAround(a: seq<int>, m: int, b: seq<int>)
    requires Sorted(a) && Sorted(b)
    requires forall v :: v in a ==> v <= m
    requires forall v :: v in b ==> m <= v
    ensures Sorted(a + [m] + b)
  {
    var s := a + [m] + b;
    forall i, j | 0 <= i < j < |s| ensures s[i] <= s[j] {
      if j < |a| {
      } else if i < |a| {
        assert s[i] in a;
        if j > |a| { assert s[j] in b; }
      } else if i == |a| {
        assert s[j] in b;
      }
    }
  }

  /** The first element of a sorted sequence is at most every element. */
  lemma SortedFirstIsLeast(s: seq<int>)
    requires Sorted(s) && |s| > 0
    ensures forall v :: v in s ==> s[0] <= v
  {
  }

  /** The last element of a sorted sequence is at least every element. */
  lemma SortedLastIsGreatest(s: seq<int>)
    requires Sorted(s) && |s| > 0
    ensures forall v :: v in s ==> v <= s[|s| - 1]
  {
  }
}
