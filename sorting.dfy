/** `Array.prototype.sort` with a comparator, on a copy of the input: a
    stable sort, written as insertion sort over a JavaScript-style comparator
    that returns a negative, zero or positive number. */
module Sorting {

  /** The conditions under which a comparator defines an order: any two
      elements compare one way or the other, and "not after" is transitive. */
  ghost predicate Consistent<T(!new)>(cmp: (T, T) -> int) {
    && (forall a, b :: cmp(a, b) <= 0 || cmp(b, a) <= 0)
    && (forall a, b, c :: cmp(a, b) <= 0 && cmp(b, c) <= 0 ==> cmp(a, c) <= 0)
  }

  /** No element comes after one it should precede. */
  ghost predicate SortedBy<T>(s: seq<T>, cmp: (T, T) -> int) {
    forall i, j :: 0 <= i < j < |s| ==> cmp(s[i], s[j]) <= 0
  }

  /** Puts `x` before the first element it does not come after, so it stays
      ahead of the elements it ties with. */
  function Insert<T>(x: T, s: seq<T>, cmp: (T, T) -> int): (r: seq<T>)
    ensures |r| == |s| + 1
  {
    if s == [] then [x]
    else if cmp(x, s[0]) <= 0 then [x] + s
    else [s[0]] + Insert(x, s[1..], cmp)
  }

  /** The sorted copy. */
  function Sort<T>(s: seq<T>, cmp: (T, T) -> int): (r: seq<T>)
    ensures |r| == |s|
  {
    if s == [] then [] else Insert(s[0], Sort(s[1..], cmp), cmp)
  }

  lemma {:induction false} InsertMultiset<T>(x: T, s: seq<T>, cmp: (T, T) -> int)
    ensures multiset(Insert(x, s, cmp)) == multiset(s) + multiset{x}
  {
    if s != [] && cmp(x, s[0]) > 0 {
      var tail := s[1..];
      var rest := Insert(x, tail, cmp);
      InsertMultiset(x, tail, cmp);
      assert Insert(x, s, cmp) == [s[0]] + rest;
      assert multiset([s[0]] + rest) == multiset{s[0]} + multiset(rest);
      assert s == [s[0]] + tail;
      assert multiset(s) == multiset{s[0]} + multiset(tail);
    }
  }

  lemma SortedTail<T>(s: seq<T>, cmp: (T, T) -> int)
    requires s != [] && SortedBy(s, cmp)
    ensures SortedBy(s[1..], cmp)
  {
    var tail := s[1..];
    forall i, j | 0 <= i < j < |tail| ensures cmp(tail[i], tail[j]) <= 0 {
      assert tail[i] == s[i + 1] && tail[j] == s[j + 1];
    }
  }

  /** When `x` goes after the head, the head still precedes each element
      that follows it. */
  lemma HeadBeforeInserted<T(!new)>(x: T, s: seq<T>, cmp: (T, T) -> int, j: int)
    requires Consistent(cmp) && SortedBy(s, cmp) && s != [] && cmp(x, s[0]) > 0
    requires 0 <= j < |s|
    ensures cmp(s[0], Insert(x, s[1..], cmp)[j]) <= 0
  {
    var tail := s[1..];
    var y := Insert(x, tail, cmp)[j];
    InsertMultiset(x, tail, cmp);
    assert y in multiset(tail) + multiset{x};
    if y != x {
      var k :| 0 <= k < |tail| && tail[k] == y;
      assert s[k + 1] == y;
    }
  }

  lemma {:induction false} InsertSorted<T(!new)>(x: T, s: seq<T>, cmp: (T, T) -> int)
    requires Consistent(cmp) && SortedBy(s, cmp)
    ensures SortedBy(Insert(x, s, cmp), cmp)
  {
    if s != [] && cmp(x, s[0]) > 0 {
      var tail := s[1..];
      SortedTail(s, cmp);
      InsertSorted(x, tail, cmp);
      var r := Insert(x, s, cmp);
      var rest := Insert(x, tail, cmp);
      assert r == [s[0]] + rest;
      forall i, j | 0 <= i < j < |r| ensures cmp(r[i], r[j]) <= 0 {
        assert r[j] == rest[j - 1];
        if i == 0 {
          HeadBeforeInserted(x, s, cmp, j - 1);
        } else {
          assert r[i] == rest[i - 1];
        }
      }
    }
  }

  /** The sorted copy is ordered by the comparator and holds the same
      elements as the input, as often. */
  lemma {:induction false} SortFacts<T(!new)>(s: seq<T>, cmp: (T, T) -> int)
    requires Consistent(cmp)
    ensures SortedBy(Sort(s, cmp), cmp)
    ensures multiset(Sort(s, cmp)) == multiset(s)
  {
    if s != [] {
      SortFacts(s[1..], cmp);
      InsertSorted(s[0], Sort(s[1..], cmp), cmp);
      InsertMultiset(s[0], Sort(s[1..], cmp), cmp);
      assert s == [s[0]] + s[1..];
    }
  }
}
