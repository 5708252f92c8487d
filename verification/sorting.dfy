/** A stable sort by a real-valued key, ascending, used for `ORDER BY
    distance ASC` in the vector store and for Python's `list.sort(key=...,
    reverse=True)` in the bot (by sorting on the negated key). */
module Sorting {

  predicate SortedBy<T>(xs: seq<T>, key: T -> real) {
    forall i, j :: 0 <= i < j < |xs| ==> key(xs[i]) <= key(xs[j])
  }

  /** Inserts `x` in front of the first element whose key is not smaller,
      so `x` lands before the elements it ties with. */
  function Insert<T>(x: T, xs: seq<T>, key: T -> real): (r: seq<T>)
    requires SortedBy(xs, key)
    ensures SortedBy(r, key)
    ensures multiset(r) == multiset(xs) + multiset{x}
    ensures |r| == |xs| + 1
  {
    if xs == [] then [x]
    else if key(x) <= key(xs[0]) then [x] + xs
    else
      var rest := Insert(x, xs[1..], key);
      assert xs == [xs[0]] + xs[1..];
      InsertHead(xs[0], rest, xs[1..], x, key);
      [xs[0]] + rest
  }

  /** The head of a sorted list stays in front of the list `x` was inserted
      into, because `x` went further right. */
  lemma InsertHead<T>(h: T, rest: seq<T>, tail: seq<T>, x: T, key: T -> real)
    requires SortedBy([h] + tail, key)
    requires SortedBy(rest, key)
    requires multiset(rest) == multiset(tail) + multiset{x}
    requires key(h) < key(x)
    ensures SortedBy([h] + rest, key)
  {
    forall j | 0 <= j < |rest|
      ensures key(h) <= key(rest[j])
    {
      assert rest[j] in multiset(rest);
      if rest[j] == x {
        assert key(h) < key(x);
      } else {
        assert rest[j] in multiset(tail);
        assert rest[j] in tail;
        var k :| 0 <= k < |tail| && tail[k] == rest[j];
        assert ([h] + tail)[0] == h && ([h] + tail)[k + 1] == tail[k];
        assert key(([h] + tail)[0]) <= key(([h] + tail)[k + 1]);
      }
    }
  }

  /** Stable insertion sort by `key`, ascending. */
  function SortBy<T>(xs: seq<T>, key: T -> real): (r: seq<T>)
    ensures SortedBy(r, key)
    ensures multiset(r) == multiset(xs)
    ensures |r| == |xs|
  {
    if xs == [] then []
    else
      assert xs == [xs[0]] + xs[1..];
      Insert(xs[0], SortBy(xs[1..], key), key)
  }

  /** Sorting a list that is already in order changes nothing: the sort is
      stable, so ties keep their places too. */
  lemma {:induction false} SortSorted<T>(xs: seq<T>, key: T -> real)
    requires SortedBy(xs, key)
    ensures SortBy(xs, key) == xs
  {
    if xs != [] {
      var tail := xs[1..];
      assert SortedBy(tail, key) by {
        forall i, j | 0 <= i < j < |tail| ensures key(tail[i]) <= key(tail[j]) {
          assert tail[i] == xs[i + 1] && tail[j] == xs[j + 1];
        }
      }
      SortSorted(tail, key);
      if tail != [] {
        assert key(xs[0]) <= key(tail[0]);
      }
      assert [xs[0]] + tail == xs;
    }
  }
}
