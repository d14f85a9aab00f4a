/** Insertion sort on an integer key, standing for the database's
    `orderBy: { order: 'asc' }`. Rows with equal keys may come out in any
    order; the specification says only "sorted" and "a permutation". */
module Sorting {

  /** `s` is ascending by `key`. */
  ghost predicate SortedBy<T>(s: seq<T>, key: T -> int) {
    forall i, j | 0 <= i < j < |s| :: key(s[i]) <= key(s[j])
  }

  /** Puts `x` into the sorted `s` before the first element with a greater or equal key. */
  function InsertBy<T>(x: T, s: seq<T>, key: T -> int): (r: seq<T>)
    requires SortedBy(s, key)
    ensures SortedBy(r, key)
    ensures multiset(r) == multiset(s) + multiset{x}
    ensures |r| == |s| + 1
    ensures |s| > 0 ==> forall k | 0 <= k < |r| :: key(r[k]) == key(x) || key(r[k]) >= key(s[0])
  {
    if |s| == 0 then [x]
    else if key(x) <= key(s[0]) then [x] + s
    else
      var tail := InsertBy(x, s[1..], key);
      assert s == [s[0]] + s[1..];
      InsertedSorted(s[0], tail, key, x, s[1..]);
      [s[0]] + tail
  }

  lemma InsertedSorted<T>(head: T, tail: seq<T>, key: T -> int, x: T, rest: seq<T>)
    requires SortedBy(tail, key)
    requires key(head) < key(x)
    requires SortedBy([head] + rest, key)
    requires |rest| > 0 ==> forall k | 0 <= k < |tail| :: key(tail[k]) == key(x) || key(tail[k]) >= key(rest[0])
    requires |rest| == 0 ==> tail == [x]
    ensures SortedBy([head] + tail, key)
  {
    var r := [head] + tail;
    forall i, j | 0 <= i < j < |r| ensures key(r[i]) <= key(r[j]) {
      if i > 0 {
        assert r[i] == tail[i - 1] && r[j] == tail[j - 1];
      } else if |rest| > 0 {
        assert r[i] == head == ([head] + rest)[0];
        assert ([head] + rest)[1] == rest[0];
        assert key(head) <= key(rest[0]);
        assert r[j] == tail[j - 1];
      } else {
        assert r[i] == head;
        assert r[j] == x;
      }
    }
  }

  /** Sorts `s` ascending by `key`: the result is ordered and holds exactly
      the elements of `s`, with their multiplicities. */
  function SortBy<T>(s: seq<T>, key: T -> int): (r: seq<T>)
    ensures SortedBy(r, key)
    ensures multiset(r) == multiset(s)
    ensures |r| == |s|
  {
    if |s| == 0 then []
    else
      assert s == [s[0]] + s[1..];
      InsertBy(s[0], SortBy(s[1..], key), key)
  }
}
