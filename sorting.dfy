/**
 * A stable insertion sort by an integer key. The two read queries of the
 * server order their rows with SQL's ORDER BY; both are modelled with this
 * sort (a descending order is an ascending order of the negated key).
 */
module Sorting {

  /** `s` is in non-decreasing order of `key`. */
  ghost predicate SortedBy<T>(s: seq<T>, key: T -> int)
  {
    forall i, j :: 0 <= i < j < |s| ==> key(s[i]) <= key(s[j])
  }

  /** Every key in `s` is at least `k`. */
  ghost predicate AllAtLeast<T>(s: seq<T>, k: int, key: T -> int)
  {
    forall j :: 0 <= j < |s| ==> k <= key(s[j])
  }

  /** Inserts `x` before the first element whose key is not smaller than its own. */
  function Insert<T>(x: T, s: seq<T>, key: T -> int): seq<T>
  {
    if s == [] || key(x) <= key(s[0]) then [x] + s
    else [s[0]] + Insert(x, s[1..], key)
  }

  /** Insertion adds exactly the inserted element. */
  lemma {:induction false} InsertPermutes<T>(x: T, s: seq<T>, key: T -> int)
    ensures multiset(Insert(x, s, key)) == multiset(s) + multiset{x}
  {
    if s != [] && key(x) > key(s[0]) {
      assert s == [s[0]] + s[1..];
      InsertPermutes(x, s[1..], key);
    }
  }

  /** Sorts `s` by `key`; elements with equal keys keep their relative order. */
  function SortBy<T>(s: seq<T>, key: T -> int): (r: seq<T>)
    ensures SortedBy(r, key)
    ensures multiset(r) == multiset(s)
  {
    if s == [] then []
    else
      assert s == [s[0]] + s[1..];
      var t := SortBy(s[1..], key);
      InsertSorted(s[0], t, key);
      InsertPermutes(s[0], t, key);
      Insert(s[0], t, key)
  }

  /** A suffix of a sorted sequence is sorted. */
  lemma SortedSuffix<T>(s: seq<T>, k: nat, key: T -> int)
    requires SortedBy(s, key) && k <= |s|
    ensures SortedBy(s[k..], key)
  {
    forall i, j | 0 <= i < j < |s[k..]| ensures key(s[k..][i]) <= key(s[k..][j]) {
      assert s[k..][i] == s[k + i] && s[k..][j] == s[k + j];
    }
  }

  /** Insertion keeps a lower bound that `x` respects as well. */
  lemma {:induction false} InsertAtLeast<T>(x: T, s: seq<T>, k: int, key: T -> int)
    requires AllAtLeast(s, k, key) && k <= key(x)
    ensures AllAtLeast(Insert(x, s, key), k, key)
  {
    if s != [] && key(x) > key(s[0]) {
      InsertAtLeast(x, s[1..], k, key);
    }
  }

  /** Insertion into a sorted sequence gives a sorted sequence. */
  lemma {:induction false} InsertSorted<T>(x: T, s: seq<T>, key: T -> int)
    requires SortedBy(s, key)
    ensures SortedBy(Insert(x, s, key), key)
  {
    if s != [] && key(x) > key(s[0]) {
      SortedSuffix(s, 1, key);
      InsertSorted(x, s[1..], key);
      InsertAtLeast(x, s[1..], key(s[0]), key);
    }
  }

  /** Inserting an element whose key does not exceed `x`'s into a list that
      ends in `x` leaves `x` at the end. */
  lemma {:induction false} InsertBeforeLast<T>(y: T, t: seq<T>, x: T, key: T -> int)
    requires key(y) <= key(x)
    ensures Insert(y, t + [x], key) == Insert(y, t, key) + [x]
  {
    var u := t + [x];
    if t == [] {
      assert u == [x];
    } else if key(y) <= key(t[0]) {
      assert u[0] == t[0];
      assert [y] + u == ([y] + t) + [x];
    } else {
      assert u[0] == t[0];
      assert u[1..] == t[1..] + [x];
      InsertBeforeLast(y, t[1..], x, key);
      var w := Insert(y, t[1..], key);
      assert Insert(y, u, key) == [t[0]] + (w + [x]);
      assert [t[0]] + (w + [x]) == ([t[0]] + w) + [x];
    }
  }

  /** Appending an element whose key is strictly above every other key
      appends it to the sorted result too. */
  lemma {:induction false} SortAppendMax<T>(s: seq<T>, x: T, key: T -> int)
    requires forall y :: y in s ==> key(y) < key(x)
    ensures SortBy(s + [x], key) == SortBy(s, key) + [x]
  {
    if s == [] {
      assert [] + [x] == [x];
      assert [x][1..] == [];
    } else {
      assert (s + [x])[0] == s[0];
      assert (s + [x])[1..] == s[1..] + [x];
      SortAppendMax(s[1..], x, key);
      InsertBeforeLast(s[0], SortBy(s[1..], key), x, key);
    }
  }

  /** An element whose key is strictly below every other element's key comes
      first after sorting. */
  lemma StrictMinimumFirst<T>(s: seq<T>, x: T, key: T -> int)
    requires x in s
    requires forall y :: y in s && y != x ==> key(x) < key(y)
    ensures SortBy(s, key) != [] && SortBy(s, key)[0] == x
  {
    var r := SortBy(s, key);
    assert x in multiset(r);
    var k :| 0 <= k < |r| && r[k] == x;
    assert r[0] in multiset(s);
    assert key(r[0]) <= key(r[k]);
  }
}
