/**
 * Python's `sorted(xs, key=k, reverse=r)` and `xs.sort(key=k, reverse=r)`:
 * a stable sort by key, where `reverse=True` sorts in descending key order
 * and still keeps elements with equal keys in their original order.
 */
module Sorting {
  import opened Strings

  /** The sort keys the modelled code uses: integers (counts, ranks) and strings (names). */
  datatype Key = IntKey(n: int) | StrKey(s: string)

  /**
   * Python's `<=` on keys of one kind. Python refuses to compare an int with a
   * string; every sort modelled here uses keys of one kind only, and mixed keys
   * are ordered integers-first just to keep the order total.
   */
  predicate KeyLe(a: Key, b: Key) {
    match (a, b)
    case (IntKey(x), IntKey(y)) => x <= y
    case (StrKey(x), StrKey(y)) => LexLe(x, y)
    case (IntKey(_), StrKey(_)) => true
    case (StrKey(_), IntKey(_)) => false
  }

  lemma KeyLeTotalPreorder(a: Key, b: Key, c: Key)
    ensures KeyLe(a, a)
    ensures KeyLe(a, b) || KeyLe(b, a)
    ensures KeyLe(a, b) && KeyLe(b, a) ==> a == b
    ensures KeyLe(a, b) && KeyLe(b, c) ==> KeyLe(a, c)
  {
    if a.StrKey? {
      LexLeReflexive(a.s);
      if b.StrKey? {
        LexLeTotal(a.s, b.s);
        if LexLe(a.s, b.s) && LexLe(b.s, a.s) { LexLeAntisymmetric(a.s, b.s); }
        if c.StrKey? && LexLe(a.s, b.s) && LexLe(b.s, c.s) { LexLeTransitive(a.s, b.s, c.s); }
      }
    }
  }

  /** In the requested direction, an element with key `a` may stand before one with key `b`. */
  predicate InOrder(a: Key, b: Key, descending: bool) {
    if descending then KeyLe(b, a) else KeyLe(a, b)
  }

  predicate Sorted<T>(s: seq<T>, key: T -> Key, descending: bool) {
    forall i, j :: 0 <= i < j < |s| ==> InOrder(key(s[i]), key(s[j]), descending)
  }

  /** The elements of `s` whose key is `k`, in their order in `s`. */
  function WithKey<T>(s: seq<T>, key: T -> Key, k: Key): (r: seq<T>)
    ensures |r| <= |s|
  {
    if s == [] then []
    else (if key(s[0]) == k then [s[0]] else []) + WithKey(s[1..], key, k)
  }

  lemma {:induction false} WithKeyAppend<T>(a: seq<T>, b: seq<T>, key: T -> Key, k: Key)
    ensures WithKey(a + b, key, k) == WithKey(a, key, k) + WithKey(b, key, k)
  {
    if a != [] {
      var head := if key(a[0]) == k then [a[0]] else [];
      assert (a + b)[0] == a[0] && (a + b)[1..] == a[1..] + b;
      assert WithKey(a + b, key, k) == head + WithKey(a[1..] + b, key, k);
      WithKeyAppend(a[1..], b, key, k);
      assert WithKey(a, key, k) == head + WithKey(a[1..], key, k);
    } else {
      assert a + b == b;
    }
  }

  /** Puts `x` into `s` just before the first element that must come after it. */
  function Insert<T>(x: T, s: seq<T>, key: T -> Key, descending: bool): (r: seq<T>)
    ensures |r| == |s| + 1
  {
    if s == [] then [x]
    else if !InOrder(key(s[0]), key(x), descending) then [x] + s
    else [s[0]] + Insert(x, s[1..], key, descending)
  }

  /** Insertion sort that inserts the elements in input order, which makes it stable. */
  function SortBy<T>(s: seq<T>, key: T -> Key, descending: bool): (r: seq<T>)
    ensures |r| == |s|
    ensures multiset(r) == multiset(s)
    ensures Sorted(r, key, descending)
  {
    if s == [] then []
    else
      var rest := SortBy(s[..|s| - 1], key, descending);
      InsertKeepsSorted(s[|s| - 1], rest, key, descending);
      InsertMultiset(s[|s| - 1], rest, key, descending);
      assert s == s[..|s| - 1] + [s[|s| - 1]];
      Insert(s[|s| - 1], rest, key, descending)
  }

  lemma {:induction false} InsertMultiset<T>(x: T, s: seq<T>, key: T -> Key, descending: bool)
    ensures multiset(Insert(x, s, key, descending)) == multiset(s) + multiset{x}
  {
    if s != [] && InOrder(key(s[0]), key(x), descending) {
      InsertMultiset(x, s[1..], key, descending);
      assert s == [s[0]] + s[1..];
    }
  }

  /** Prefixing `x` keeps a sorted sequence sorted when `x` may stand before all of it. */
  lemma SortedCons<T>(x: T, s: seq<T>, key: T -> Key, descending: bool)
    requires Sorted(s, key, descending)
    requires forall j :: 0 <= j < |s| ==> InOrder(key(x), key(s[j]), descending)
    ensures Sorted([x] + s, key, descending)
  {
    var r := [x] + s;
    forall i, j | 0 <= i < j < |r| ensures InOrder(key(r[i]), key(r[j]), descending) {
      assert r[j] == s[j - 1];
      if i > 0 { assert r[i] == s[i - 1]; }
    }
  }

  /** Appending `x` keeps a sorted sequence sorted when every element may stand before `x`. */
  lemma SortedSnoc<T>(s: seq<T>, x: T, key: T -> Key, descending: bool)
    requires Sorted(s, key, descending)
    requires forall y :: y in s ==> InOrder(key(y), key(x), descending)
    ensures Sorted(s + [x], key, descending)
  {
    var r := s + [x];
    forall i, j | 0 <= i < j < |r| ensures InOrder(key(r[i]), key(r[j]), descending) {
      assert r[i] == s[i];
      if j < |s| { assert r[j] == s[j]; }
    }
  }

  lemma SortedTail<T>(s: seq<T>, key: T -> Key, descending: bool)
    requires s != [] && Sorted(s, key, descending)
    ensures Sorted(s[1..], key, descending)
    ensures forall j :: 0 <= j < |s| - 1 ==> InOrder(key(s[0]), key(s[1..][j]), descending)
  {
    forall i, j | 0 <= i < j < |s| - 1 ensures InOrder(key(s[1..][i]), key(s[1..][j]), descending) {
      assert s[1..][i] == s[i + 1] && s[1..][j] == s[j + 1];
    }
    forall j | 0 <= j < |s| - 1 ensures InOrder(key(s[0]), key(s[1..][j]), descending) {
      assert s[1..][j] == s[j + 1];
    }
  }

  /** Every element of `Insert(x, s)` is `x` or an element of `s`. */
  lemma {:induction false} InsertElements<T>(x: T, s: seq<T>, key: T -> Key, descending: bool, j: nat)
    requires j < |s| + 1
    ensures Insert(x, s, key, descending)[j] == x
         || exists i :: 0 <= i < |s| && Insert(x, s, key, descending)[j] == s[i]
  {
    if s != [] && InOrder(key(s[0]), key(x), descending) && j > 0 {
      InsertElements(x, s[1..], key, descending, j - 1);
      if Insert(x, s[1..], key, descending)[j - 1] != x {
        var i :| 0 <= i < |s| - 1 && Insert(x, s[1..], key, descending)[j - 1] == s[1..][i];
        assert s[1..][i] == s[i + 1];
      }
    } else if s != [] && !InOrder(key(s[0]), key(x), descending) && j > 0 {
      assert Insert(x, s, key, descending)[j] == s[j - 1];
    }
  }

  lemma {:induction false} InsertKeepsSorted<T>(x: T, s: seq<T>, key: T -> Key, descending: bool)
    requires Sorted(s, key, descending)
    ensures Sorted(Insert(x, s, key, descending), key, descending)
  {
    if s == [] {
    } else if !InOrder(key(s[0]), key(x), descending) {
      KeyLeTotalPreorder(key(s[0]), key(x), key(x));
      forall j | 0 <= j < |s| ensures InOrder(key(x), key(s[j]), descending) {
        if j > 0 {
          assert InOrder(key(s[0]), key(s[j]), descending);
          KeyLeTotalPreorder(key(x), key(s[0]), key(s[j]));
          KeyLeTotalPreorder(key(s[j]), key(s[0]), key(x));
        }
      }
      SortedCons(x, s, key, descending);
    } else {
      SortedTail(s, key, descending);
      InsertKeepsSorted(x, s[1..], key, descending);
      var r := Insert(x, s[1..], key, descending);
      forall j | 0 <= j < |r| ensures InOrder(key(s[0]), key(r[j]), descending) {
        InsertElements(x, s[1..], key, descending, j);
      }
      SortedCons(s[0], r, key, descending);
    }
  }

  lemma {:induction false} WithKeyNone<T>(s: seq<T>, key: T -> Key, k: Key)
    requires forall i :: 0 <= i < |s| ==> key(s[i]) != k
    ensures WithKey(s, key, k) == []
  {
    if s != [] {
      assert forall i :: 0 <= i < |s| - 1 ==> s[1..][i] == s[i + 1];
      WithKeyNone(s[1..], key, k);
    }
  }

  /** When `x` goes in front of a sorted `s`, nothing in `s` has the key of `x`. */
  lemma NoEqualKeyAfterInsertPoint<T>(x: T, s: seq<T>, key: T -> Key, descending: bool)
    requires s != [] && Sorted(s, key, descending)
    requires !InOrder(key(s[0]), key(x), descending)
    ensures WithKey(s, key, key(x)) == []
  {
    KeyLeTotalPreorder(key(s[0]), key(x), key(x));
    forall j | 0 <= j < |s| ensures key(s[j]) != key(x) {
      if j > 0 {
        assert InOrder(key(s[0]), key(s[j]), descending);
      }
    }
    WithKeyNone(s, key, key(x));
  }

  lemma {:induction false} InsertWithKey<T>(x: T, s: seq<T>, key: T -> Key, descending: bool, k: Key)
    requires Sorted(s, key, descending)
    ensures WithKey(Insert(x, s, key, descending), key, k)
         == WithKey(s, key, k) + (if key(x) == k then [x] else [])
  {
    if s == [] {
      assert WithKey([x], key, k) == (if key(x) == k then [x] else []) + WithKey([], key, k);
    } else if !InOrder(key(s[0]), key(x), descending) {
      InsertWithKeyFront(x, s, key, descending, k);
    } else {
      SortedTail(s, key, descending);
      InsertWithKey(x, s[1..], key, descending, k);
      InsertWithKeyLater(x, s, key, descending, k);
    }
  }

  lemma InsertWithKeyFront<T>(x: T, s: seq<T>, key: T -> Key, descending: bool, k: Key)
    requires s != [] && Sorted(s, key, descending) && !InOrder(key(s[0]), key(x), descending)
    ensures WithKey([x] + s, key, k) == WithKey(s, key, k) + (if key(x) == k then [x] else [])
  {
    WithKeyAppend([x], s, key, k);
    assert WithKey([x], key, k) == (if key(x) == k then [x] else []) + WithKey([], key, k);
    if key(x) == k {
      NoEqualKeyAfterInsertPoint(x, s, key, descending);
    }
  }

  lemma InsertWithKeyLater<T>(x: T, s: seq<T>, key: T -> Key, descending: bool, k: Key)
    requires s != [] && InOrder(key(s[0]), key(x), descending)
    requires WithKey(Insert(x, s[1..], key, descending), key, k)
          == WithKey(s[1..], key, k) + (if key(x) == k then [x] else [])
    ensures WithKey(Insert(x, s, key, descending), key, k)
         == WithKey(s, key, k) + (if key(x) == k then [x] else [])
  {
    var r := Insert(x, s[1..], key, descending);
    assert Insert(x, s, key, descending) == [s[0]] + r;
    WithKeyAppend([s[0]], r, key, k);
    WithKeyAppend([s[0]], s[1..], key, k);
    assert s == [s[0]] + s[1..];
  }

  /**
   * Stability: for every key, the elements carrying that key appear in the
   * sorted result in exactly the order they had in the input.
   */
  lemma {:induction false} SortByStable<T>(s: seq<T>, key: T -> Key, descending: bool, k: Key)
    ensures WithKey(SortBy(s, key, descending), key, k) == WithKey(s, key, k)
  {
    if s != [] {
      var init, last := s[..|s| - 1], s[|s| - 1];
      var sortedInit := SortBy(init, key, descending);
      SortByLast(s, key, descending);
      SortByStable(init, key, descending, k);
      InsertWithKey(last, sortedInit, key, descending, k);
      WithKeySnoc(init, last, key, k);
      assert s == init + [last];
    }
  }

  /** Sorting neither adds nor loses an element. */
  lemma SortByMembers<T>(s: seq<T>, key: T -> Key, descending: bool, x: T)
    ensures x in SortBy(s, key, descending) <==> x in s
  {
    assert x in multiset(SortBy(s, key, descending)) <==> x in multiset(s);
  }

  lemma SortByLast<T>(s: seq<T>, key: T -> Key, descending: bool)
    requires s != []
    ensures SortBy(s, key, descending) == Insert(s[|s| - 1], SortBy(s[..|s| - 1], key, descending), key, descending)
  {
  }

  lemma WithKeySnoc<T>(init: seq<T>, last: T, key: T -> Key, k: Key)
    ensures WithKey(init + [last], key, k) == WithKey(init, key, k) + (if key(last) == k then [last] else [])
  {
    WithKeyAppend(init, [last], key, k);
    assert WithKey([last], key, k) == (if key(last) == k then [last] else []) + WithKey([], key, k);
  }
}
