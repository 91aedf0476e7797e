/**
  The stable sort by an integer key that `Array.prototype.sort` performs when
  given a comparator `(a, b) => key(a) - key(b)`. It is specified by what a
  stable sort promises: the result is ordered by key, holds the same elements,
  and keeps the relative order of elements with equal keys (for every key, the
  elements carrying it appear in the same order as in the input).
 */
module Sorting {

  /** Keys never decrease from left to right. */
  ghost predicate SortedBy<T>(s: seq<T>, key: T -> int) {
    forall i, j :: 0 <= i < j < |s| ==> key(s[i]) <= key(s[j])
  }

  /** The elements of `s` whose key is `k`, in their order in `s`. */
  function WithKey<T>(s: seq<T>, key: T -> int, k: int): (r: seq<T>)
    ensures |r| <= |s|
    ensures forall x :: x in r ==> x in s && key(x) == k
  {
    if |s| == 0 then []
    else if key(s[0]) == k then [s[0]] + WithKey(s[1..], key, k)
    else WithKey(s[1..], key, k)
  }

  lemma {:induction false} WithKeyConcat<T>(a: seq<T>, b: seq<T>, key: T -> int, k: int)
    ensures WithKey(a + b, key, k) == WithKey(a, key, k) + WithKey(b, key, k)
    decreases |a|
  {
    if |a| == 0 {
      assert a + b == b;
    } else {
      assert (a + b)[0] == a[0] && (a + b)[1..] == a[1..] + b;
      WithKeyConcat(a[1..], b, key, k);
    }
  }

  /** Appending an element whose key bounds every key present keeps the order. */
  lemma AppendSorted<T>(s: seq<T>, x: T, key: T -> int)
    requires SortedBy(s, key)
    requires forall y :: y in s ==> key(y) <= key(x)
    ensures SortedBy(s + [x], key)
  {
    var r := s + [x];
    forall i, j | 0 <= i < j < |r| ensures key(r[i]) <= key(r[j]) {
      if j == |s| {
        assert r[i] in s;
      }
    }
  }

  /**
    Places `x` into a sorted sequence behind every element whose key is not
    larger, as a stable insertion does.
   */
  function Insert<T>(s: seq<T>, x: T, key: T -> int): (r: seq<T>)
    requires SortedBy(s, key)
    ensures SortedBy(r, key)
    ensures multiset(r) == multiset(s) + multiset{x}
    ensures forall k :: WithKey(r, key, k) == WithKey(s, key, k) + (if key(x) == k then [x] else [])
    decreases |s|
  {
    if |s| == 0 then
      [x]
    else if key(s[|s| - 1]) <= key(x) then
      InsertLast(s, x, key);
      s + [x]
    else
      var init, last := s[..|s| - 1], s[|s| - 1];
      assert s == init + [last];
      var r' := Insert(init, x, key);
      InsertBefore(init, last, x, key, r');
      r' + [last]
  }

  /** Appending an element whose key is at least the last key keeps the order. */
  lemma AppendAfterLast<T>(s: seq<T>, x: T, key: T -> int)
    requires SortedBy(s, key) && |s| > 0 && key(s[|s| - 1]) <= key(x)
    ensures SortedBy(s + [x], key)
  {
    var r := s + [x];
    forall i, j | 0 <= i < j < |r| ensures key(r[i]) <= key(r[j]) {
      if j == |s| && i < |s| - 1 {
        assert key(s[i]) <= key(s[|s| - 1]);
      }
    }
  }

  /** The case where `x` goes at the very end. */
  lemma InsertLast<T>(s: seq<T>, x: T, key: T -> int)
    requires SortedBy(s, key) && |s| > 0 && key(s[|s| - 1]) <= key(x)
    ensures SortedBy(s + [x], key)
    ensures forall k :: WithKey(s + [x], key, k) == WithKey(s, key, k) + (if key(x) == k then [x] else [])
  {
    AppendAfterLast(s, x, key);
    forall k ensures WithKey(s + [x], key, k) == WithKey(s, key, k) + (if key(x) == k then [x] else []) {
      WithKeyConcat(s, [x], key, k);
    }
  }

  /** The case where `x` goes before the last element, given the insertion into the rest. */
  lemma InsertBefore<T>(init: seq<T>, last: T, x: T, key: T -> int, r': seq<T>)
    requires SortedBy(init + [last], key) && key(x) < key(last)
    requires SortedBy(r', key)
    requires multiset(r') == multiset(init) + multiset{x}
    requires forall k :: WithKey(r', key, k) == WithKey(init, key, k) + (if key(x) == k then [x] else [])
    ensures SortedBy(r' + [last], key)
    ensures multiset(r' + [last]) == multiset(init + [last]) + multiset{x}
    ensures forall k :: WithKey(r' + [last], key, k) == WithKey(init + [last], key, k) + (if key(x) == k then [x] else [])
  {
    BelowLast(init, last, x, key, r');
    AppendSorted(r', last, key);
    InsertBeforeKeys(init, last, x, key, r');
  }

  lemma BelowLast<T>(init: seq<T>, last: T, x: T, key: T -> int, r': seq<T>)
    requires SortedBy(init + [last], key) && key(x) < key(last)
    requires multiset(r') == multiset(init) + multiset{x}
    ensures forall y :: y in r' ==> key(y) <= key(last)
  {
    var s := init + [last];
    forall y | y in r' ensures key(y) <= key(last) {
      assert y in multiset(r');
      if y != x {
        assert y in multiset(init);
        var i :| 0 <= i < |init| && init[i] == y;
        assert s[i] == y && s[|init|] == last;
      }
    }
  }

  lemma InsertBeforeKeys<T>(init: seq<T>, last: T, x: T, key: T -> int, r': seq<T>)
    requires key(x) < key(last)
    requires forall k :: WithKey(r', key, k) == WithKey(init, key, k) + (if key(x) == k then [x] else [])
    ensures forall k :: WithKey(r' + [last], key, k) == WithKey(init + [last], key, k) + (if key(x) == k then [x] else [])
  {
    forall k ensures WithKey(r' + [last], key, k) == WithKey(init + [last], key, k) + (if key(x) == k then [x] else []) {
      WithKeyConcat(r', [last], key, k);
      WithKeyConcat(init, [last], key, k);
    }
  }

  /** Stable insertion sort by `key`. */
  function SortBy<T>(s: seq<T>, key: T -> int): (r: seq<T>)
    ensures SortedBy(r, key)
    ensures multiset(r) == multiset(s)
    ensures forall k :: WithKey(r, key, k) == WithKey(s, key, k)
    decreases |s|
  {
    if |s| == 0 then
      []
    else
      var init, last := s[..|s| - 1], s[|s| - 1];
      assert s == init + [last];
      forall k ensures WithKey(s, key, k) == WithKey(init, key, k) + (if key(last) == k then [last] else []) {
        WithKeyConcat(init, [last], key, k);
      }
      Insert(SortBy(init, key), last, key)
  }

  /** `s[i]` is the first element of `s` with the least key. */
  ghost predicate IsFirstMin<T>(s: seq<T>, key: T -> int, i: int) {
    && 0 <= i < |s|
    && (forall j :: 0 <= j < |s| ==> key(s[i]) <= key(s[j]))
    && (forall j :: 0 <= j < i ==> key(s[i]) < key(s[j]))
  }

  /** The first element carrying key `k` heads the subsequence of key `k`. */
  lemma {:induction false} WithKeyHead<T>(s: seq<T>, key: T -> int, i: int)
    requires 0 <= i < |s|
    requires forall j :: 0 <= j < i ==> key(s[j]) != key(s[i])
    ensures WithKey(s, key, key(s[i])) != [] && WithKey(s, key, key(s[i]))[0] == s[i]
    decreases i
  {
    if i > 0 {
      WithKeyHead(s[1..], key, i - 1);
    }
  }

  /** A stable sort puts the first element of least key in front. */
  lemma SortedHead<T>(s: seq<T>, key: T -> int, i: int)
    requires IsFirstMin(s, key, i)
    ensures SortBy(s, key) != [] && SortBy(s, key)[0] == s[i]
  {
    var r := SortBy(s, key);
    var k := key(s[i]);
    assert s[i] in multiset(r);
    var j :| 0 <= j < |r| && r[j] == s[i];
    assert r[0] in multiset(s);
    var m :| 0 <= m < |s| && s[m] == r[0];
    assert key(r[0]) == k;
    WithKeyHead(s, key, i);
    assert WithKey(r, key, k) == WithKey(s, key, k);
  }

  /** A new front element with a larger key leaves the first minimum where it was, one place on. */
  lemma FirstMinBehindLarger<T>(b: T, s: seq<T>, key: T -> int, i: int)
    requires IsFirstMin(s, key, i) && key(s[i]) < key(b)
    ensures IsFirstMin([b] + s, key, i + 1) && ([b] + s)[i + 1] == s[i]
  {
    var r := [b] + s;
    forall j | 0 <= j < |r| ensures key(r[i + 1]) <= key(r[j]) {
      if j > 0 { assert r[j] == s[j - 1]; }
    }
    forall j | 0 <= j < i + 1 ensures key(r[i + 1]) < key(r[j]) {
      if j > 0 { assert r[j] == s[j - 1]; }
    }
  }

  /**
    Slipping an element `e` with a key no smaller than the front `b` in behind
    `b` keeps the first minimum, shifting it when it lies past `b`.
   */
  lemma FirstMinPastFront<T>(b: T, e: T, s: seq<T>, key: T -> int, i: int)
    requires IsFirstMin([b] + s, key, i) && key(b) <= key(e)
    ensures var i' := if i == 0 then 0 else i + 1;
            IsFirstMin([b, e] + s, key, i') && ([b, e] + s)[i'] == ([b] + s)[i]
  {
    var r, r0 := [b, e] + s, [b] + s;
    var i' := if i == 0 then 0 else i + 1;
    assert r[i'] == r0[i];
    forall j | 0 <= j < |r| ensures key(r[i']) <= key(r[j]) {
      if j == 1 {
        assert key(r0[i]) <= key(r0[0]);
      } else if j > 1 {
        assert r[j] == r0[j - 1];
      } else {
        assert r[j] == r0[0];
      }
    }
    forall j | 0 <= j < i' ensures key(r[i']) < key(r[j]) {
      if j == 1 {
        assert key(r0[i]) < key(r0[0]);
      } else if j > 1 {
        assert r[j] == r0[j - 1];
      } else {
        assert r[j] == r0[0];
      }
    }
  }

  /** The head of a sorted sequence has the least key. */
  lemma SortedHeadIsLeast<T>(s: seq<T>, key: T -> int)
    requires SortedBy(s, key) && |s| > 0
    ensures forall x :: x in s ==> key(s[0]) <= key(x)
  {
    forall x | x in s ensures key(s[0]) <= key(x) {
      var i :| 0 <= i < |s| && s[i] == x;
    }
  }

  /** A prefix of a sorted sequence is sorted, and its keys bound those of the rest from below. */
  lemma SortedPrefix<T>(s: seq<T>, key: T -> int, n: nat)
    requires SortedBy(s, key) && n <= |s|
    ensures SortedBy(s[..n], key)
    ensures forall x, y :: x in s[..n] && y in s[n..] ==> key(x) <= key(y)
  {
    forall x, y | x in s[..n] && y in s[n..] ensures key(x) <= key(y) {
      var i :| 0 <= i < n && s[i] == x;
      var j :| n <= j < |s| && s[j] == y;
    }
  }

  /** Sorting keeps the length and the elements. */
  lemma SortByKeepsElements<T>(s: seq<T>, key: T -> int)
    ensures |SortBy(s, key)| == |s|
    ensures forall x :: x in SortBy(s, key) <==> x in s
  {
    var r := SortBy(s, key);
    assert |multiset(r)| == |multiset(s)|;
    forall x ensures x in r <==> x in s {
      assert x in r <==> x in multiset(r);
      assert x in s <==> x in multiset(s);
    }
  }
}
