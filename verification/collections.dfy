/** Small facts about sequences shared by the other modules. */
module Collections {
  import opened Optional

  /** No element occurs twice. */
  predicate NoDuplicates<T(==)>(s: seq<T>) {
    forall i, j :: 0 <= i < j < |s| ==> s[i] != s[j]
  }

  /** Sum of an integer measure over a sequence. */
  function SumOf<T>(s: seq<T>, f: T -> int): int {
    if |s| == 0 then 0 else f(s[0]) + SumOf(s[1..], f)
  }

  lemma {:induction false} SumOfConcat<T>(a: seq<T>, b: seq<T>, f: T -> int)
    ensures SumOf(a + b, f) == SumOf(a, f) + SumOf(b, f)
    decreases |a|
  {
    if |a| == 0 {
      assert a + b == b;
    } else {
      assert (a + b)[0] == a[0] && (a + b)[1..] == a[1..] + b;
      SumOfConcat(a[1..], b, f);
    }
  }

  /** The elements satisfying `p`, in their original order (`Array.prototype.filter`). */
  function Filter<T(!new)>(s: seq<T>, p: T -> bool): (r: seq<T>)
    ensures |r| <= |s|
  {
    if |s| == 0 then []
    else
      assert s == [s[0]] + s[1..];
      (if p(s[0]) then [s[0]] else []) + Filter(s[1..], p)
  }

  /** Position of the first element satisfying `p` (`Array.prototype.find`). */
  function FindFirst<T(!new)>(s: seq<T>, p: T -> bool): (r: Option<nat>)
    ensures r.Some? ==> r.value < |s| && p(s[r.value])
    ensures r.Some? ==> forall j :: 0 <= j < r.value ==> !p(s[j])
    ensures r.None? <==> forall j :: 0 <= j < |s| ==> !p(s[j])
  {
    if |s| == 0 then None
    else if p(s[0]) then Some(0)
    else match FindFirst(s[1..], p)
      case None => None
      case Some(i) => Some(i + 1)
  }

  lemma {:induction false} FilterConcat<T(!new)>(a: seq<T>, b: seq<T>, p: T -> bool)
    ensures Filter(a + b, p) == Filter(a, p) + Filter(b, p)
    decreases |a|
  {
    if |a| == 0 {
      assert a + b == b;
    } else {
      var head := if p(a[0]) then [a[0]] else [];
      assert (a + b)[0] == a[0] && (a + b)[1..] == a[1..] + b;
      assert Filter(a + b, p) == head + Filter(a[1..] + b, p);
      FilterConcat(a[1..], b, p);
      assert Filter(a, p) == head + Filter(a[1..], p);
    }
  }

  /** Replacing one element changes the sum by the difference of the two measures. */
  lemma {:induction false} SumOfUpdate<T>(s: seq<T>, j: nat, x: T, f: T -> int)
    requires j < |s|
    ensures SumOf(s[j := x], f) == SumOf(s, f) - f(s[j]) + f(x)
    decreases |s|
  {
    if j > 0 {
      assert s[j := x][1..] == s[1..][j - 1 := x];
      SumOfUpdate(s[1..], j - 1, x, f);
    }
  }

  lemma FilterAppend<T(!new)>(s: seq<T>, x: T, p: T -> bool)
    ensures p(x) ==> Filter(s + [x], p) == Filter(s, p) + [x]
    ensures !p(x) ==> Filter(s + [x], p) == Filter(s, p)
  {
    FilterConcat(s, [x], p);
    assert [x][1..] == [];
    assert Filter(s, p) + [] == Filter(s, p);
  }

  /** Filtering keeps exactly the elements satisfying `p`. */
  lemma {:induction false} FilterMembers<T(!new)>(s: seq<T>, p: T -> bool)
    ensures forall x :: x in Filter(s, p) <==> x in s && p(x)
    decreases |s|
  {
    if |s| > 0 {
      assert s == [s[0]] + s[1..];
      FilterMembers(s[1..], p);
    }
  }

  /** Nothing passes a filter no element satisfies. */
  lemma {:induction false} FilterNone<T(!new)>(s: seq<T>, p: T -> bool)
    requires forall x :: x in s ==> !p(x)
    ensures Filter(s, p) == []
    decreases |s|
  {
    if |s| > 0 {
      assert s[0] in s;
      FilterNone(s[1..], p);
    }
  }

  /** Filtering keeps every element satisfying `p` as often as it occurs, and no other. */
  lemma {:induction false} FilterCounts<T(!new)>(s: seq<T>, p: T -> bool)
    ensures forall x :: multiset(Filter(s, p))[x] == if p(x) then multiset(s)[x] else 0
    decreases |s|
  {
    if |s| > 0 {
      assert s == [s[0]] + s[1..];
      FilterCounts(s[1..], p);
    }
  }

  /** An element at two positions occurs at least twice. */
  lemma TwiceInSeq<T>(s: seq<T>, i: nat, j: nat)
    requires i < j < |s| && s[i] == s[j]
    ensures multiset(s)[s[i]] >= 2
  {
    assert s == s[..i] + [s[i]] + s[i + 1..j] + [s[j]] + s[j + 1..];
  }

  /** A duplicate-free sequence holds each element at most once, and conversely. */
  lemma {:induction false} NoDuplicatesCounts<T>(s: seq<T>)
    ensures NoDuplicates(s) <==> forall x :: multiset(s)[x] <= 1
    decreases |s|
  {
    if NoDuplicates(s) {
      if |s| > 0 {
        assert s == [s[0]] + s[1..];
        assert NoDuplicates(s[1..]);
        NoDuplicatesCounts(s[1..]);
        assert s[0] !in s[1..];
      }
    } else {
      var i, j :| 0 <= i < j < |s| && s[i] == s[j];
      TwiceInSeq(s, i, j);
    }
  }

  /** Dropping the head of a duplicate-free sequence leaves a duplicate-free tail without the head. */
  lemma NoDuplicatesTail<T>(s: seq<T>)
    requires NoDuplicates(s) && |s| > 0
    ensures NoDuplicates(s[1..]) && s[0] !in s[1..]
  {
  }

  /** Two duplicate-free sequences with no element in common concatenate to a duplicate-free one. */
  lemma DisjointConcat<T>(a: seq<T>, b: seq<T>)
    requires NoDuplicates(a) && NoDuplicates(b)
    requires forall x :: x in b ==> x !in a
    ensures NoDuplicates(a + b)
  {
    var c := a + b;
    forall i, j | 0 <= i < j < |c| ensures c[i] != c[j] {
      if i < |a| && j >= |a| {
        assert c[j] in b;
      }
    }
  }

  /** A prefix of a duplicate-free sequence is duplicate-free. */
  lemma NoDuplicatesPrefix<T>(s: seq<T>, n: nat)
    requires NoDuplicates(s) && n <= |s|
    ensures NoDuplicates(s[..n])
  {
  }
}
