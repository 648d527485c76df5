/** `Array.prototype.sort` with a numeric comparator `(a, b) => key(a) - key(b)`:
    a stable sort by an integer key, written as an insertion sort. A
    descending comparator `key(b) - key(a)` is the same sort by `-key`. */
module Sorting {

  /** Non-decreasing by `key`. */
  predicate SortedBy<T>(s: seq<T>, key: T -> int) {
    forall i, j :: 0 <= i < j < |s| ==> key(s[i]) <= key(s[j])
  }

  /** Inserts `x` before the first element whose key is at least its own, so
      `x` stays ahead of the equal-keyed elements that came after it. */
  function Insert<T>(x: T, s: seq<T>, key: T -> int): (r: seq<T>)
    ensures |r| == |s| + 1
    ensures multiset(r) == multiset(s) + multiset{x}
    decreases |s|
  {
    if |s| == 0 then [x]
    else if key(x) <= key(s[0]) then [x] + s
    else
      assert s == [s[0]] + s[1..];
      [s[0]] + Insert(x, s[1..], key)
  }

  /** An element whose key exceeds every other key goes last. */
  lemma {:induction false} InsertLargest<T>(x: T, s: seq<T>, key: T -> int)
    requires forall i :: 0 <= i < |s| ==> key(s[i]) < key(x)
    ensures Insert(x, s, key) == s + [x]
    decreases |s|
  {
    if |s| > 0 {
      InsertLargest(x, s[1..], key);
      assert s == [s[0]] + s[1..];
    }
  }

  /** The stably sorted sequence. */
  function SortBy<T>(s: seq<T>, key: T -> int): (r: seq<T>)
    ensures |r| == |s|
    ensures multiset(r) == multiset(s)
    decreases |s|
  {
    if |s| == 0 then []
    else
      assert s == [s[0]] + s[1..];
      Insert(s[0], SortBy(s[1..], key), key)
  }

  /** Sorting a sequence whose head has the largest key puts the head
      after the sorted rest. */
  lemma SortByLargestFirst<T>(s: seq<T>, key: T -> int, sorted: seq<T>)
    requires |s| > 0 && SortBy(s[1..], key) == sorted
    requires forall i :: 0 <= i < |sorted| ==> key(sorted[i]) < key(s[0])
    ensures SortBy(s, key) == sorted + [s[0]]
  {
    InsertLargest(s[0], sorted, key);
  }

  /** The elements of `s` whose key is `v`, in order. */
  function WithKey<T>(s: seq<T>, key: T -> int, v: int): (r: seq<T>)
    ensures |r| <= |s|
    decreases |s|
  {
    if |s| == 0 then []
    else if key(s[0]) == v then [s[0]] + WithKey(s[1..], key, v)
    else WithKey(s[1..], key, v)
  }

  lemma {:induction false} InsertSorted<T>(x: T, s: seq<T>, key: T -> int)
    requires SortedBy(s, key)
    ensures SortedBy(Insert(x, s, key), key)
    decreases |s|
  {
    if |s| > 0 && key(x) > key(s[0]) {
      InsertSorted(x, s[1..], key);
      var t := Insert(x, s[1..], key);
      assert multiset(t) == multiset(s[1..]) + multiset{x};
      forall k | 0 <= k < |t|
        ensures key(s[0]) <= key(t[k])
      {
        assert t[k] in multiset(t);
        if t[k] == x {
        } else {
          assert t[k] in multiset(s[1..]);
          var m :| 0 <= m < |s[1..]| && s[1..][m] == t[k];
          assert s[m + 1] == t[k];
        }
      }
    }
  }

  lemma {:induction false} WithKeyInsert<T>(x: T, s: seq<T>, key: T -> int, v: int)
    ensures WithKey(Insert(x, s, key), key, v)
         == (if key(x) == v then [x] + WithKey(s, key, v) else WithKey(s, key, v))
    decreases |s|
  {
    if |s| == 0 {
      assert [x][1..] == [];
    } else if key(x) <= key(s[0]) {
      assert ([x] + s)[1..] == s;
    } else {
      var r := [s[0]] + Insert(x, s[1..], key);
      assert r[1..] == Insert(x, s[1..], key);
      WithKeyInsert(x, s[1..], key, v);
    }
  }

  /** The sort's output is ordered by key. */
  lemma {:induction false} SortBySorted<T>(s: seq<T>, key: T -> int)
    ensures SortedBy(SortBy(s, key), key)
    decreases |s|
  {
    if |s| > 0 {
      SortBySorted(s[1..], key);
      InsertSorted(s[0], SortBy(s[1..], key), key);
    }
  }

  /** Stability: the elements that share a key keep their original relative
      order. */
  lemma {:induction false} SortByStable<T>(s: seq<T>, key: T -> int, v: int)
    ensures WithKey(SortBy(s, key), key, v) == WithKey(s, key, v)
    decreases |s|
  {
    if |s| > 0 {
      SortByStable(s[1..], key, v);
      WithKeyInsert(s[0], SortBy(s[1..], key), key, v);
    }
  }

  /** The elements satisfying `p`, in order (`Array.prototype.filter`). */
  function Filter<T>(s: seq<T>, p: T -> bool): (r: seq<T>)
    ensures |r| <= |s|
    ensures forall i :: 0 <= i < |r| ==> p(r[i])
    ensures multiset(r) <= multiset(s)
    decreases |s|
  {
    if |s| == 0 then []
    else
      assert s == [s[0]] + s[1..];
      if p(s[0]) then [s[0]] + Filter(s[1..], p) else Filter(s[1..], p)
  }

  /** `a` is `b` with some elements left out and the others in their
      order. */
  predicate Subsequence<T(==)>(a: seq<T>, b: seq<T>)
    decreases |b|
  {
    |a| == 0 || (|b| > 0 && if a[0] == b[0] then Subsequence(a[1..], b[1..]) else Subsequence(a, b[1..]))
  }

  /** `Filter` leaves elements out but never reorders them. */
  lemma {:induction false} FilterSubsequence<T>(s: seq<T>, p: T -> bool)
    ensures Subsequence(Filter(s, p), s)
    decreases |s|
  {
    if |s| > 0 {
      FilterSubsequence(s[1..], p);
      if p(s[0]) {
        assert ([s[0]] + Filter(s[1..], p))[1..] == Filter(s[1..], p);
      }
    }
  }

  /** `Filter` keeps the order and every occurrence of the elements
      satisfying `p`. */
  lemma FilterInOrder<T>(s: seq<T>, p: T -> bool)
    ensures Subsequence(Filter(s, p), s)
    ensures forall x :: multiset(Filter(s, p))[x] == if p(x) then multiset(s)[x] else 0
  {
    FilterSubsequence(s, p);
    forall x ensures multiset(Filter(s, p))[x] == if p(x) then multiset(s)[x] else 0 {
      FilterCount(s, p, x);
    }
  }

  /** Stable partition: the elements satisfying `p` first, then the others,
      each group in its original order. */
  function Partition<T>(s: seq<T>, p: T -> bool): (r: seq<T>)
  {
    Filter(s, p) + Filter(s, Not(p))
  }

  /** The negation of a predicate, as one value so that the two halves of a
      partition can be named. */
  function Not<T>(p: T -> bool): T -> bool {
    x => !p(x)
  }

  /** A partition rearranges the elements without adding or losing any. */
  lemma {:induction false} PartitionPermutes<T>(s: seq<T>, p: T -> bool)
    ensures multiset(Partition(s, p)) == multiset(s)
    decreases |s|
  {
    if |s| > 0 {
      PartitionPermutes(s[1..], p);
      assert s == [s[0]] + s[1..];
    }
  }

  /** Everything satisfying `p` comes before everything that does not. */
  lemma PartitionOrdered<T>(s: seq<T>, p: T -> bool)
    ensures var r := Partition(s, p);
      forall i, j :: 0 <= i < |r| && 0 <= j < |r| && !p(r[i]) && p(r[j]) ==> j < i
  {
    var a := Filter(s, p);
    var r := a + Filter(s, Not(p));
    assert forall i :: 0 <= i < |a| ==> r[i] == a[i];
  }

  /** `Filter` keeps exactly the elements satisfying `p`. */
  lemma {:induction false} FilterMembers<T>(s: seq<T>, p: T -> bool)
    ensures forall x :: x in Filter(s, p) <==> x in s && p(x)
    decreases |s|
  {
    if |s| > 0 {
      FilterMembers(s[1..], p);
      assert s == [s[0]] + s[1..];
      forall x ensures x in s <==> x == s[0] || x in s[1..] { }
    }
  }

  /** An element of one of two permutations of each other sits at some
      position of the other. */
  lemma PermutationIndex<T>(a: seq<T>, b: seq<T>, i: nat) returns (m: nat)
    requires multiset(a) == multiset(b) && i < |a|
    ensures m < |b| && b[m] == a[i]
  {
    assert a[i] in multiset(a);
    assert a[i] in multiset(b);
    m :| 0 <= m < |b| && b[m] == a[i];
  }

  /** Each element kept sits at some position of the input. */
  lemma FilterIndex<T>(s: seq<T>, p: T -> bool, k: nat) returns (j: nat)
    requires k < |Filter(s, p)|
    ensures j < |s| && s[j] == Filter(s, p)[k] && p(s[j])
  {
    var x := Filter(s, p)[k];
    assert x in multiset(Filter(s, p));
    assert x in multiset(s);
    j :| 0 <= j < |s| && s[j] == x;
  }

  lemma AppendAssoc<T>(a: seq<T>, b: seq<T>, c: seq<T>)
    ensures a + (b + c) == a + b + c
  {
  }

  /** `flatMap`: the sequences of the elements, one after another. */
  function FlatMap<T, U>(s: seq<T>, f: T -> seq<U>): seq<U>
    decreases |s|
  {
    if |s| == 0 then [] else f(s[0]) + FlatMap(s[1..], f)
  }

  /** Each position of a `flatMap` falls in the sequence of one element. */
  lemma {:induction false} FlatMapIndex<T, U>(s: seq<T>, f: T -> seq<U>, n: nat) returns (i: nat, k: nat)
    requires n < |FlatMap(s, f)|
    ensures i < |s| && k < |f(s[i])| && f(s[i])[k] == FlatMap(s, f)[n]
    decreases |s|
  {
    if n < |f(s[0])| {
      i, k := 0, n;
    } else {
      var i' := 0;
      i', k := FlatMapIndex(s[1..], f, n - |f(s[0])|);
      i := i' + 1;
    }
  }

  /** Everything in the sequence of an element is in the `flatMap`. */
  lemma {:induction false} FlatMapMember<T, U>(s: seq<T>, f: T -> seq<U>, i: nat, x: U)
    requires i < |s| && x in f(s[i])
    ensures x in FlatMap(s, f)
    decreases |s|
  {
    if i > 0 {
      FlatMapMember(s[1..], f, i - 1, x);
      assert s[1..][i - 1] == s[i];
    }
  }

  /** What holds of every element holds of every element kept. */
  lemma FilterKeeps<T>(s: seq<T>, p: T -> bool, q: T -> bool)
    requires forall i :: 0 <= i < |s| ==> q(s[i])
    ensures forall i :: 0 <= i < |Filter(s, p)| ==> q(Filter(s, p)[i])
  {
    forall i | 0 <= i < |Filter(s, p)| ensures q(Filter(s, p)[i]) {
      var x := Filter(s, p)[i];
      assert x in multiset(Filter(s, p));
      assert x in multiset(s);
      var k :| 0 <= k < |s| && s[k] == x;
    }
  }

  lemma SortedCons<T>(x: T, t: seq<T>, key: T -> int)
    requires SortedBy(t, key)
    requires forall y :: y in t ==> key(x) <= key(y)
    ensures SortedBy([x] + t, key)
  {
    var r := [x] + t;
    forall i, j | 0 <= i < j < |r| ensures key(r[i]) <= key(r[j]) {
      assert r[j] == t[j - 1];
      if i > 0 { assert r[i] == t[i - 1]; } else { assert r[j] in t; }
    }
  }

  lemma SortedTail<T>(s: seq<T>, key: T -> int)
    requires |s| > 0 && SortedBy(s, key)
    ensures SortedBy(s[1..], key)
    ensures forall y :: y in s[1..] ==> key(s[0]) <= key(y)
  {
    var tail := s[1..];
    forall i, j | 0 <= i < j < |tail| ensures key(tail[i]) <= key(tail[j]) {
      assert tail[i] == s[i + 1] && tail[j] == s[j + 1];
    }
    forall y | y in tail ensures key(s[0]) <= key(y) {
      var m :| 0 <= m < |tail| && tail[m] == y;
      assert s[m + 1] == y;
    }
  }

  /** A lower bound on the keys of a sequence bounds its filtered part. */
  lemma FilterBounded<T>(s: seq<T>, p: T -> bool, key: T -> int, v: int)
    requires forall y :: y in s ==> v <= key(y)
    ensures forall y :: y in Filter(s, p) ==> v <= key(y)
  {
    FilterMembers(s, p);
  }

  /** Filtering a sorted sequence leaves it sorted. */
  lemma {:induction false} FilterSorted<T>(s: seq<T>, p: T -> bool, key: T -> int)
    requires SortedBy(s, key)
    ensures SortedBy(Filter(s, p), key)
    decreases |s|
  {
    if |s| > 0 {
      var tail := s[1..];
      SortedTail(s, key);
      FilterSorted(tail, p, key);
      if p(s[0]) {
        FilterBounded(tail, p, key, key(s[0]));
        SortedCons(s[0], Filter(tail, p), key);
      }
    }
  }

  /** Filtering distributes over concatenation. */
  lemma {:induction false} FilterAppend<T>(s: seq<T>, t: seq<T>, p: T -> bool)
    ensures Filter(s + t, p) == Filter(s, p) + Filter(t, p)
    decreases |s|
  {
    if |s| == 0 {
      assert s + t == t;
    } else {
      var st := s + t;
      assert st[0] == s[0] && st[1..] == s[1..] + t;
      FilterAppend(s[1..], t, p);
      if p(s[0]) {
        calc {
          Filter(st, p);
          [s[0]] + Filter(s[1..] + t, p);
          [s[0]] + (Filter(s[1..], p) + Filter(t, p));
          ([s[0]] + Filter(s[1..], p)) + Filter(t, p);
        }
      }
    }
  }

  /** Only the first element satisfies `p`: it alone is kept. */
  lemma FilterOnlyHead<T>(s: seq<T>, p: T -> bool)
    requires |s| > 0 && p(s[0])
    requires forall i :: 1 <= i < |s| ==> !p(s[i])
    ensures Filter(s, p) == [s[0]]
  {
    forall i | 0 <= i < |s[1..]| ensures !p(s[1..][i]) {
      assert s[1..][i] == s[i + 1];
    }
    FilterNone(s[1..], p);
  }

  /** One more element is kept exactly when it satisfies `p`. */
  lemma FilterSnoc<T>(s: seq<T>, x: T, p: T -> bool)
    ensures Filter(s + [x], p) == Filter(s, p) + (if p(x) then [x] else [])
  {
    FilterAppend(s, [x], p);
    assert [x][1..] == [];
  }

  /** Nothing satisfies `p`: nothing is kept. */
  lemma {:induction false} FilterNone<T>(s: seq<T>, p: T -> bool)
    requires forall i :: 0 <= i < |s| ==> !p(s[i])
    ensures Filter(s, p) == []
    decreases |s|
  {
    if |s| > 0 {
      assert forall i :: 0 <= i < |s[1..]| ==> s[1..][i] == s[i + 1];
      FilterNone(s[1..], p);
    }
  }

  /** How often `x` survives the filter: as often as in `s` when it
      satisfies `p`, never otherwise. */
  lemma {:induction false} FilterCount<T>(s: seq<T>, p: T -> bool, x: T)
    ensures multiset(Filter(s, p))[x] == if p(x) then multiset(s)[x] else 0
    decreases |s|
  {
    if |s| > 0 {
      FilterCount(s[1..], p, x);
      assert s == [s[0]] + s[1..];
      assert multiset(s) == multiset{s[0]} + multiset(s[1..]);
      if p(s[0]) {
        assert multiset(Filter(s, p)) == multiset{s[0]} + multiset(Filter(s[1..], p));
      }
    }
  }

  /** Rearranging a sequence rearranges its filtered part the same way:
      both keep the same elements, as often. */
  lemma FilterPermutation<T>(a: seq<T>, b: seq<T>, p: T -> bool)
    requires multiset(a) == multiset(b)
    ensures multiset(Filter(a, p)) == multiset(Filter(b, p))
  {
    forall x ensures multiset(Filter(a, p))[x] == multiset(Filter(b, p))[x] {
      FilterCount(a, p, x);
      FilterCount(b, p, x);
    }
  }

  /** A sequence with the multiset of a single element is that element. */
  lemma SingletonMultiset<T>(s: seq<T>, x: T)
    requires multiset(s) == multiset{x}
    ensures s == [x]
  {
    assert |s| == |multiset(s)| == 1;
    assert s[0] in multiset(s);
  }

  /** When every element satisfying `p` has key `v`, the elements with key
      `v` contain all of them, in the same order. */
  lemma {:induction false} FilterWithKey<T>(s: seq<T>, p: T -> bool, key: T -> int, v: int)
    requires forall i :: 0 <= i < |s| && p(s[i]) ==> key(s[i]) == v
    ensures Filter(WithKey(s, key, v), p) == Filter(s, p)
    decreases |s|
  {
    if |s| > 0 {
      assert forall i :: 0 <= i < |s[1..]| ==> s[1..][i] == s[i + 1];
      FilterWithKey(s[1..], p, key, v);
      if key(s[0]) == v {
        assert ([s[0]] + WithKey(s[1..], key, v))[1..] == WithKey(s[1..], key, v);
      }
    }
  }

  /** A stable sort keeps the elements satisfying `p` in their original order
      when they all share one key. */
  lemma SortByFilterStable<T>(s: seq<T>, p: T -> bool, key: T -> int, v: int)
    requires forall i :: 0 <= i < |s| && p(s[i]) ==> key(s[i]) == v
    ensures Filter(SortBy(s, key), p) == Filter(s, p)
  {
    var r := SortBy(s, key);
    forall i | 0 <= i < |r| && p(r[i]) ensures key(r[i]) == v {
      assert r[i] in multiset(s);
    }
    FilterWithKey(r, p, key, v);
    SortByStable(s, key, v);
    FilterWithKey(s, p, key, v);
  }

  /** When every sorted key is at least a bound the first element does not
      exceed, sorting leaves the first element first. */
  lemma SortByBoundedHead<T>(s: seq<T>, key: T -> int, lo: int)
    requires |s| > 0 && key(s[0]) <= lo
    requires forall i :: 0 <= i < |s| ==> lo <= key(SortBy(s, key)[i])
    ensures SortBy(s, key)[0] == s[0]
  {
    var sorted := SortBy(s, key);
    forall i | 0 <= i < |s| ensures key(s[0]) <= key(s[i]) {
      var m := PermutationIndex(s, sorted, i);
    }
    SortByMinimalHead(s, key);
  }

  /** A first element whose key is no larger than any other stays first. */
  lemma SortByMinimalHead<T>(s: seq<T>, key: T -> int)
    requires |s| > 0
    requires forall i :: 0 <= i < |s| ==> key(s[0]) <= key(s[i])
    ensures SortBy(s, key)[0] == s[0]
  {
    var rest := SortBy(s[1..], key);
    if |rest| > 0 {
      assert rest[0] in multiset(s[1..]);
      var m :| 0 <= m < |s[1..]| && s[1..][m] == rest[0];
      assert s[m + 1] == rest[0];
    }
  }

  /** The first element of a sorted sequence has the smallest key. */
  lemma SortByHeadMinimal<T>(s: seq<T>, key: T -> int, k: nat)
    requires k < |s|
    ensures key(SortBy(s, key)[0]) <= key(s[k])
  {
    var r := SortBy(s, key);
    SortBySorted(s, key);
    assert s[k] in multiset(r);
    var m :| 0 <= m < |r| && r[m] == s[k];
  }

  /** Replacing an element `p` rejects by another it rejects leaves the
      filtered part alone. */
  lemma FilterUpdate<T>(s: seq<T>, k: nat, x: T, p: T -> bool)
    requires k < |s| && !p(s[k]) && !p(x)
    ensures Filter(s[k := x], p) == Filter(s, p)
  {
    assert s == s[..k] + ([s[k]] + s[k + 1..]);
    assert s[k := x] == s[..k] + ([x] + s[k + 1..]);
    FilterAppend(s[..k], [s[k]] + s[k + 1..], p);
    FilterAppend(s[..k], [x] + s[k + 1..], p);
    FilterAppend([s[k]], s[k + 1..], p);
    FilterAppend([x], s[k + 1..], p);
    assert [x][1..] == [] && [s[k]][1..] == [];
  }

  /** A prefix followed by a sorted run of elements `p` rejects. */
  lemma AppendSortedRun<T>(front: seq<T>, rest: seq<T>, p: T -> bool, key: T -> int)
    requires forall i :: 0 <= i < |rest| ==> !p(rest[i])
    requires SortedBy(rest, key)
    ensures var r := front + rest;
      r[..|front|] == front
      && (forall i :: |front| <= i < |r| ==> !p(r[i]))
      && (forall i, j :: |front| <= i < j < |r| ==> key(r[i]) <= key(r[j]))
  {
    var r := front + rest;
    assert r[..|front|] == front;
    forall i | |front| <= i < |r| ensures !p(r[i]) {
      assert r[i] == rest[i - |front|];
    }
    forall i, j | |front| <= i < j < |r| ensures key(r[i]) <= key(r[j]) {
      assert r[i] == rest[i - |front|] && r[j] == rest[j - |front|];
    }
  }

  /** The elements a filter by `Not(p)` keeps are rejected by `p`. */
  lemma FilterNot<T>(s: seq<T>, p: T -> bool)
    ensures forall i :: 0 <= i < |Filter(s, Not(p))| ==> !p(Filter(s, Not(p))[i])
  {
    var r := Filter(s, Not(p));
    forall i | 0 <= i < |r| ensures !p(r[i]) {
      assert Not(p)(r[i]);
    }
  }

  /** Sorting and then moving the elements satisfying `p` to the front, when
      those all share one key: the same elements; first the ones satisfying
      `p` in their original order, then the others sorted by key. */
  lemma PartitionSorted<T>(s: seq<T>, p: T -> bool, key: T -> int, v: int)
    requires forall i :: 0 <= i < |s| && p(s[i]) ==> key(s[i]) == v
    ensures var r := Partition(SortBy(s, key), p);
      var t := Filter(s, p);
      |r| == |s| && multiset(r) == multiset(s)
      && |t| <= |r| && r[..|t|] == t
      && (forall i :: |t| <= i < |r| ==> !p(r[i]))
      && (forall i, j :: |t| <= i < j < |r| ==> key(r[i]) <= key(r[j]))
  {
    var sorted := SortBy(s, key);
    SortByFilterStable(s, p, key, v);
    SortBySorted(s, key);
    FilterSorted(sorted, Not(p), key);
    FilterNot(sorted, p);
    PartitionPermutes(sorted, p);
    var r := Partition(sorted, p);
    assert |r| == |multiset(r)|;
    AppendSortedRun(Filter(sorted, p), Filter(sorted, Not(p)), p, key);
  }
}
