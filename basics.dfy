/** Small value types and sequence helpers shared by the account store,
    the mail generator and the task runner. */
module Basics {

  /** A value that may be absent: SQL NULL, Python None, a missing key. */
  datatype Option<T> = None | Some(value: T)

  /** The outcome of an operation that can raise. */
  datatype Result<T> = Ok(value: T) | Err(error: string)

  /** Elements of s for which p holds, in their original order (a WHERE clause). */
  function Filter<T>(s: seq<T>, p: T -> bool): (r: seq<T>)
    ensures |r| <= |s|
    ensures forall i :: 0 <= i < |r| ==> r[i] in s && p(r[i])
    ensures forall i :: 0 <= i < |s| && p(s[i]) ==> s[i] in r
    ensures multiset(r) <= multiset(s)
  {
    if s == [] then []
    else
      assert s == [s[0]] + s[1..];
      if p(s[0]) then [s[0]] + Filter(s[1..], p)
      else Filter(s[1..], p)
  }

  /** Number of elements of s for which p holds (COUNT(*) ... WHERE p). */
  function Count<T>(s: seq<T>, p: T -> bool): nat
  {
    if s == [] then 0 else (if p(s[0]) then 1 else 0) + Count(s[1..], p)
  }

  /** Sum of g over the elements of s (SUM(g)). */
  function SumBy<T>(s: seq<T>, g: T -> int): int
  {
    if s == [] then 0 else g(s[0]) + SumBy(s[1..], g)
  }

  lemma {:induction false} FilterCount<T>(s: seq<T>, p: T -> bool)
    ensures |Filter(s, p)| == Count(s, p)
  {
    if s != [] { FilterCount(s[1..], p); }
  }

  /** A predicate and its negation split every sequence. */
  lemma {:induction false} CountComplement<T>(s: seq<T>, p: T -> bool, q: T -> bool)
    requires forall x :: q(x) == !p(x)
    ensures Count(s, p) + Count(s, q) == |s|
  {
    if s != [] { CountComplement(s[1..], p, q); }
  }

  lemma {:induction false} SumByAppend<T>(s: seq<T>, t: seq<T>, g: T -> int)
    ensures SumBy(s + t, g) == SumBy(s, g) + SumBy(t, g)
  {
    if s != [] {
      assert (s + t)[0] == s[0];
      assert (s + t)[1..] == s[1..] + t;
      SumByAppend(s[1..], t, g);
    } else {
      assert s + t == t;
    }
  }

  lemma {:induction false} CountAppend<T>(s: seq<T>, t: seq<T>, p: T -> bool)
    ensures Count(s + t, p) == Count(s, p) + Count(t, p)
  {
    if s != [] {
      assert (s + t)[0] == s[0];
      assert (s + t)[1..] == s[1..] + t;
      CountAppend(s[1..], t, p);
    } else {
      assert s + t == t;
    }
  }

  /** A filter keeps each element satisfying p exactly as often as s holds it, and no other. */
  lemma {:induction false} FilterMultiset<T>(s: seq<T>, p: T -> bool)
    ensures forall x :: multiset(Filter(s, p))[x] == if p(x) then multiset(s)[x] else 0
  {
    if s != [] {
      FilterMultiset(s[1..], p);
      assert s == [s[0]] + s[1..];
      assert multiset(s) == multiset{s[0]} + multiset(s[1..]);
    }
  }

  /** Every element a filter keeps comes from some position of the input. */
  lemma FilterFrom<T>(s: seq<T>, p: T -> bool, k: int)
    requires 0 <= k < |Filter(s, p)|
    ensures exists m :: 0 <= m < |s| && s[m] == Filter(s, p)[k]
  {
    assert Filter(s, p)[k] in s;
  }

  /** s is ordered from the largest key to the smallest (ORDER BY key DESC). */
  predicate NonIncreasing<T>(s: seq<T>, key: T -> int)
  {
    forall i, j :: 0 <= i < j < |s| ==> key(s[i]) >= key(s[j])
  }

  /** No two elements of s agree on f. */
  predicate DistinctBy<T, U(==)>(s: seq<T>, f: T -> U)
  {
    forall i, j :: 0 <= i < j < |s| ==> f(s[i]) != f(s[j])
  }

  /** A filter keeps elements that were distinct under f distinct. */
  lemma {:induction false} FilterDistinct<T, U>(s: seq<T>, p: T -> bool, f: T -> U)
    requires DistinctBy(s, f)
    ensures DistinctBy(Filter(s, p), f)
  {
    if s != [] {
      var tail := s[1..];
      FilterDistinct(tail, p, f);
      var rest := Filter(tail, p);
      if p(s[0]) {
        var r := Filter(s, p);
        assert r == [s[0]] + rest;
        FilteredDiffersFromHead(s, p, f);
        ConsDistinct(s[0], rest, f);
      }
    }
  }

  /** Putting an element in front of a distinct sequence it differs from keeps it distinct. */
  lemma ConsDistinct<T, U>(x: T, s: seq<T>, f: T -> U)
    requires DistinctBy(s, f)
    requires forall k :: 0 <= k < |s| ==> f(s[k]) != f(x)
    ensures DistinctBy([x] + s, f)
  {
    var r := [x] + s;
    forall i, j | 0 <= i < j < |r|
      ensures f(r[i]) != f(r[j])
    {
      assert r[j] == s[j - 1];
      if i > 0 { assert r[i] == s[i - 1]; }
    }
  }

  /** Appending an element a distinct sequence differs from keeps it distinct. */
  lemma SnocDistinct<T, U>(s: seq<T>, x: T, f: T -> U)
    requires DistinctBy(s, f)
    requires forall k :: 0 <= k < |s| ==> f(s[k]) != f(x)
    ensures DistinctBy(s + [x], f)
  {
    var r := s + [x];
    forall i, j | 0 <= i < j < |r|
      ensures f(r[i]) != f(r[j])
    {
      assert r[i] == s[i];
      if j < |s| { assert r[j] == s[j]; }
    }
  }

  /** Nothing a filter keeps from the tail of a distinct s agrees with its head under f. */
  lemma FilteredDiffersFromHead<T, U>(s: seq<T>, p: T -> bool, f: T -> U)
    requires s != [] && DistinctBy(s, f)
    ensures forall k :: 0 <= k < |Filter(s[1..], p)| ==> f(Filter(s[1..], p)[k]) != f(s[0])
  {
    var tail := s[1..];
    forall k | 0 <= k < |Filter(tail, p)|
      ensures f(Filter(tail, p)[k]) != f(s[0])
    {
      FilterFrom(tail, p, k);
      var m :| 0 <= m < |tail| && tail[m] == Filter(tail, p)[k];
      assert s[m + 1] == tail[m];
    }
  }

  /** A filter keeps a bound that every element satisfies. */
  lemma FilterBounded<T>(s: seq<T>, p: T -> bool, g: T -> int, lo: int, hi: int)
    requires forall i :: 0 <= i < |s| ==> lo < g(s[i]) <= hi
    ensures forall k :: 0 <= k < |Filter(s, p)| ==> lo < g(Filter(s, p)[k]) <= hi
  {
    forall k | 0 <= k < |Filter(s, p)|
      ensures lo < g(Filter(s, p)[k]) <= hi
    {
      FilterFrom(s, p, k);
    }
  }

  /** Inserts x into a non-increasing s before the first element whose key is not larger. */
  function InsertDesc<T>(x: T, s: seq<T>, key: T -> int): (r: seq<T>)
    requires NonIncreasing(s, key)
    ensures |r| == |s| + 1
    ensures NonIncreasing(r, key)
    ensures multiset(r) == multiset(s) + multiset{x}
  {
    if s == [] || key(s[0]) <= key(x) then [x] + s
    else
      var rest := InsertDesc(x, s[1..], key);
      BoundedByHead(s, x, rest, key);
      assert s == [s[0]] + s[1..];
      [s[0]] + rest
  }

  /** Every element of a rearrangement of s[1..] and x lies at or below s's head key. */
  lemma BoundedByHead<T>(s: seq<T>, x: T, rest: seq<T>, key: T -> int)
    requires s != [] && NonIncreasing(s, key) && key(x) < key(s[0])
    requires multiset(rest) == multiset(s[1..]) + multiset{x}
    ensures forall k :: 0 <= k < |rest| ==> key(rest[k]) <= key(s[0])
  {
    forall k | 0 <= k < |rest|
      ensures key(rest[k]) <= key(s[0])
    {
      assert rest[k] in multiset(rest);
      if rest[k] != x {
        assert rest[k] in multiset(s[1..]);
        var m :| 0 <= m < |s[1..]| && s[1..][m] == rest[k];
        assert s[m + 1] == rest[k];
      }
    }
  }

  /** s rearranged into non-increasing key order (a stable insertion sort). */
  function SortDesc<T>(s: seq<T>, key: T -> int): (r: seq<T>)
    ensures |r| == |s|
    ensures NonIncreasing(r, key)
    ensures multiset(r) == multiset(s)
  {
    if s == [] then []
    else
      assert s == [s[0]] + s[1..];
      InsertDesc(s[0], SortDesc(s[1..], key), key)
  }

  lemma {:induction false} InsertDescSum<T>(x: T, s: seq<T>, key: T -> int, g: T -> int)
    requires NonIncreasing(s, key)
    ensures SumBy(InsertDesc(x, s, key), g) == g(x) + SumBy(s, g)
  {
    if s != [] && key(s[0]) > key(x) {
      InsertDescSum(x, s[1..], key, g);
    }
  }

  /** Sorting does not change a sum over the elements. */
  lemma {:induction false} SortDescSum<T>(s: seq<T>, key: T -> int, g: T -> int)
    ensures SumBy(SortDesc(s, key), g) == SumBy(s, g)
  {
    if s != [] {
      SortDescSum(s[1..], key, g);
      InsertDescSum(s[0], SortDesc(s[1..], key), key, g);
    }
  }

  lemma {:induction false} InsertDescDistinct<T, U>(x: T, s: seq<T>, key: T -> int, f: T -> U)
    requires NonIncreasing(s, key)
    requires DistinctBy(s, f)
    requires forall y :: y in s ==> f(y) != f(x)
    ensures DistinctBy(InsertDesc(x, s, key), f)
  {
    var r := InsertDesc(x, s, key);
    if s == [] || key(s[0]) <= key(x) {
      assert r == [x] + s;
      assert forall k :: 0 <= k < |s| ==> s[k] in s;
      ConsDistinct(x, s, f);
    } else {
      InsertDescDistinct(x, s[1..], key, f);
      var rest := InsertDesc(x, s[1..], key);
      assert r == [s[0]] + rest;
      InsertedDiffersFromHead(x, s, key, f);
      ConsDistinct(s[0], rest, f);
    }
  }

  /** No element inserted behind the head of a distinct s agrees with the head under f. */
  lemma InsertedDiffersFromHead<T, U>(x: T, s: seq<T>, key: T -> int, f: T -> U)
    requires s != [] && NonIncreasing(s, key)
    requires DistinctBy(s, f)
    requires forall y :: y in s ==> f(y) != f(x)
    ensures forall k :: 0 <= k < |InsertDesc(x, s[1..], key)| ==> f(InsertDesc(x, s[1..], key)[k]) != f(s[0])
  {
    var rest := InsertDesc(x, s[1..], key);
    forall k | 0 <= k < |rest|
      ensures f(rest[k]) != f(s[0])
    {
      assert rest[k] in multiset(s[1..]) + multiset{x};
      if rest[k] != x {
        assert rest[k] in s[1..];
        var m :| 0 <= m < |s[1..]| && s[1..][m] == rest[k];
        assert s[m + 1] == rest[k];
      }
    }
  }

  /** Sorting keeps elements that were distinct under f distinct. */
  lemma {:induction false} SortDescDistinct<T, U>(s: seq<T>, key: T -> int, f: T -> U)
    requires DistinctBy(s, f)
    ensures DistinctBy(SortDesc(s, key), f)
  {
    if s != [] {
      SortDescDistinct(s[1..], key, f);
      var sorted := SortDesc(s[1..], key);
      assert forall y :: y in sorted ==> y in multiset(s[1..]);
      assert forall y :: y in s[1..] ==> f(y) != f(s[0]);
      InsertDescDistinct(s[0], sorted, key, f);
    }
  }
}
