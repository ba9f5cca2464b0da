/**
 * Sequence helpers the allocator is built from: LINQ's `Where` (Filter),
 * LINQ's stable `OrderBy` (SortBy), list reversal, and the mutable
 * `System.Collections.Generic.List<T>` that the allocator drains.
 */
module Collections {

  datatype Option<+T> = None | Some(value: T)

  /** LINQ `Where`: the elements of `s` satisfying `p`, in their original order. */
  function Filter<T>(s: seq<T>, p: T -> bool): (r: seq<T>)
    ensures |r| <= |s|
  {
    if s == [] then [] else (if p(s[0]) then [s[0]] else []) + Filter(s[1..], p)
  }

  /** Filtering keeps only elements of `s`, and only those satisfying `p`. */
  lemma {:induction false} FilterMembers<T>(s: seq<T>, p: T -> bool)
    ensures forall x :: x in Filter(s, p) ==> x in s && p(x)
  {
    if s != [] {
      FilterMembers(s[1..], p);
    }
  }

  /** Every element of `s` that satisfies `p` survives filtering. */
  lemma {:induction false} FilterKeeps<T>(s: seq<T>, p: T -> bool)
    ensures forall i :: 0 <= i < |s| && p(s[i]) ==> s[i] in Filter(s, p)
  {
    if s != [] {
      FilterKeeps(s[1..], p);
      forall i | 1 <= i < |s| && p(s[i])
        ensures s[i] in Filter(s, p)
      {
        assert s[i] == s[1..][i - 1];
      }
    }
  }

  lemma {:induction false} FilterConcat<T>(a: seq<T>, b: seq<T>, p: T -> bool)
    ensures Filter(a + b, p) == Filter(a, p) + Filter(b, p)
  {
    if a == [] {
      assert a + b == b;
    } else {
      var head := if p(a[0]) then [a[0]] else [];
      assert (a + b)[0] == a[0] && (a + b)[1..] == a[1..] + b;
      FilterConcat(a[1..], b, p);
      assert Filter(a + b, p) == head + (Filter(a[1..], p) + Filter(b, p));
      assert Filter(a, p) == head + Filter(a[1..], p);
    }
  }

  /** Filtering with `q` after `p` is filtering with `q` alone, when `q` implies `p`. */
  lemma {:induction false} FilterSubsumed<T>(s: seq<T>, p: T -> bool, q: T -> bool)
    requires forall x :: q(x) ==> p(x)
    ensures Filter(Filter(s, p), q) == Filter(s, q)
  {
    if s != [] {
      FilterSubsumed(s[1..], p, q);
      FilterConcat(if p(s[0]) then [s[0]] else [], Filter(s[1..], p), q);
    }
  }

  /** Filtering drops every element when none of them satisfies `p`. */
  lemma {:induction false} FilterNoneKept<T>(s: seq<T>, p: T -> bool)
    requires forall i :: 0 <= i < |s| ==> !p(s[i])
    ensures Filter(s, p) == []
  {
    if s != [] {
      FilterNoneKept(s[1..], p);
    }
  }

  /** `s` read from its last element to its first. */
  function Reverse<T>(s: seq<T>): (r: seq<T>)
    ensures |r| == |s|
    ensures forall i :: 0 <= i < |s| ==> r[i] == s[|s| - 1 - i]
  {
    if s == [] then [] else Reverse(s[1..]) + [s[0]]
  }

  lemma ReverseMultiset<T>(s: seq<T>)
    ensures multiset(Reverse(s)) == multiset(s)
  {
    if s != [] {
      ReverseMultiset(s[1..]);
      assert s == [s[0]] + s[1..];
    }
  }

  lemma {:induction false} FilterReverse<T>(s: seq<T>, p: T -> bool)
    ensures Filter(Reverse(s), p) == Reverse(Filter(s, p))
  {
    if s != [] {
      var rest := Filter(s[1..], p);
      FilterReverse(s[1..], p);
      FilterConcat(Reverse(s[1..]), [s[0]], p);
      assert Filter(Reverse(s), p) == Reverse(rest) + Filter([s[0]], p);
      if p(s[0]) {
        assert Filter(s, p) == [s[0]] + rest;
        assert ([s[0]] + rest)[1..] == rest;
      } else {
        assert Filter(s, p) == rest;
      }
    }
  }

  ghost predicate SortedBy<T>(s: seq<T>, key: T -> int)
  {
    forall i, j :: 0 <= i < j < |s| ==> key(s[i]) <= key(s[j])
  }

  /** A sequence sorted ascending reads descending when reversed. */
  lemma ReverseSortedBy<T>(s: seq<T>, key: T -> int)
    requires SortedBy(s, key)
    ensures forall i, j :: 0 <= i < j < |s| ==> key(Reverse(s)[i]) >= key(Reverse(s)[j])
  {
  }

  /**
   * Inserts `x` into `t` before the first element whose key is not smaller,
   * so that `x` precedes the elements of `t` that share its key.
   */
  function InsertBy<T>(x: T, t: seq<T>, key: T -> int): seq<T>
  {
    if t == [] then [x]
    else if key(x) <= key(t[0]) then [x] + t
    else [t[0]] + InsertBy(x, t[1..], key)
  }

  lemma {:induction false} InsertByPermutes<T>(x: T, t: seq<T>, key: T -> int)
    ensures multiset(InsertBy(x, t, key)) == multiset(t) + multiset{x}
  {
    if t != [] && key(x) > key(t[0]) {
      InsertByPermutes(x, t[1..], key);
      assert t == [t[0]] + t[1..];
    }
  }

  /** LINQ `OrderBy(key)`: a stable ascending sort (insertion sort from the back). */
  function SortBy<T>(s: seq<T>, key: T -> int): seq<T>
  {
    if s == [] then [] else InsertBy(s[0], SortBy(s[1..], key), key)
  }

  /** SortBy only reorders: the result holds the same elements, equally often. */
  lemma {:induction false} SortByPermutes<T>(s: seq<T>, key: T -> int)
    ensures multiset(SortBy(s, key)) == multiset(s)
  {
    if s != [] {
      SortByPermutes(s[1..], key);
      InsertByPermutes(s[0], SortBy(s[1..], key), key);
      assert s == [s[0]] + s[1..];
    }
  }

  lemma {:induction false} InsertBySorted<T>(x: T, t: seq<T>, key: T -> int)
    requires SortedBy(t, key)
    ensures SortedBy(InsertBy(x, t, key), key)
  {
    if t != [] && key(x) > key(t[0]) {
      var tail := InsertBy(x, t[1..], key);
      InsertBySorted(x, t[1..], key);
      InsertByPermutes(x, t[1..], key);
      forall y | y in tail
        ensures key(t[0]) <= key(y)
      {
        assert y in multiset(t[1..]) + multiset{x};
      }
    }
  }

  lemma {:induction false} SortBySorted<T>(s: seq<T>, key: T -> int)
    ensures SortedBy(SortBy(s, key), key)
  {
    if s != [] {
      SortBySorted(s[1..], key);
      InsertBySorted(s[0], SortBy(s[1..], key), key);
    }
  }

  /** Among the elements `q` selects, all of one key `k`, insertion puts `x` first. */
  lemma {:induction false} InsertByStable<T>(x: T, t: seq<T>, key: T -> int, q: T -> bool, k: int)
    requires forall y :: q(y) ==> key(y) == k
    ensures Filter(InsertBy(x, t, key), q) == Filter([x], q) + Filter(t, q)
  {
    if t == [] {
    } else if key(x) <= key(t[0]) {
      FilterConcat([x], t, q);
    } else {
      var rest := InsertBy(x, t[1..], key);
      InsertByStable(x, t[1..], key, q, k);
      FilterConcat([t[0]], rest, q);
      FilterConcat([t[0]], t[1..], q);
      assert t == [t[0]] + t[1..];
      // t[0] and x have different keys, so `q` keeps at most one of them
      assert !(q(t[0]) && q(x));
      assert Filter([t[0]], q) + Filter([x], q) == Filter([x], q) + Filter([t[0]], q);
    }
  }

  /**
   * Stability of SortBy: the elements of one key keep their input order.
   * `q` may select any subset of the elements with key `k`.
   */
  lemma {:induction false} SortByStable<T>(s: seq<T>, key: T -> int, q: T -> bool, k: int)
    requires forall y :: q(y) ==> key(y) == k
    ensures Filter(SortBy(s, key), q) == Filter(s, q)
  {
    if s != [] {
      SortByStable(s[1..], key, q, k);
      InsertByStable(s[0], SortBy(s[1..], key), key, q, k);
      FilterConcat([s[0]], s[1..], q);
      assert s == [s[0]] + s[1..];
    }
  }

  /** Filtering a sorted sequence gives the same elements as filtering the input. */
  lemma {:induction false} SortByFilterMultiset<T>(s: seq<T>, key: T -> int, p: T -> bool)
    ensures multiset(Filter(SortBy(s, key), p)) == multiset(Filter(s, p))
  {
    if s != [] {
      SortByFilterMultiset(s[1..], key, p);
      InsertByFilterMultiset(s[0], SortBy(s[1..], key), key, p);
      FilterConcat([s[0]], s[1..], p);
      assert s == [s[0]] + s[1..];
    }
  }

  lemma {:induction false} InsertByFilterMultiset<T>(x: T, t: seq<T>, key: T -> int, p: T -> bool)
    ensures multiset(Filter(InsertBy(x, t, key), p)) == multiset(Filter([x], p)) + multiset(Filter(t, p))
  {
    if t == [] {
    } else if key(x) <= key(t[0]) {
      FilterConcat([x], t, p);
    } else {
      InsertByFilterMultiset(x, t[1..], key, p);
      FilterConcat([t[0]], InsertBy(x, t[1..], key), p);
      FilterConcat([t[0]], t[1..], p);
      assert t == [t[0]] + t[1..];
    }
  }

  /**
   * Two filters that never both keep an element of `s` together keep what
   * a third filter keeps, when the third keeps exactly what either does.
   */
  lemma {:induction false} FilterSplit<T>(s: seq<T>, p: T -> bool, q: T -> bool, r: T -> bool)
    requires forall i :: 0 <= i < |s| ==> !(p(s[i]) && q(s[i])) && (r(s[i]) <==> p(s[i]) || q(s[i]))
    ensures multiset(Filter(s, p)) + multiset(Filter(s, q)) == multiset(Filter(s, r))
  {
    if s != [] {
      FilterSplit(s[1..], p, q, r);
    }
  }

  /** A filtered sorted sequence is still sorted. */
  lemma {:induction false} FilterSortedBy<T>(s: seq<T>, p: T -> bool, key: T -> int)
    requires SortedBy(s, key)
    ensures SortedBy(Filter(s, p), key)
  {
    if s != [] {
      FilterSortedBy(s[1..], p, key);
      FilterMembers(s[1..], p);
      forall y | y in Filter(s[1..], p)
        ensures key(s[0]) <= key(y)
      {
        var j :| 0 <= j < |s[1..]| && s[1..][j] == y;
        assert s[j + 1] == y;
      }
    }
  }

  /** Position `i` holds the last occurrence of its element in `s`. */
  predicate LastOccurrence<T(==)>(s: seq<T>, i: int)
  {
    0 <= i < |s| && forall j :: i < j < |s| ==> s[j] != s[i]
  }

  /** Every element of `s` has a last occurrence at or after any of its positions. */
  lemma {:induction false} LastOccurrenceExists<T>(s: seq<T>, i: int) returns (j: int)
    requires 0 <= i < |s|
    ensures i <= j && LastOccurrence(s, j) && s[j] == s[i]
    decreases |s| - i
  {
    if LastOccurrence(s, i) {
      j := i;
    } else {
      var i' :| i < i' < |s| && s[i'] == s[i];
      j := LastOccurrenceExists(s, i');
    }
  }

  /** A last occurrence in `a + b` is a last occurrence in the part it lies in. */
  lemma LastOccurrenceConcat<T>(a: seq<T>, b: seq<T>, i: int)
    requires LastOccurrence(a + b, i)
    ensures i < |a| ==> LastOccurrence(a, i) && a[i] !in b
    ensures |a| <= i ==> LastOccurrence(b, i - |a|)
  {
    if i < |a| {
      forall j | i < j < |a|
        ensures a[j] != a[i]
      {
        assert (a + b)[j] == a[j];
      }
      forall y | y in b
        ensures y != a[i]
      {
        var j :| 0 <= j < |b| && b[j] == y;
        assert (a + b)[|a| + j] == y;
      }
    } else {
      forall j | i - |a| < j < |b|
        ensures b[j] != b[i - |a|]
      {
        assert (a + b)[|a| + j] == b[j];
      }
    }
  }

  /** `System.Collections.Generic.List<T>`, reduced to what the allocator uses. */
  class List<T> {
    var items: seq<T>

    constructor(items: seq<T>)
      ensures this.items == items
    {
      this.items := items;
    }

    function Count(): (n: nat)
      reads this
      ensures n == |items|
    {
      |items|
    }

    method RemoveAt(index: nat)
      requires index < |items|
      modifies this
      ensures items == old(items[..index] + items[index + 1..])
    {
      items := items[..index] + items[index + 1..];
    }
  }
}
