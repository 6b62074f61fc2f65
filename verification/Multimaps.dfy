/** `std::multimap` as the executors use it: entries in insertion order, with
    `equal_range` giving the values stored under one key in that order. */
module Multimaps {

  type Multimap<K, V> = seq<(K, V)>

  ghost predicate Distinct<T(!new)>(s: seq<T>) {
    forall i, j :: 0 <= i < j < |s| ==> s[i] != s[j]
  }

  lemma DistinctSnoc<T(!new)>(s: seq<T>, x: T)
    requires Distinct(s) && x !in s
    ensures Distinct(s + [x])
  {
  }

  lemma DistinctConcat<T(!new)>(s: seq<T>, t: seq<T>)
    requires Distinct(s) && Distinct(t)
    requires forall x :: x in t ==> x !in s
    ensures Distinct(s + t)
  {
    var u := s + t;
    forall i, j | 0 <= i < j < |u|
      ensures u[i] != u[j]
    {
      if i < |s| <= j {
        assert u[i] in s && u[j] in t;
      }
    }
  }

  /** `equal_range(k)`. */
  function Range<K(==), V(!new)>(m: Multimap<K, V>, k: K): (r: seq<V>)
    ensures forall v :: v in r <==> (k, v) in m
  {
    if m == [] then []
    else
      var last := m[|m| - 1];
      var front := m[..|m| - 1];
      assert m == front + [last];
      Range(front, k) + (if last.0 == k then [last.1] else [])
  }

  lemma {:induction false} RangeDistinct<K(!new), V(!new)>(m: Multimap<K, V>, k: K)
    requires Distinct(m)
    ensures Distinct(Range(m, k))
  {
    if m != [] {
      var last := m[|m| - 1];
      var front := m[..|m| - 1];
      assert m == front + [last];
      RangeDistinct(front, k);
      if last.0 == k {
        assert last !in front;
        DistinctSnoc(Range(front, k), last.1);
      }
    }
  }

  lemma {:induction false} RangeMissing<K, V(!new)>(m: Multimap<K, V>, k: K)
    requires k !in Keys(m)
    ensures Range(m, k) == []
  {
    if m != [] {
      assert m[|m| - 1].0 in Keys(m);
      assert forall x :: x in Keys(m[..|m| - 1]) ==> x in Keys(m);
      RangeMissing(m[..|m| - 1], k);
    }
  }

  lemma {:induction false} RangeCount<K(!new), V(!new)>(m: Multimap<K, V>, k: K, v: V)
    ensures multiset(Range(m, k))[v] == multiset(m)[(k, v)]
  {
    if m != [] {
      var front, last := m[..|m| - 1], m[|m| - 1];
      RangeCount(front, k, v);
      assert m == front + [last];
    }
  }

  ghost function Keys<K, V>(m: Multimap<K, V>): set<K> {
    set e | e in m :: e.0
  }

  lemma ConcatCounts<T>(s: seq<T>, t: seq<T>, x: T)
    ensures multiset(s + t)[x] == multiset(s)[x] + multiset(t)[x]
  {
  }

  lemma HasElement<T(!new)>(s: set<T>)
    ensures s == {} || exists x :: x in s
  {
    if forall x :: x !in s {
      assert s == {};
    }
  }
}
