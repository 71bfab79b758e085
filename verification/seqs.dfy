/** Generic facts about finite sequences: distinctness, the set of elements,
    order-preserving filtering and a stable sort by an integer key. */
module Seqs {

  /** No element occurs twice. */
  predicate Distinct<T(==)>(s: seq<T>) {
    forall i, j :: 0 <= i < j < |s| ==> s[i] != s[j]
  }

  /** The elements of a sequence, as a set. */
  function Elements<T(==)>(s: seq<T>): set<T> {
    set x | x in s
  }

  lemma {:induction false} ElementsOfSnoc<T>(s: seq<T>, x: T)
    ensures Elements(s + [x]) == Elements(s) + {x}
  {
    assert forall y :: y in s + [x] <==> y in s || y == x;
  }

  /** A sequence has at least as many entries as distinct elements,
      and exactly as many when it is `Distinct`. */
  lemma {:induction false} ElementsCardinality<T>(s: seq<T>)
    ensures |Elements(s)| <= |s|
    ensures Distinct(s) ==> |Elements(s)| == |s|
  {
    if |s| > 0 {
      var init := s[..|s| - 1];
      assert s == init + [s[|s| - 1]];
      ElementsCardinality(init);
      ElementsOfSnoc(init, s[|s| - 1]);
      if Distinct(s) {
        assert s[|s| - 1] !in init;
      }
    }
  }

  /** A subset is no larger, and equal size forces equality. */
  lemma SubsetCardinality<T>(a: set<T>, b: set<T>)
    requires a <= b
    ensures |a| <= |b|
    ensures |a| == |b| ==> a == b
  {
    assert b == a + (b - a);
    assert |b| == |a| + |b - a|;
  }

  /** Pigeonhole: a duplicate-free sequence whose elements all occur in `b`
      is no longer than `b`. */
  lemma DistinctSubsetLength<T>(a: seq<T>, b: seq<T>)
    requires Distinct(a)
    requires forall x :: x in a ==> x in b
    ensures |a| <= |b|
  {
    ElementsCardinality(a);
    ElementsCardinality(b);
    SubsetCardinality(Elements(a), Elements(b));
  }

  /** Two duplicate-free sequences, one drawn from the other, have the same
      length exactly when they hold the same elements. */
  lemma DistinctSameLength<T>(a: seq<T>, b: seq<T>)
    requires Distinct(a) && Distinct(b)
    requires forall x :: x in a ==> x in b
    ensures |a| == |b| <==> (forall x :: x in b ==> x in a)
  {
    ElementsCardinality(a);
    ElementsCardinality(b);
    SubsetCardinality(Elements(a), Elements(b));
    if |a| == |b| {
      forall x | x in b
        ensures x in a
      {
        assert x in Elements(b);
      }
    }
    if forall x :: x in b ==> x in a {
      assert Elements(a) == Elements(b);
    }
  }

  /** The entries of `s` that satisfy `keep`, in their original order. */
  function Filter<T(==)>(s: seq<T>, keep: T -> bool): (r: seq<T>)
    ensures |r| <= |s|
    ensures forall i :: 0 <= i < |r| ==> r[i] in s && keep(r[i])
    ensures forall i :: 0 <= i < |s| && keep(s[i]) ==> s[i] in r
    ensures Distinct(s) ==> Distinct(r)
    decreases |s|
  {
    if |s| == 0 then []
    else
      var rest := Filter(s[1..], keep);
      if keep(s[0]) then [s[0]] + rest else rest
  }

  /** Filtering keeps the order and the multiplicity of the kept entries:
      it decides entry by entry and concatenates the decisions in order. */
  lemma {:induction false} FilterConcat<T>(a: seq<T>, b: seq<T>, keep: T -> bool)
    ensures Filter(a + b, keep) == Filter(a, keep) + Filter(b, keep)
    ensures |a| == 1 ==> Filter(a, keep) == if keep(a[0]) then a else []
    decreases |a|
  {
    if |a| > 0 {
      assert (a + b)[0] == a[0];
      assert (a + b)[1..] == a[1..] + b;
      FilterConcat(a[1..], b, keep);
    } else {
      assert a + b == b;
    }
  }

  /** Ascending in `key`, as `Array.prototype.toSorted` leaves a sequence
      under the comparator `(a, b) => key(a) - key(b)`. */
  predicate SortedBy<T>(s: seq<T>, key: T -> int) {
    forall i, j :: 0 <= i < j < |s| ==> key(s[i]) <= key(s[j])
  }

  /** Inserts `x` after every entry whose key does not exceed its own, so that
      entries with equal keys keep their arrival order. */
  function InsertByKey<T(==)>(x: T, s: seq<T>, key: T -> int): (r: seq<T>)
    requires SortedBy(s, key)
    ensures SortedBy(r, key)
    ensures multiset(r) == multiset(s) + multiset{x}
    decreases |s|
  {
    if |s| == 0 then [x]
    else if key(x) < key(s[0]) then [x] + s
    else
      var tail := s[1..];
      var rest := InsertByKey(x, tail, key);
      assert s == [s[0]] + tail;
      forall i | 0 <= i < |rest|
        ensures key(s[0]) <= key(rest[i])
      {
        assert rest[i] in multiset(rest);
        if rest[i] != x {
          assert rest[i] in multiset(tail);
          var j :| 0 <= j < |tail| && tail[j] == rest[i];
          assert s[j + 1] == rest[i];
        }
      }
      SortedCons(s[0], rest, key);
      [s[0]] + rest
  }

  /** A head no larger than every entry of a sorted tail keeps it sorted. */
  lemma SortedCons<T>(h: T, rest: seq<T>, key: T -> int)
    requires SortedBy(rest, key)
    requires forall i :: 0 <= i < |rest| ==> key(h) <= key(rest[i])
    ensures SortedBy([h] + rest, key)
  {
    var r := [h] + rest;
    forall i, j | 0 <= i < j < |r|
      ensures key(r[i]) <= key(r[j])
    {
      assert r[j] == rest[j - 1];
      if i > 0 {
        assert r[i] == rest[i - 1];
      }
    }
  }

  /** A stable insertion sort by `key`: a permutation of `s`, ascending in `key`. */
  function SortByKey<T(==)>(s: seq<T>, key: T -> int): (r: seq<T>)
    ensures SortedBy(r, key)
    ensures multiset(r) == multiset(s)
    decreases |s|
  {
    if |s| == 0 then []
    else
      assert s == s[..|s| - 1] + [s[|s| - 1]];
      InsertByKey(s[|s| - 1], SortByKey(s[..|s| - 1], key), key)
  }
}
