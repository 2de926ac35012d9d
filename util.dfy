/** Small value types shared by the three models. */
module Util {

  /** A value that may be missing (Python's `None`, or a sentinel such as `_EMPTY`). */
  datatype Option<T> = None | Some(value: T)

  /** A computation that either returns a value or raises an exception of type `E`. */
  datatype Result<T, E> = Ok(value: T) | Err(error: E)

  /** No element occurs twice. */
  predicate Distinct<T(==)>(s: seq<T>)
  {
    forall i, j :: 0 <= i < j < |s| ==> s[i] != s[j]
  }

  /** The elements of `s`, as a set. */
  ghost function Elements<T>(s: seq<T>): set<T>
  {
    set x | x in s
  }

  /** A sequence without repetitions has as many elements as its set of elements. */
  lemma {:induction false} DistinctCardinality<T>(s: seq<T>)
    requires Distinct(s)
    ensures |Elements(s)| == |s|
  {
    if s != [] {
      var last := s[|s| - 1];
      var init := s[..|s| - 1];
      assert Distinct(init);
      DistinctCardinality(init);
      assert s == init + [last];
      assert Elements(s) == Elements(init) + {last};
    }
  }

  /** Two repetition-free sequences with the same elements have the same length. */
  lemma SameElementsSameLength<T>(s: seq<T>, t: seq<T>)
    requires Distinct(s) && Distinct(t)
    requires forall x :: x in s <==> x in t
    ensures |s| == |t|
  {
    DistinctCardinality(s);
    DistinctCardinality(t);
    assert Elements(s) == Elements(t);
  }

  /** Joining two repetition-free sequences with no common element gives one. */
  lemma DistinctConcat<T>(a: seq<T>, b: seq<T>)
    requires Distinct(a) && Distinct(b)
    requires forall x :: x in a ==> x !in b
    ensures Distinct(a + b)
  {
    var r := a + b;
    forall i, j | 0 <= i < j < |r| ensures r[i] != r[j] {
      if i < |a| && j >= |a| {
        assert r[i] in a && r[j] == b[j - |a|];
      }
    }
  }

  /**
   * Position of the first entry whose key is `key`: a lookup in a dictionary
   * kept as a sequence of entries in insertion order.
   */
  function Find<K(==), T>(es: seq<(K, T)>, key: K): (r: Option<nat>)
    ensures r.Some? ==> r.value < |es| && es[r.value].0 == key
    ensures r.Some? ==> forall j :: 0 <= j < r.value ==> es[j].0 != key
    ensures r.None? <==> forall j :: 0 <= j < |es| ==> es[j].0 != key
  {
    if es == [] then None
    else if es[0].0 == key then Some(0)
    else match Find(es[1..], key)
      case None => None
      case Some(j) => Some(j + 1)
  }

  /** Appending an entry finds it only when its key was not there before. */
  lemma FindAppend<K, T>(es: seq<(K, T)>, e: (K, T), key: K)
    ensures Find(es + [e], key) == if Find(es, key).Some? || e.0 != key then Find(es, key) else Some(|es|)
  {
    if es != [] {
      assert (es + [e])[1..] == es[1..] + [e];
      FindAppend(es[1..], e, key);
    }
  }

  /** Replacing values without touching keys changes no lookup position. */
  lemma FindSameKeys<K, T>(a: seq<(K, T)>, b: seq<(K, T)>, key: K)
    requires |a| == |b| && forall j :: 0 <= j < |a| ==> a[j].0 == b[j].0
    ensures Find(a, key) == Find(b, key)
  {
    if a != [] {
      FindSameKeys(a[1..], b[1..], key);
    }
  }

  /** Moving the first element of the rest of a split to its visited part. */
  lemma Regroup<T>(w: seq<T>, done: seq<T>, a: seq<T>, b: seq<T>, x: T, c: seq<T>)
    requires w == done + a + b
    requires a + b == [x] + c
    ensures w == (done + [x]) + c
  {
    assert done + a + b == done + (a + b);
    assert done + ([x] + c) == (done + [x]) + c;
  }

  /** Splitting the rest of a split in two. */
  lemma Unfold<T>(w: seq<T>, done: seq<T>, p: seq<T>, a: seq<T>, b: seq<T>)
    requires w == done + p
    requires p == a + b
    ensures w == done + a + b
  {
  }
}
