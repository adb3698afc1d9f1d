/**
 * `OrderBy(key)` on a list: a stable sort by a string key in ordinal order.
 */
module Sorting {
  import opened Seqs
  import opened Text

  predicate SortedBy<T>(key: T -> string, s: seq<T>) {
    forall i, j :: 0 <= i < j < |s| ==> StrLe(key(s[i]), key(s[j]))
  }

  /** The elements whose key is `k`. */
  function SameKey<T>(key: T -> string, k: string): T -> bool {
    x => key(x) == k
  }

  /** Puts `x` before the first element whose key is not smaller than its own. */
  function Insert<T>(key: T -> string, x: T, s: seq<T>): (r: seq<T>)
    ensures |r| == |s| + 1
    ensures multiset(r) == multiset([x] + s)
  {
    if s == [] then [x]
    else if StrLe(key(x), key(s[0])) then [x] + s
    else
      var r := [s[0]] + Insert(key, x, s[1..]);
      assert [x] + s == [x] + [s[0]] + s[1..];
      r
  }

  /** The list ordered by key; elements with equal keys keep their relative order. */
  function SortBy<T>(key: T -> string, s: seq<T>): (r: seq<T>)
    ensures |r| == |s|
    ensures multiset(r) == multiset(s)
  {
    if s == [] then []
    else
      var r := Insert(key, s[0], SortBy(key, s[1..]));
      assert s == [s[0]] + s[1..];
      r
  }

  lemma {:induction false} InsertSorted<T>(key: T -> string, x: T, s: seq<T>)
    requires SortedBy(key, s)
    ensures SortedBy(key, Insert(key, x, s))
  {
    if s != [] {
      var r := Insert(key, x, s);
      if StrLe(key(x), key(s[0])) {
        forall i, j | 0 <= i < j < |r|
          ensures StrLe(key(r[i]), key(r[j]))
        {
          if i == 0 {
            if j > 1 {
              StrLeTransitive(key(x), key(s[0]), key(s[j - 1]));
            }
          }
        }
      } else {
        StrLeTotal(key(x), key(s[0]));
        var t := Insert(key, x, s[1..]);
        InsertSorted(key, x, s[1..]);
        assert multiset(t) == multiset([x] + s[1..]);
        forall i, j | 0 <= i < j < |r|
          ensures StrLe(key(r[i]), key(r[j]))
        {
          if i == 0 {
            var y := r[j];
            assert y in multiset(t);
            assert y == x || y in s[1..];
            if y != x {
              var k :| 0 <= k < |s[1..]| && s[1..][k] == y;
              assert s[k + 1] == y;
            }
          }
        }
      }
    }
  }

  lemma {:induction false} SortBySorted<T>(key: T -> string, s: seq<T>)
    ensures SortedBy(key, SortBy(key, s))
  {
    if s != [] {
      SortBySorted(key, s[1..]);
      InsertSorted(key, s[0], SortBy(key, s[1..]));
    }
  }

  lemma {:induction false} InsertStable<T(!new)>(key: T -> string, x: T, s: seq<T>, k: string)
    requires SortedBy(key, s)
    ensures Filter(SameKey(key, k), Insert(key, x, s)) == Filter(SameKey(key, k), [x] + s)
  {
    var p := SameKey(key, k);
    if s != [] && !StrLe(key(x), key(s[0])) {
      InsertStable(key, x, s[1..], k);
      var t := Insert(key, x, s[1..]);
      assert Insert(key, x, s) == [s[0]] + t;
      FilterConcat(p, [s[0]], t);
      FilterConcat(p, [x], s[1..]);
      FilterConcat(p, [s[0]], s[1..]);
      FilterConcat(p, [x], s);
      assert s == [s[0]] + s[1..];
      if key(x) == key(s[0]) {
        StrLeReflexive(key(x));
      }
      assert !(p(x) && p(s[0]));
      FilterConcat(p, [s[0]], [x] + s[1..]);
      FilterConcat(p, [x], [s[0]] + s[1..]);
    }
  }

  /** Sorting keeps, for every key, the elements with that key in their original order. */
  lemma {:induction false} SortByStable<T(!new)>(key: T -> string, s: seq<T>, k: string)
    ensures Filter(SameKey(key, k), SortBy(key, s)) == Filter(SameKey(key, k), s)
  {
    if s != [] {
      var p := SameKey(key, k);
      SortByStable(key, s[1..], k);
      SortBySorted(key, s[1..]);
      InsertStable(key, s[0], SortBy(key, s[1..]), k);
      FilterConcat(p, [s[0]], SortBy(key, s[1..]));
      FilterConcat(p, [s[0]], s[1..]);
      assert s == [s[0]] + s[1..];
    }
  }

  /** A sub-list of a sorted list is sorted. */
  lemma {:induction false} FilterSorted<T(!new)>(key: T -> string, p: T -> bool, s: seq<T>)
    requires SortedBy(key, s)
    ensures SortedBy(key, Filter(p, s))
  {
    if s != [] {
      FilterSorted(key, p, s[1..]);
      var f := Filter(p, s[1..]);
      if p(s[0]) {
        forall j | 0 <= j < |f|
          ensures StrLe(key(s[0]), key(f[j]))
        {
          assert f[j] in s[1..];
        }
      }
    }
  }
}
