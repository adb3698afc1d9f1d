/** Order-preserving list operations: what LINQ's Where, Select and Count do to a list. */
module Seqs {
  import opened Wrappers

  /** `s.Where(p).ToList()`: the elements of `s` that satisfy `p`, in order. */
  function Filter<T(!new)>(p: T -> bool, s: seq<T>): (r: seq<T>)
    ensures |r| <= |s|
    ensures forall x :: x in r <==> x in s && p(x)
  {
    if s == [] then []
    else if p(s[0]) then [s[0]] + Filter(p, s[1..])
    else Filter(p, s[1..])
  }

  /** `s.Select(f).ToList()`. */
  function Map<T, U>(f: T -> U, s: seq<T>): (r: seq<U>)
    ensures |r| == |s|
    ensures forall i :: 0 <= i < |s| ==> r[i] == f(s[i])
  {
    seq(|s|, i requires 0 <= i < |s| => f(s[i]))
  }

  /** `s.Count(p)`. */
  function Count<T(!new)>(p: T -> bool, s: seq<T>): (n: nat)
    ensures n <= |s|
    ensures n == |Filter(p, s)|
  {
    if s == [] then 0
    else (if p(s[0]) then 1 else 0) + Count(p, s[1..])
  }

  /** The position of the first element satisfying `p` (`FirstOrDefault`, `findIndex`). */
  function FindFirst<T>(p: T -> bool, s: seq<T>): (r: Option<nat>)
    ensures r.Some? ==> r.value < |s| && p(s[r.value]) && forall j :: 0 <= j < r.value ==> !p(s[j])
    ensures r.None? ==> forall j :: 0 <= j < |s| ==> !p(s[j])
  {
    if s == [] then None
    else if p(s[0]) then Some(0)
    else match FindFirst(p, s[1..])
      case None => None
      case Some(k) => Some(k + 1)
  }

  /** Concatenation of a list of lists, in order. */
  function Flatten<T>(ss: seq<seq<T>>): seq<T>
  {
    if ss == [] then [] else ss[0] + Flatten(ss[1..])
  }

  /** Flattening one more sequence at the end appends it. */
  lemma {:induction false} FlattenSnoc<T>(ss: seq<seq<T>>, x: seq<T>)
    ensures Flatten(ss + [x]) == Flatten(ss) + x
  {
    if ss == [] {
      assert [x][1..] == [];
    } else {
      assert (ss + [x])[1..] == ss[1..] + [x];
      FlattenSnoc(ss[1..], x);
    }
  }

  /** `a` can be obtained from `b` by deleting elements, keeping the order of the rest. */
  predicate Subseq<T(==)>(a: seq<T>, b: seq<T>)
    decreases |b|
  {
    a == [] || (b != [] && if a[0] == b[0] then Subseq(a[1..], b[1..]) else Subseq(a, b[1..]))
  }

  lemma {:induction false} SubseqTail<T>(a: seq<T>, b: seq<T>)
    requires a != [] && Subseq(a, b)
    ensures Subseq(a[1..], b)
    decreases |b|, 0
  {
    if a[0] == b[0] {
      if a[1..] != [] {
        SubseqCons(a[1..], b[0], b[1..]);
        assert [b[0]] + b[1..] == b;
      }
    } else {
      SubseqTail(a, b[1..]);
      if a[1..] != [] {
        SubseqCons(a[1..], b[0], b[1..]);
        assert [b[0]] + b[1..] == b;
      }
    }
  }

  /** Putting an element in front of the larger list keeps the relation. */
  lemma {:induction false} SubseqCons<T>(a: seq<T>, x: T, b: seq<T>)
    requires Subseq(a, b)
    ensures Subseq(a, [x] + b)
    decreases |b|, 1
  {
    var xb := [x] + b;
    assert xb[1..] == b;
    if a != [] && a[0] == x {
      SubseqTail(a, b);
    }
  }

  /** The elements of a subsequence are elements of the larger list. */
  lemma {:induction false} SubseqMembers<T>(a: seq<T>, b: seq<T>)
    requires Subseq(a, b)
    ensures forall x :: x in a ==> x in b
    decreases |b|
  {
    if a != [] {
      if a[0] == b[0] {
        SubseqMembers(a[1..], b[1..]);
        assert forall x :: x in a ==> x == a[0] || x in a[1..];
        assert forall x :: x in b[1..] ==> x in b;
      } else {
        SubseqMembers(a, b[1..]);
        assert forall x :: x in b[1..] ==> x in b;
      }
    }
  }

  lemma {:induction false} SubseqReflexive<T>(a: seq<T>)
    ensures Subseq(a, a)
  {
    if a != [] {
      SubseqReflexive(a[1..]);
    }
  }

  /** A filtered list is a subsequence of its input. */
  lemma {:induction false} FilterIsSubseq<T(!new)>(p: T -> bool, s: seq<T>)
    ensures Subseq(Filter(p, s), s)
  {
    if s != [] {
      FilterIsSubseq(p, s[1..]);
      if !p(s[0]) {
        SubseqCons(Filter(p, s[1..]), s[0], s[1..]);
        assert [s[0]] + s[1..] == s;
      }
    }
  }

  /** Filtering by a stronger predicate gives a subsequence of filtering by a weaker one. */
  lemma {:induction false} FilterStrongerIsSubseq<T(!new)>(q: T -> bool, p: T -> bool, s: seq<T>)
    requires forall x :: q(x) ==> p(x)
    ensures Subseq(Filter(q, s), Filter(p, s))
  {
    if s != [] {
      FilterStrongerIsSubseq(q, p, s[1..]);
      if p(s[0]) && !q(s[0]) {
        SubseqCons(Filter(q, s[1..]), s[0], Filter(p, s[1..]));
      }
    }
  }

  lemma ConcatAssociative<T>(a: seq<T>, b: seq<T>, c: seq<T>)
    ensures (a + b) + c == a + (b + c)
  {
  }

  /** The positions of `s` whose element satisfies `p`. */
  function IndicesWhere<T>(p: T -> bool, s: seq<T>): set<int> {
    set i | 0 <= i < |s| && p(s[i])
  }

  /** Counting the elements that satisfy `p` is counting their positions. */
  lemma {:induction false} CountIndices<T(!new)>(p: T -> bool, s: seq<T>)
    ensures Count(p, s) == |IndicesWhere(p, s)|
  {
    if s != [] {
      var init, last := s[..|s| - 1], s[|s| - 1];
      assert s == init + [last];
      assert [last][1..] == [];
      CountConcat(p, init, [last]);
      CountIndices(p, init);
      var a := IndicesWhere(p, init);
      var b: set<int> := if p(last) then {|s| - 1} else {};
      forall i ensures i in IndicesWhere(p, s) <==> i in a + b {
        if 0 <= i < |s| - 1 {
          assert s[i] == init[i];
        }
      }
      assert IndicesWhere(p, s) == a + b;
      assert |s| - 1 !in a;
    }
  }

  lemma CountConcat<T(!new)>(p: T -> bool, a: seq<T>, b: seq<T>)
    ensures Count(p, a + b) == Count(p, a) + Count(p, b)
  {
    FilterConcat(p, a, b);
  }

  lemma {:induction false} FilterConcat<T(!new)>(p: T -> bool, a: seq<T>, b: seq<T>)
    ensures Filter(p, a + b) == Filter(p, a) + Filter(p, b)
  {
    if a != [] {
      assert (a + b)[1..] == a[1..] + b;
      FilterConcat(p, a[1..], b);
    } else {
      assert a + b == b;
    }
  }

  /** Filtering by two predicates in either order gives the same list. */
  lemma {:induction false} FilterCommute<T(!new)>(p: T -> bool, q: T -> bool, s: seq<T>)
    ensures Filter(p, Filter(q, s)) == Filter(q, Filter(p, s))
  {
    if s != [] {
      FilterCommute(p, q, s[1..]);
    }
  }

  /**
   * `s.Select(f).ToList()` where `f` may throw: every result in order, or the
   * failure of the first element on which `f` fails.
   */
  function Traverse<T, U, E>(f: T -> Result<U, E>, s: seq<T>): Result<seq<U>, E>
  {
    if s == [] then Success([])
    else
      var first :- f(s[0]);
      var rest :- Traverse(f, s[1..]);
      Success([first] + rest)
  }

  /** `f` succeeds on every element of `s`. */
  ghost predicate AllSucceed<T, U, E>(f: T -> Result<U, E>, s: seq<T>) {
    forall i :: 0 <= i < |s| ==> f(s[i]).Success?
  }

  /** `r` is, position by position, what `f` gives for the elements of `s`. */
  ghost predicate Pointwise<T, U, E>(f: T -> Result<U, E>, s: seq<T>, r: seq<U>) {
    |r| == |s| && forall i :: 0 <= i < |s| ==> f(s[i]) == Success(r[i])
  }

  /** `f` fails first on element `i` of `s`, with `error`. */
  ghost predicate FirstFailure<T, U, E>(f: T -> Result<U, E>, s: seq<T>, i: int, error: E) {
    0 <= i < |s| && f(s[i]) == Failure(error) && forall j :: 0 <= j < i ==> f(s[j]).Success?
  }

  lemma {:induction false} TraverseInOrder<T, U, E>(f: T -> Result<U, E>, s: seq<T>)
    ensures Traverse(f, s).Success? <==> AllSucceed(f, s)
    ensures Traverse(f, s).Success? ==> Pointwise(f, s, Traverse(f, s).value)
    ensures Traverse(f, s).Failure? ==> exists i :: FirstFailure(f, s, i, Traverse(f, s).error)
  {
    if s != [] {
      var rest := s[1..];
      TraverseInOrder(f, rest);
      assert forall i :: 1 <= i < |s| ==> s[i] == rest[i - 1];
      var t := Traverse(f, rest);
      if f(s[0]).Failure? {
        assert FirstFailure(f, s, 0, Traverse(f, s).error);
      } else if t.Failure? {
        var k :| FirstFailure(f, rest, k, t.error);
        assert FirstFailure(f, s, k + 1, t.error);
      }
    }
  }

  lemma PointwiseConcat<T, U, E>(f: T -> Result<U, E>, a: seq<T>, ra: seq<U>, b: seq<T>, rb: seq<U>)
    requires Pointwise(f, a, ra) && Pointwise(f, b, rb)
    ensures Pointwise(f, a + b, ra + rb)
  {
    forall i | 0 <= i < |a + b|
      ensures f((a + b)[i]) == Success((ra + rb)[i])
    {
      if i >= |a| {
        assert (a + b)[i] == b[i - |a|] && (ra + rb)[i] == rb[i - |a|];
      }
    }
  }

  lemma AllSucceedConcat<T, U, E>(f: T -> Result<U, E>, a: seq<T>, b: seq<T>)
    ensures AllSucceed(f, a + b) <==> AllSucceed(f, a) && AllSucceed(f, b)
  {
    if AllSucceed(f, a + b) {
      forall i | 0 <= i < |a|
        ensures f(a[i]).Success?
      {
        assert a[i] == (a + b)[i];
      }
      forall i | 0 <= i < |b|
        ensures f(b[i]).Success?
      {
        assert b[i] == (a + b)[i + |a|];
      }
    }
    if AllSucceed(f, a) && AllSucceed(f, b) {
      forall i | 0 <= i < |a + b|
        ensures f((a + b)[i]).Success?
      {
        if i >= |a| {
          assert (a + b)[i] == b[i - |a|];
        }
      }
    }
  }
}
