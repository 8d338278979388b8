/** Sequence combinators shared by the pages and the backend: JavaScript
    `Array.prototype.filter` / `map` and the Python `for`-loop that appends the
    documents a query returns. */
module Sequences {

  /** `r` can be obtained from `s` by deleting elements; order is kept. */
  predicate IsSubsequence<T(==)>(r: seq<T>, s: seq<T>)
    decreases |s|
  {
    if r == [] then true
    else if s == [] then false
    else if r[0] == s[0] then IsSubsequence(r[1..], s[1..])
    else IsSubsequence(r, s[1..])
  }

  lemma {:induction false} SubsequenceDropFirst<T>(r: seq<T>, s: seq<T>)
    requires r != [] && IsSubsequence(r, s)
    ensures IsSubsequence(r[1..], s)
    decreases |s|, 0
  {
    if r[0] == s[0] {
      if r[1..] != [] {
        SubsequenceExtend(r[1..], s[1..], s[0]);
        assert s == [s[0]] + s[1..];
      }
    } else {
      SubsequenceDropFirst(r, s[1..]);
      SubsequenceExtend(r[1..], s[1..], s[0]);
      assert s == [s[0]] + s[1..];
    }
  }

  /** A subsequence of `s` is a subsequence of `[x] + s`. */
  lemma {:induction false} SubsequenceExtend<T>(r: seq<T>, s: seq<T>, x: T)
    requires IsSubsequence(r, s)
    ensures IsSubsequence(r, [x] + s)
    decreases |s|, 1
  {
    var xs := [x] + s;
    assert xs[1..] == s;
    if r != [] && r[0] == x {
      SubsequenceDropFirst(r, s);
    }
  }

  /** The elements of `s` that `keep` accepts, in their original order. */
  function Filter<T(!new)>(s: seq<T>, keep: T -> bool): (r: seq<T>)
    ensures |r| <= |s|
    ensures forall x :: x in r <==> x in s && keep(x)
  {
    if s == [] then []
    else
      assert s == [s[0]] + s[1..];
      (if keep(s[0]) then [s[0]] else []) + Filter(s[1..], keep)
  }

  /** Each accepted element occurs in the filter as often as in `s`. */
  lemma {:induction false} FilterMultiset<T(!new)>(s: seq<T>, keep: T -> bool)
    ensures forall x :: multiset(Filter(s, keep))[x] == if keep(x) then multiset(s)[x] else 0
    decreases |s|
  {
    if s != [] {
      FilterMultiset(s[1..], keep);
      var head := if keep(s[0]) then [s[0]] else [];
      assert s == [s[0]] + s[1..];
      assert multiset(Filter(s, keep)) == multiset(head) + multiset(Filter(s[1..], keep));
      assert multiset(s) == multiset([s[0]]) + multiset(s[1..]);
    }
  }

  lemma {:induction false} FilterIsSubsequence<T(!new)>(s: seq<T>, keep: T -> bool)
    ensures IsSubsequence(Filter(s, keep), s)
    decreases |s|
  {
    if s != [] {
      FilterIsSubsequence(s[1..], keep);
      var rest := Filter(s[1..], keep);
      if keep(s[0]) {
        assert Filter(s, keep) == [s[0]] + rest;
        assert ([s[0]] + rest)[1..] == rest;
      } else {
        assert Filter(s, keep) == rest;
        SubsequenceExtend(rest, s[1..], s[0]);
        assert s == [s[0]] + s[1..];
      }
    }
  }

  lemma {:induction false} FilterAppend<T(!new)>(a: seq<T>, b: seq<T>, keep: T -> bool)
    ensures Filter(a + b, keep) == Filter(a, keep) + Filter(b, keep)
    decreases |a|
  {
    if a == [] {
      assert a + b == b;
    } else {
      assert (a + b)[0] == a[0] && (a + b)[1..] == a[1..] + b;
      FilterAppend(a[1..], b, keep);
    }
  }

  lemma FilterSingle<T(!new)>(x: T, keep: T -> bool)
    ensures Filter([x], keep) == if keep(x) then [x] else []
  {
    assert [x][1..] == [];
  }

  /** Extending the prefix by one element extends its filter by that element
      when `keep` accepts it. */
  lemma FilterPrefixStep<T(!new)>(s: seq<T>, i: nat, keep: T -> bool)
    requires i < |s|
    ensures Filter(s[..i + 1], keep) == Filter(s[..i], keep) + if keep(s[i]) then [s[i]] else []
  {
    var x := s[i];
    assert s[..i + 1] == s[..i] + [x];
    FilterAppend(s[..i], [x], keep);
    FilterSingle(x, keep);
  }

  /** A filter that accepts no element of `s` leaves nothing. */
  lemma {:induction false} FilterNone<T(!new)>(s: seq<T>, keep: T -> bool)
    requires forall i :: 0 <= i < |s| ==> !keep(s[i])
    ensures Filter(s, keep) == []
    decreases |s|
  {
    if s != [] {
      FilterNone(s[1..], keep);
    }
  }

  /** A filter that accepts every element is the identity. */
  lemma {:induction false} FilterKeepsAll<T(!new)>(s: seq<T>, keep: T -> bool)
    requires forall i :: 0 <= i < |s| ==> keep(s[i])
    ensures Filter(s, keep) == s
    decreases |s|
  {
    if s != [] {
      FilterKeepsAll(s[1..], keep);
      assert [s[0]] + s[1..] == s;
    }
  }

  /** `Filter(s, keep).length`. */
  function Count<T(!new)>(s: seq<T>, keep: T -> bool): (n: nat)
    ensures n <= |s|
  {
    |Filter(s, keep)|
  }

  lemma CountFirst<T(!new)>(s: seq<T>, keep: T -> bool)
    requires s != []
    ensures Count(s, keep) == (if keep(s[0]) then 1 else 0) + Count(s[1..], keep)
  {
  }

  /** The count over `a + [x] + b` splits at `x`. */
  lemma CountAround<T(!new)>(a: seq<T>, x: T, b: seq<T>, keep: T -> bool)
    ensures Count(a + [x] + b, keep) == Count(a, keep) + (if keep(x) then 1 else 0) + Count(b, keep)
  {
    FilterAppend(a + [x], b, keep);
    FilterAppend(a, [x], keep);
  }

  /** `s.map(f)`. */
  function Map<T, U>(s: seq<T>, f: T -> U): (r: seq<U>)
    ensures |r| == |s|
    ensures forall i :: 0 <= i < |s| ==> r[i] == f(s[i])
  {
    seq(|s|, i requires 0 <= i < |s| => f(s[i]))
  }
}
