/**
 Sequence operations the engine is built from, with the facts the rest of the
 model needs about them: `Array.prototype.map`, `filter`, and a stable sort
 (`Array.prototype.sort` is stable and, with a consistent comparator, returns
 the one stable ordering of its input).
 */
module Seqs {

  /** `s.map(f)`. */
  function Map<T, U>(f: T -> U, s: seq<T>): (r: seq<U>)
    ensures |r| == |s|
    ensures forall i :: 0 <= i < |s| ==> r[i] == f(s[i])
  {
    seq(|s|, i requires 0 <= i < |s| => f(s[i]))
  }

  lemma AppendAssoc<T>(a: seq<T>, b: seq<T>, c: seq<T>)
    ensures a + (b + c) == (a + b) + c
  {
  }

  /** A non-empty sequence is its front followed by its last element. */
  lemma SplitLast<T>(s: seq<T>)
    requires s != []
    ensures s == s[..|s| - 1] + [s[|s| - 1]]
  {
  }

  /** A non-empty sequence is its first element followed by the rest. */
  lemma SplitFirst<T>(s: seq<T>)
    requires s != []
    ensures s == [s[0]] + s[1..]
  {
  }

  /** Dropping `k` elements from `[x] + s` drops `k - 1` from `s`. */
  lemma ConsDrop<T>(x: T, s: seq<T>, k: nat)
    requires 1 <= k <= |s| + 1
    ensures ([x] + s)[k..] == s[k - 1..]
  {
  }

  /** `s.filter(p)`. */
  function Filter<T>(p: T -> bool, s: seq<T>): (r: seq<T>)
    ensures |r| <= |s|
    ensures forall x <- r :: p(x)
  {
    if s == [] then [] else (if p(s[0]) then [s[0]] else []) + Filter(p, s[1..])
  }

  /** The filter keeps every passing element as often as it occurs, and nothing else. */
  lemma FilterMultiset<T>(p: T -> bool, s: seq<T>)
    ensures multiset(Filter(p, s)) <= multiset(s)
    ensures forall x <- s :: p(x) ==> multiset(Filter(p, s))[x] == multiset(s)[x]
    ensures forall x <- s :: p(x) ==> x in Filter(p, s)
  {
    forall x ensures multiset(Filter(p, s))[x] == if p(x) then multiset(s)[x] else 0 {
      FilterCount(p, s, x);
    }
  }

  lemma {:induction false} FilterCount<T>(p: T -> bool, s: seq<T>, x: T)
    ensures multiset(Filter(p, s))[x] == if p(x) then multiset(s)[x] else 0
  {
    if s != [] {
      FilterCount(p, s[1..], x);
      ConsFilter(p, s[0], s[1..]);
      SplitFirst(s);
    }
  }

  lemma {:induction false} FilterNone<T>(p: T -> bool, s: seq<T>)
    requires forall i :: 0 <= i < |s| ==> !p(s[i])
    ensures Filter(p, s) == []
  {
    if s != [] {
      FilterNone(p, s[1..]);
    }
  }

  lemma {:induction false} FilterAppend<T>(p: T -> bool, a: seq<T>, b: seq<T>)
    ensures Filter(p, a + b) == Filter(p, a) + Filter(p, b)
  {
    if a != [] {
      assert (a + b)[0] == a[0];
      assert (a + b)[1..] == a[1..] + b;
      FilterAppend(p, a[1..], b);
      var h := if p(a[0]) then [a[0]] else [];
      assert Filter(p, a + b) == h + Filter(p, a[1..] + b);
      AppendAssoc(h, Filter(p, a[1..]), Filter(p, b));
    } else {
      assert a + b == b;
    }
  }

  /** Filters that agree on every element keep the same elements. */
  lemma {:induction false} FilterCongruent<T>(p: T -> bool, q: T -> bool, s: seq<T>)
    requires forall x <- s :: p(x) == q(x)
    ensures Filter(p, s) == Filter(q, s)
  {
    if s != [] {
      FilterCongruent(p, q, s[1..]);
    }
  }

  /** Filtering by "maps to `v`" keeps as many elements as `v` occurs in the image. */
  lemma {:induction false} FilterCountMap<T, U>(p: T -> bool, f: T -> U, s: seq<T>, v: U)
    requires forall x <- s :: p(x) <==> f(x) == v
    ensures |Filter(p, s)| == multiset(Map(f, s))[v]
  {
    if s != [] {
      FilterCountMap(p, f, s[1..], v);
      var image := Map(f, s);
      assert image == [f(s[0])] + Map(f, s[1..]);
      assert multiset(image)[v] == (if f(s[0]) == v then 1 else 0) + multiset(Map(f, s[1..]))[v];
      assert |Filter(p, s)| == (if p(s[0]) then 1 else 0) + |Filter(p, s[1..])|;
    }
  }

  /** Filtering twice keeps what passes both filters. */
  lemma {:induction false} FilterOfFilter<T>(p: T -> bool, q: T -> bool, r: T -> bool, s: seq<T>)
    requires forall x <- s :: r(x) <==> p(x) && q(x)
    ensures Filter(q, Filter(p, s)) == Filter(r, s)
  {
    if s != [] {
      var x, t := s[0], s[1..];
      assert s == [x] + t;
      assert r(x) <==> p(x) && q(x);
      FilterOfFilter(p, q, r, t);
      ConsFilter(p, x, t);
      ConsFilter(r, x, t);
      if p(x) {
        ConsFilter(q, x, Filter(p, t));
        assert Filter(q, Filter(p, s)) == (if q(x) then [x] else []) + Filter(q, Filter(p, t));
      } else {
        assert Filter(p, s) == Filter(p, t);
      }
    }
  }

  /** Mapping distributes over concatenation. */
  lemma MapAppend<T, U>(f: T -> U, a: seq<T>, b: seq<T>)
    ensures Map(f, a + b) == Map(f, a) + Map(f, b)
  {
  }

  /** Taking one element out of a sequence takes it out of the sequence's
      multiset and its image out of the image's multiset. */
  lemma RemoveAt<T, U>(f: T -> U, b: seq<T>, i: nat, rest: seq<T>)
    requires i < |b| && rest == b[..i] + b[i + 1..]
    ensures multiset(b) == multiset(rest) + multiset{b[i]}
    ensures multiset(Map(f, b)) == multiset(Map(f, rest)) + multiset{f(b[i])}
  {
    var lo, hi := b[..i], b[i + 1..];
    assert b == lo + [b[i]] + hi;
    MapAppend(f, lo + [b[i]], hi);
    MapAppend(f, lo, [b[i]]);
    MapAppend(f, lo, hi);
    assert Map(f, [b[i]]) == [f(b[i])];
  }

  lemma Cancel<T>(a: multiset<T>, b: multiset<T>, x: T)
    requires a + multiset{x} == b + multiset{x}
    ensures a == b
  {
    assert a == (a + multiset{x}) - multiset{x};
    assert b == (b + multiset{x}) - multiset{x};
  }

  /** Rearranging the input rearranges the image. */
  lemma {:induction false} MapPerm<T, U>(f: T -> U, a: seq<T>, b: seq<T>)
    requires multiset(a) == multiset(b)
    ensures multiset(Map(f, a)) == multiset(Map(f, b))
    decreases |a|
  {
    if a != [] {
      var x := a[0];
      assert x in multiset(b);
      var i :| 0 <= i < |b| && b[i] == x;
      var ra, rb := a[1..], b[..i] + b[i + 1..];
      assert a[..0] + a[1..] == ra;
      RemoveAt(f, a, 0, ra);
      RemoveAt(f, b, i, rb);
      Cancel(multiset(ra), multiset(rb), x);
      MapPerm(f, ra, rb);
    } else {
      assert |b| == |multiset(b)| == 0;
    }
  }

  /** A filter for one of two exclusive conditions keeps as many as the two filters together. */
  lemma {:induction false} FilterSplit<T>(r: T -> bool, p: T -> bool, q: T -> bool, s: seq<T>)
    requires forall x <- s :: (r(x) <==> p(x) || q(x)) && !(p(x) && q(x))
    ensures |Filter(r, s)| == |Filter(p, s)| + |Filter(q, s)|
  {
    if s != [] {
      FilterSplit(r, p, q, s[1..]);
    }
  }

  /** A filter every element passes keeps the sequence as it is. */
  lemma {:induction false} FilterKeepsAll<T>(p: T -> bool, s: seq<T>)
    requires forall x <- s :: p(x)
    ensures Filter(p, s) == s
  {
    if s != [] {
      FilterKeepsAll(p, s[1..]);
    }
  }

  /** A filter that rejects some element keeps fewer elements than it is given. */
  lemma {:induction false} FilterDropsOne<T>(p: T -> bool, s: seq<T>, x: T)
    requires x in s && !p(x)
    ensures |Filter(p, s)| < |s|
  {
    if s[0] != x {
      FilterDropsOne(p, s[1..], x);
    }
  }

  /** `r` is `s` with some elements removed and the rest in their original order. */
  predicate IsSubsequence<T(==)>(r: seq<T>, s: seq<T>)
    decreases |s|
  {
    if r == [] then true
    else if s == [] then false
    else if r[0] == s[0] then IsSubsequence(r[1..], s[1..])
    else IsSubsequence(r, s[1..])
  }

  lemma {:induction false} FilterIsSubsequence<T>(p: T -> bool, s: seq<T>)
    ensures IsSubsequence(Filter(p, s), s)
  {
    if s != [] {
      FilterIsSubsequence(p, s[1..]);
      var r := Filter(p, s);
      if p(s[0]) {
        assert r[0] == s[0] && r[1..] == Filter(p, s[1..]);
      } else if r != [] {
        assert r == Filter(p, s[1..]);
        assert p(r[0]);
        assert r[0] != s[0];
      }
    }
  }

  /** No two elements share a key. */
  ghost predicate DistinctBy<T, K>(s: seq<T>, key: T -> K) {
    forall i, j :: 0 <= i < j < |s| ==> key(s[i]) != key(s[j])
  }

  /** No element occurs twice. */
  predicate Distinct<T(==)>(s: seq<T>) {
    forall i, j :: 0 <= i < j < |s| ==> s[i] != s[j]
  }

  /** The elements of `s`, as a set. */
  function Elements<T>(s: seq<T>): set<T> {
    set x | x in s
  }

  lemma {:induction false} DistinctCardinality<T>(s: seq<T>)
    requires Distinct(s)
    ensures |Elements(s)| == |s|
  {
    if s != [] {
      DistinctCardinality(s[1..]);
      assert Elements(s) == {s[0]} + Elements(s[1..]);
      assert s[0] !in s[1..];
    }
  }

  lemma {:induction false} DistinctOccursOnce<T>(s: seq<T>, x: T)
    requires Distinct(s)
    ensures multiset(s)[x] <= 1
  {
    if s != [] {
      DistinctOccursOnce(s[1..], x);
      SplitFirst(s);
      assert s[0] !in s[1..];
    }
  }

  lemma TwoPositions<T>(s: seq<T>, i: nat, j: nat)
    requires i < j < |s| && s[i] == s[j]
    ensures multiset(s)[s[i]] >= 2
  {
    assert s == s[..j] + [s[j]] + s[j + 1..];
    assert s[i] in s[..j];
  }

  /** Reordering keeps keys apart. */
  lemma PermutationDistinctBy<T, K>(r: seq<T>, s: seq<T>, key: T -> K)
    requires multiset(r) == multiset(s) && DistinctBy(s, key)
    ensures DistinctBy(r, key)
  {
    forall i, j | 0 <= i < j < |r| ensures key(r[i]) != key(r[j]) {
      assert r[i] in multiset(s) && r[j] in multiset(s);
      var a :| 0 <= a < |s| && s[a] == r[i];
      var b :| 0 <= b < |s| && s[b] == r[j];
      if r[i] == r[j] {
        TwoPositions(r, i, j);
        assert Distinct(s);
        DistinctOccursOnce(s, r[i]);
      }
    }
  }

  /** `lt` is irreflexive and transitive: a comparator that is consistent. */
  ghost predicate StrictOrder<T(!new)>(lt: (T, T) -> bool) {
    && (forall a :: !lt(a, a))
    && (forall a, b, c :: lt(a, b) && lt(b, c) ==> lt(a, c))
  }

  /** No element is strictly before one that precedes it. */
  ghost predicate SortedBy<T>(s: seq<T>, lt: (T, T) -> bool) {
    forall i, j :: 0 <= i < j < |s| ==> !lt(s[j], s[i])
  }

  /** Places `x` after every element it does not strictly precede. */
  function Insert<T>(x: T, s: seq<T>, lt: (T, T) -> bool): (r: seq<T>)
    ensures multiset(r) == multiset(s) + multiset{x}
    ensures |r| == |s| + 1
  {
    if s == [] || lt(x, s[0]) then [x] + s
    else
      SplitFirst(s);
      [s[0]] + Insert(x, s[1..], lt)
  }

  /** A stable insertion sort: elements are inserted in input order. */
  function SortBy<T>(s: seq<T>, lt: (T, T) -> bool): (r: seq<T>)
    ensures multiset(r) == multiset(s)
    ensures |r| == |s|
    decreases |s|
  {
    if s == [] then []
    else
      assert s == s[..|s| - 1] + [s[|s| - 1]];
      Insert(s[|s| - 1], SortBy(s[..|s| - 1], lt), lt)
  }

  lemma {:induction false} InsertSorted<T(!new)>(x: T, s: seq<T>, lt: (T, T) -> bool)
    requires StrictOrder(lt) && SortedBy(s, lt)
    ensures SortedBy(Insert(x, s, lt), lt)
  {
    if s == [] {
    } else if lt(x, s[0]) {
      var r := [x] + s;
      forall i, j | 0 <= i < j < |r| ensures !lt(r[j], r[i]) {
        if i == 0 {
          assert !lt(s[j - 1], s[0]);
        }
      }
    } else {
      var t := Insert(x, s[1..], lt);
      InsertSorted(x, s[1..], lt);
      var r := [s[0]] + t;
      forall i, j | 0 <= i < j < |r| ensures !lt(r[j], r[i]) {
        if i == 0 {
          var y := r[j];
          assert y in multiset(t);
          if y != x {
            assert y in s[1..];
          }
        }
      }
    }
  }

  lemma {:induction false} SortBySorted<T(!new)>(s: seq<T>, lt: (T, T) -> bool)
    requires StrictOrder(lt)
    ensures SortedBy(SortBy(s, lt), lt)
    decreases |s|
  {
    if s != [] {
      SortBySorted(s[..|s| - 1], lt);
      InsertSorted(s[|s| - 1], SortBy(s[..|s| - 1], lt), lt);
    }
  }

  lemma SortedTail<T>(s: seq<T>, lt: (T, T) -> bool)
    requires s != [] && SortedBy(s, lt)
    ensures SortedBy(s[1..], lt)
  {
    forall i, j | 0 <= i < j < |s| - 1 ensures !lt(s[1..][j], s[1..][i]) {
      assert s[1..][j] == s[j + 1] && s[1..][i] == s[i + 1];
    }
  }

  /** Nothing interchangeable with `x` follows an element `x` strictly precedes. */
  lemma NoClassMemberAfter<T(!new)>(x: T, s: seq<T>, lt: (T, T) -> bool, p: T -> bool)
    requires s != [] && SortedBy(s, lt) && lt(x, s[0]) && p(x)
    requires forall a :: !lt(a, a)
    requires forall a, b :: p(a) && p(b) ==> !lt(a, b)
    requires forall a, b, c :: p(a) && p(b) && lt(a, c) ==> lt(b, c)
    ensures Filter(p, s) == []
  {
    forall k | 0 <= k < |s| ensures !p(s[k]) {
      assert !lt(s[k], s[0]);
    }
    FilterNone(p, s);
  }

  /**
   Inserting into a sorted sequence leaves the elements of one class of
   interchangeable elements in their order, with `x` last among them.
   */
  lemma {:induction false} InsertKeepsClassOrder<T(!new)>(x: T, s: seq<T>, lt: (T, T) -> bool, p: T -> bool)
    requires StrictOrder(lt) && SortedBy(s, lt)
    requires forall a, b :: p(a) && p(b) ==> !lt(a, b)
    requires forall a, b, c :: p(a) && p(b) && lt(a, c) ==> lt(b, c)
    ensures Filter(p, Insert(x, s, lt)) == Filter(p, s) + (if p(x) then [x] else [])
  {
    if s == [] || lt(x, s[0]) {
      InsertAtFront(x, s, lt, p);
    } else {
      var px := if p(x) then [x] else [];
      var t := Insert(x, s[1..], lt);
      assert Insert(x, s, lt) == [s[0]] + t;
      SortedTail(s, lt);
      InsertKeepsClassOrder(x, s[1..], lt, p);
      var p0 := if p(s[0]) then [s[0]] else [];
      ConsFilter(p, s[0], s[1..]);
      assert [s[0]] + s[1..] == s;
      ConsFilter(p, s[0], t);
      AppendAssoc(p0, Filter(p, s[1..]), px);
    }
  }

  /** The base cases: `x` goes first, and no element of its class follows it. */
  lemma InsertAtFront<T(!new)>(x: T, s: seq<T>, lt: (T, T) -> bool, p: T -> bool)
    requires StrictOrder(lt) && SortedBy(s, lt)
    requires s == [] || lt(x, s[0])
    requires forall a, b :: p(a) && p(b) ==> !lt(a, b)
    requires forall a, b, c :: p(a) && p(b) && lt(a, c) ==> lt(b, c)
    ensures Filter(p, Insert(x, s, lt)) == Filter(p, s) + (if p(x) then [x] else [])
  {
    var px := if p(x) then [x] else [];
    assert Insert(x, s, lt) == [x] + s;
    ConsFilter(p, x, s);
    if p(x) && s != [] {
      NoClassMemberAfter(x, s, lt, p);
    }
    assert Filter(p, s) == [] || px == [];
  }

  lemma ConsFilter<T>(p: T -> bool, x: T, s: seq<T>)
    ensures Filter(p, [x] + s) == (if p(x) then [x] else []) + Filter(p, s)
  {
    assert ([x] + s)[1..] == s;
  }

  /**
   Sorting is stable: the elements of a class of interchangeable elements come
   out in the order they went in.
   */
  lemma {:induction false} SortByKeepsClassOrder<T(!new)>(s: seq<T>, lt: (T, T) -> bool, p: T -> bool)
    requires StrictOrder(lt)
    requires forall a, b :: p(a) && p(b) ==> !lt(a, b)
    requires forall a, b, c :: p(a) && p(b) && lt(a, c) ==> lt(b, c)
    ensures Filter(p, SortBy(s, lt)) == Filter(p, s)
    decreases |s|
  {
    if s != [] {
      var init, last := s[..|s| - 1], s[|s| - 1];
      var px := if p(last) then [last] else [];
      SortByKeepsClassOrder(init, lt, p);
      SortBySorted(init, lt);
      InsertKeepsClassOrder(last, SortBy(init, lt), lt, p);
      assert SortBy(s, lt) == Insert(last, SortBy(init, lt), lt);
      assert Filter(p, SortBy(s, lt)) == Filter(p, init) + px;
      SplitLast(s);
      FilterAppend(p, init, [last]);
      assert Filter(p, [last]) == px;
    }
  }
}
