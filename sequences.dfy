/**
 * `Array.prototype.filter` and the stable `Array.prototype.sort` the handlers and
 * components use, over immutable sequences.
 */
module Sequences {

  /** `s.filter(f)`: the elements satisfying `f`, in their original order. */
  function Filter<T>(s: seq<T>, f: T -> bool): (r: seq<T>)
    ensures |r| <= |s|
    ensures forall i :: 0 <= i < |r| ==> f(r[i])
  {
    if s == [] then [] else (if f(s[0]) then [s[0]] else []) + Filter(s[1..], f)
  }

  /** Filtering keeps every occurrence of every element satisfying `f`, and nothing else. */
  lemma {:induction false} FilterCounts<T>(s: seq<T>, f: T -> bool, x: T)
    ensures multiset(Filter(s, f))[x] == if f(x) then multiset(s)[x] else 0
  {
    if s != [] {
      FilterCounts(s[1..], f, x);
      assert s == [s[0]] + s[1..];
    }
  }

  /** An element is kept exactly when it occurs and satisfies `f`. */
  lemma FilterMember<T>(s: seq<T>, f: T -> bool, x: T)
    ensures x in Filter(s, f) <==> x in s && f(x)
  {
    FilterCounts(s, f, x);
    assert x in Filter(s, f) <==> multiset(Filter(s, f))[x] > 0;
    assert x in s <==> multiset(s)[x] > 0;
  }

  /** Filtering distributes over concatenation, so relative order is kept. */
  lemma {:induction false} FilterAppend<T>(a: seq<T>, b: seq<T>, f: T -> bool)
    ensures Filter(a + b, f) == Filter(a, f) + Filter(b, f)
  {
    if a == [] {
      assert a + b == b;
    } else {
      var x, rest := a[0], a[1..];
      assert a == [x] + rest;
      assert a + b == [x] + (rest + b);
      FilterAppend(rest, b, f);
      FilterCons(x, rest + b, f);
      FilterCons(x, rest, f);
      var head: seq<T> := if f(x) then [x] else [];
      assert head + (Filter(rest, f) + Filter(b, f)) == (head + Filter(rest, f)) + Filter(b, f);
    }
  }

  /** Filtering a list with a first element decides that element, then filters the rest. */
  lemma FilterCons<T>(x: T, s: seq<T>, f: T -> bool)
    ensures Filter([x] + s, f) == (if f(x) then [x] else []) + Filter(s, f)
  {
    var xs := [x] + s;
    assert xs[0] == x && xs[1..] == s;
  }

  /** Filtering with two predicates that split every element counts each element once. */
  lemma {:induction false} FilterPartition<T>(s: seq<T>, f: T -> bool, g: T -> bool)
    requires forall i :: 0 <= i < |s| ==> f(s[i]) != g(s[i])
    ensures |Filter(s, f)| + |Filter(s, g)| == |s|
  {
    if s != [] {
      FilterPartition(s[1..], f, g);
    }
  }

  /** An element satisfying neither predicate appears in neither filtered list. */
  lemma FilterExcludes<T>(s: seq<T>, f: T -> bool, x: T)
    requires !f(x)
    ensures x !in Filter(s, f)
  {
    FilterMember(s, f, x);
  }

  /** `le` is a total preorder: the comparator of a sort. */
  ghost predicate TotalPreorder<T(!new)>(le: (T, T) -> bool) {
    && (forall a, b :: le(a, b) || le(b, a))
    && (forall a, b, c :: le(a, b) && le(b, c) ==> le(a, c))
  }

  predicate Sorted<T>(s: seq<T>, le: (T, T) -> bool) {
    forall i, j :: 0 <= i < j < |s| ==> le(s[i], s[j])
  }

  /** Inserts `x` before the first element not strictly below it. */
  function Insert<T>(x: T, s: seq<T>, le: (T, T) -> bool): (r: seq<T>)
    ensures multiset(r) == multiset(s) + multiset{x}
  {
    if s == [] || le(x, s[0]) then [x] + s
    else
      assert s == [s[0]] + s[1..];
      [s[0]] + Insert(x, s[1..], le)
  }

  /**
   * A stable sort: `[...s].sort(cmp)` where `le(a, b)` means `cmp(a, b) <= 0`.
   * The result is built by inserting each element in front of its equals.
   */
  function SortBy<T>(s: seq<T>, le: (T, T) -> bool): (r: seq<T>)
    ensures multiset(r) == multiset(s)
  {
    if s == [] then []
    else
      assert s == [s[0]] + s[1..];
      Insert(s[0], SortBy(s[1..], le), le)
  }

  lemma {:induction false} InsertSorted<T(!new)>(x: T, s: seq<T>, le: (T, T) -> bool)
    requires TotalPreorder(le) && Sorted(s, le)
    ensures Sorted(Insert(x, s, le), le)
  {
    if s != [] && !le(x, s[0]) {
      InsertSorted(x, s[1..], le);
      var r := Insert(x, s[1..], le);
      forall k | 0 <= k < |r|
        ensures le(s[0], r[k])
      {
        assert r[k] in multiset(s[1..]) + multiset{x} by {
          assert r[k] in multiset(r);
        }
        if r[k] != x {
          var j :| 0 <= j < |s[1..]| && s[1..][j] == r[k];
          assert s[j + 1] == r[k];
        }
      }
    }
  }

  /** The sort returns its input in non-decreasing order. */
  lemma {:induction false} SortBySorted<T(!new)>(s: seq<T>, le: (T, T) -> bool)
    requires TotalPreorder(le)
    ensures Sorted(SortBy(s, le), le)
  {
    if s != [] {
      SortBySorted(s[1..], le);
      InsertSorted(s[0], SortBy(s[1..], le), le);
    }
  }

  /** `a` and `b` compare equal under `le`. */
  predicate Equivalent<T>(le: (T, T) -> bool, a: T, b: T) {
    le(a, b) && le(b, a)
  }

  /** Of two elements the first strictly above the second, at most one is equivalent to `k`. */
  lemma NotBothEquivalent<T(!new)>(le: (T, T) -> bool, x: T, h: T, k: T)
    requires TotalPreorder(le) && !le(x, h)
    ensures !(Equivalent(le, x, k) && Equivalent(le, h, k))
  {
  }

  /**
   * Inserting `x` only moves it past elements strictly below it, none of which
   * is equivalent to `x`: the elements equivalent to `k` keep their order.
   */
  lemma {:induction false} InsertStable<T(!new)>(x: T, s: seq<T>, le: (T, T) -> bool, k: T)
    requires TotalPreorder(le)
    ensures Filter(Insert(x, s, le), y => Equivalent(le, y, k))
         == Filter([x] + s, y => Equivalent(le, y, k))
  {
    var p := y => Equivalent(le, y, k);
    if s != [] && !le(x, s[0]) {
      var h, rest := s[0], s[1..];
      assert s == [h] + rest;
      InsertStable(x, rest, le, k);
      var ph := if p(h) then [h] else [];
      var px := if p(x) then [x] else [];
      assert Insert(x, s, le) == [h] + Insert(x, rest, le);
      var tail := Filter(rest, p);
      FilterCons(h, Insert(x, rest, le), p);
      FilterCons(x, rest, p);
      assert Filter(Insert(x, s, le), p) == ph + (px + tail);
      FilterCons(x, s, p);
      FilterCons(h, rest, p);
      assert Filter([x] + s, p) == px + (ph + tail);
      NotBothEquivalent(le, x, h, k);
      if p(x) {
        assert !p(h) && ph == [];
        assert ph + tail == tail && ph + (px + tail) == px + tail;
      } else {
        assert px == [];
        assert px + tail == tail && px + (ph + tail) == ph + tail;
      }
    }
  }

  /**
   * Stability: the elements equivalent to any `k` come out of the sort in the
   * order they went in.
   */
  lemma {:induction false} SortByStable<T(!new)>(s: seq<T>, le: (T, T) -> bool, k: T)
    requires TotalPreorder(le)
    ensures Filter(SortBy(s, le), y => Equivalent(le, y, k))
         == Filter(s, y => Equivalent(le, y, k))
  {
    var p := y => Equivalent(le, y, k);
    if s != [] {
      SortByStable(s[1..], le, k);
      InsertStable(s[0], SortBy(s[1..], le), le, k);
      FilterAppend([s[0]], SortBy(s[1..], le), p);
      FilterAppend([s[0]], s[1..], p);
      assert s == [s[0]] + s[1..];
    }
  }
}
