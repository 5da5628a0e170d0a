/** `Array.prototype.sort(compare)`. ECMAScript requires the sort to be
    stable, so for a comparator that is a strict weak order its result is
    determined: the input ordered by the comparator, with elements the
    comparator does not separate left in input order. Any stable sort gives
    that result; it is written here as insertion sort. `lt(a, b)` means the
    comparator puts `a` strictly before `b` (`compare(a, b) < 0`). */
module StableSort {
  import opened Common

  /** Irreflexive, transitive, and with transitive incomparability. */
  ghost predicate StrictWeakOrder<T(!new)>(lt: (T, T) -> bool) {
    (forall a :: !lt(a, a))
    && (forall a, b, c :: lt(a, b) && lt(b, c) ==> lt(a, c))
    && (forall a, b, c :: !lt(a, b) && !lt(b, c) ==> !lt(a, c))
  }

  /** No later element is strictly before an earlier one. */
  ghost predicate Sorted<T>(s: seq<T>, lt: (T, T) -> bool) {
    forall i, j | 0 <= i < j < |s| :: !lt(s[j], s[i])
  }

  /** Inserts `x` after every element it is not strictly before. */
  function Insert<T>(x: T, s: seq<T>, lt: (T, T) -> bool): (r: seq<T>)
    ensures |r| == |s| + 1
  {
    if s == [] then [x]
    else if lt(x, s[0]) then [x] + s
    else [s[0]] + Insert(x, s[1..], lt)
  }

  /** The result of sorting `s` with comparator `lt`. */
  function Sort<T>(s: seq<T>, lt: (T, T) -> bool): (r: seq<T>)
    ensures |r| == |s|
  {
    if s == [] then []
    else Insert(s[|s| - 1], Sort(s[..|s| - 1], lt), lt)
  }

  /** Insertion adds exactly `x`. */
  lemma {:induction false} InsertPerm<T>(x: T, s: seq<T>, lt: (T, T) -> bool)
    ensures multiset(Insert(x, s, lt)) == multiset(s) + multiset{x}
  {
    if s != [] && !lt(x, s[0]) {
      InsertPerm(x, s[1..], lt);
      var t := Insert(x, s[1..], lt);
      assert multiset([s[0]] + t) == multiset([s[0]]) + multiset(t);
      assert s == [s[0]] + s[1..];
      assert multiset(s) == multiset([s[0]]) + multiset(s[1..]);
    }
  }

  /** The sort is a permutation of its input. */
  lemma {:induction false} SortPerm<T>(s: seq<T>, lt: (T, T) -> bool)
    ensures multiset(Sort(s, lt)) == multiset(s)
  {
    if s != [] {
      var n := |s| - 1;
      SortPerm(s[..n], lt);
      InsertPerm(s[n], Sort(s[..n], lt), lt);
      assert s == s[..n] + [s[n]];
    }
  }

  lemma {:induction false} InsertSorted<T(!new)>(x: T, s: seq<T>, lt: (T, T) -> bool)
    requires StrictWeakOrder(lt) && Sorted(s, lt)
    ensures Sorted(Insert(x, s, lt), lt)
  {
    if s != [] {
      if lt(x, s[0]) {
        var r := [x] + s;
        forall i, j | 0 <= i < j < |r| ensures !lt(r[j], r[i]) {
          if i == 0 {
            assert r[j] == s[j - 1];
            if j > 1 {
              assert !lt(s[j - 1], s[0]);
            }
          } else {
            assert r[i] == s[i - 1] && r[j] == s[j - 1];
          }
        }
      } else {
        var t := Insert(x, s[1..], lt);
        InsertSorted(x, s[1..], lt);
        InsertPerm(x, s[1..], lt);
        var r := [s[0]] + t;
        assert multiset(t) == multiset(s[1..]) + multiset{x};
        forall i, j | 0 <= i < j < |r| ensures !lt(r[j], r[i]) {
          if i == 0 {
            assert r[j] in multiset(t);
            assert r[j] == x || r[j] in s[1..];
          } else {
            assert r[i] == t[i - 1] && r[j] == t[j - 1];
          }
        }
      }
    }
  }

  /** The sort orders its result by the comparator. */
  lemma {:induction false} SortSorted<T(!new)>(s: seq<T>, lt: (T, T) -> bool)
    requires StrictWeakOrder(lt)
    ensures Sorted(Sort(s, lt), lt)
  {
    if s != [] {
      SortSorted(s[..|s| - 1], lt);
      InsertSorted(s[|s| - 1], Sort(s[..|s| - 1], lt), lt);
    }
  }

  /** Every element of a sorted sequence after one that `x` is strictly
      before is also strictly after `x`. */
  lemma AfterInsertionPoint<T(!new)>(x: T, s: seq<T>, lt: (T, T) -> bool)
    requires StrictWeakOrder(lt) && Sorted(s, lt) && s != [] && lt(x, s[0])
    ensures forall k | 0 <= k < |s| :: lt(x, s[k])
  {
    forall k | 0 < k < |s| ensures lt(x, s[k]) {
      assert !lt(s[k], s[0]);
    }
  }

  /** Inserting a `p`-element that is not strictly before any `p`-element
      of a sorted sequence puts it after all of them. */
  lemma {:induction false} InsertFilterLast<T(!new)>(x: T, s: seq<T>, lt: (T, T) -> bool, p: T -> bool)
    requires StrictWeakOrder(lt) && Sorted(s, lt) && p(x)
    requires forall y | y in s && p(y) :: !lt(x, y)
    ensures Filter(Insert(x, s, lt), p) == Filter(s, p) + [x]
  {
    if s == [] {
    } else if lt(x, s[0]) {
      AfterInsertionPoint(x, s, lt);
      FilterNone(s, p);
      assert ([x] + s)[1..] == s;
    } else {
      SortedTail(s, lt);
      InsertFilterLast(x, s[1..], lt, p);
      FilterStep(s, Insert(x, s[1..], lt), p, [x]);
    }
  }

  /** Inserting an element that is not a `p`-element leaves the filter as
      it was. */
  lemma {:induction false} InsertFilterSkip<T>(x: T, s: seq<T>, lt: (T, T) -> bool, p: T -> bool)
    requires !p(x)
    ensures Filter(Insert(x, s, lt), p) == Filter(s, p)
  {
    if s == [] {
    } else if lt(x, s[0]) {
      assert ([x] + s)[1..] == s;
    } else {
      InsertFilterSkip(x, s[1..], lt, p);
      assert Filter(s[1..], p) + [] == Filter(s[1..], p);
      FilterStep(s, Insert(x, s[1..], lt), p, []);
      assert Filter(s, p) + [] == Filter(s, p);
    }
  }

  /** Putting the head of `s` back in front of a sequence whose filter
      extends that of `s[1..]` extends the filter of `s` the same way. */
  lemma FilterStep<T>(s: seq<T>, t: seq<T>, p: T -> bool, e: seq<T>)
    requires s != [] && Filter(t, p) == Filter(s[1..], p) + e
    ensures Filter([s[0]] + t, p) == Filter(s, p) + e
  {
    FilterCons(s[0], t, p);
    FilterCons(s[0], s[1..], p);
    assert [s[0]] + s[1..] == s;
    ConcatAssoc(if p(s[0]) then [s[0]] else [], Filter(s[1..], p), e);
  }

  lemma SortedTail<T>(s: seq<T>, lt: (T, T) -> bool)
    requires Sorted(s, lt) && s != []
    ensures Sorted(s[1..], lt)
  {
    forall i, j | 0 <= i < j < |s| - 1 ensures !lt(s[1..][j], s[1..][i]) {
      assert s[1..][j] == s[j + 1] && s[1..][i] == s[i + 1];
    }
  }

  /** Sorting keeps a subsequence that is already in order: when the
      `p`-elements of `s` are sorted among themselves, they come out of the
      sort as the same sequence. */
  lemma {:induction false} SortKeepsSortedFilter<T(!new)>(s: seq<T>, lt: (T, T) -> bool, p: T -> bool)
    requires StrictWeakOrder(lt)
    requires Sorted(Filter(s, p), lt)
    ensures Filter(Sort(s, lt), p) == Filter(s, p)
  {
    if s != [] {
      var n := |s| - 1;
      var prefix, x := s[..n], s[n];
      var fp := Filter(prefix, p);
      var last := if p(x) then [x] else [];
      assert s == prefix + [x];
      FilterAppend(prefix, [x], p);
      assert Filter([x], p) == last;
      assert Filter(s, p) == fp + last;
      SortedPrefix(fp, last, lt);
      SortKeepsSortedFilter(prefix, lt, p);
      var t := Sort(prefix, lt);
      assert Filter(t, p) == fp;
      SortSorted(prefix, lt);
      if p(x) {
        forall y | y in t && p(y) ensures !lt(x, y) {
          var k :| 0 <= k < |t| && t[k] == y;
          FilterIndex(t, p, k);
          LastNotBefore(fp, x, lt, y);
        }
        InsertFilterLast(x, t, lt, p);
      } else {
        InsertFilterSkip(x, t, lt, p);
        assert fp + last == fp;
      }
    }
  }

  lemma SortedPrefix<T>(a: seq<T>, b: seq<T>, lt: (T, T) -> bool)
    requires Sorted(a + b, lt)
    ensures Sorted(a, lt)
  {
    forall i, j | 0 <= i < j < |a| ensures !lt(a[j], a[i]) {
      assert a[i] == (a + b)[i] && a[j] == (a + b)[j];
    }
  }

  lemma LastNotBefore<T>(a: seq<T>, x: T, lt: (T, T) -> bool, y: T)
    requires Sorted(a + [x], lt) && y in a
    ensures !lt(x, y)
  {
    var m :| 0 <= m < |a| && a[m] == y;
    assert (a + [x])[m] == y && (a + [x])[|a|] == x;
  }

  /** Stability: the elements the comparator treats as equal to `y` come
      out in their input order. */
  lemma SortStable<T(!new)>(s: seq<T>, lt: (T, T) -> bool, y: T)
    requires StrictWeakOrder(lt)
    ensures Filter(Sort(s, lt), (a: T) => !lt(a, y) && !lt(y, a))
         == Filter(s, (a: T) => !lt(a, y) && !lt(y, a))
  {
    var p := (a: T) => !lt(a, y) && !lt(y, a);
    var f := Filter(s, p);
    FilterSatisfies(s, p);
    forall i, j | 0 <= i < j < |f| ensures !lt(f[j], f[i]) {
      assert p(f[i]) && p(f[j]);
    }
    SortKeepsSortedFilter(s, lt, p);
  }
}
