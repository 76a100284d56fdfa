/**
 * `Array.prototype.sort` with a comparator, as ECMAScript (ECMA-262, section
 * 23.1.3.30) specifies it: the result is a permutation of the input; when the
 * comparator is consistent it is ordered by the comparator; and the sort is
 * stable, so elements the comparator calls equal keep their input order.
 *
 * The built-in works in place; every caller in this model sorts a fresh copy,
 * so the sort is modelled on values. Insertion sort serves as the reference
 * implementation.
 */
module ArraySort {

  /**
   * A comparator that is consistent in ECMA-262's sense: it agrees with itself
   * when its arguments are swapped, and "not after" is transitive.
   */
  ghost predicate Consistent<T(!new)>(cmp: (T, T) -> int) {
    && (forall a, b :: cmp(a, b) < 0 <==> cmp(b, a) > 0)
    && (forall a, b, c {:trigger NotAfter(cmp, a, b), NotAfter(cmp, b, c)} ::
          NotAfter(cmp, a, b) && NotAfter(cmp, b, c) ==> NotAfter(cmp, a, c))
  }

  /** The comparator does not put `a` after `b`. */
  ghost predicate NotAfter<T>(cmp: (T, T) -> int, a: T, b: T) {
    cmp(a, b) <= 0
  }

  /** No element is placed after one the comparator puts before it. */
  ghost predicate Sorted<T>(s: seq<T>, cmp: (T, T) -> int) {
    forall i, j :: 0 <= i < j < |s| ==> cmp(s[i], s[j]) <= 0
  }

  /** The elements of `s` that the comparator calls equal to `v`, in order. */
  function Ties<T>(s: seq<T>, cmp: (T, T) -> int, v: T): seq<T> {
    if s == [] then []
    else (if cmp(s[0], v) == 0 then [s[0]] else []) + Ties(s[1..], cmp, v)
  }

  /** `x` placed just before the first element it does not come after. */
  function Insert<T>(x: T, s: seq<T>, cmp: (T, T) -> int): (r: seq<T>)
    ensures multiset(r) == multiset(s) + multiset{x}
  {
    if s == [] then [x]
    else if cmp(x, s[0]) <= 0 then [x] + s
    else
      assert s == [s[0]] + s[1..];
      [s[0]] + Insert(x, s[1..], cmp)
  }

  /** The array as the sort leaves it. */
  function StableSort<T>(s: seq<T>, cmp: (T, T) -> int): (r: seq<T>)
    ensures multiset(r) == multiset(s)
  {
    if s == [] then []
    else
      assert s == [s[0]] + s[1..];
      Insert(s[0], StableSort(s[1..], cmp), cmp)
  }

  lemma {:induction false} InsertSorted<T(!new)>(x: T, s: seq<T>, cmp: (T, T) -> int)
    requires Consistent(cmp)
    requires Sorted(s, cmp)
    ensures Sorted(Insert(x, s, cmp), cmp)
    ensures |Insert(x, s, cmp)| == |s| + 1
    ensures forall y :: y in Insert(x, s, cmp) ==> y == x || y in s
  {
    if s == [] {
    } else if cmp(x, s[0]) <= 0 {
      var r := [x] + s;
      forall i, j | 0 <= i < j < |r| ensures cmp(r[i], r[j]) <= 0 {
        if i == 0 && j > 1 {
          assert NotAfter(cmp, x, s[0]) && NotAfter(cmp, s[0], s[j - 1]);
        }
      }
    } else {
      var rest := Insert(x, s[1..], cmp);
      InsertSorted(x, s[1..], cmp);
      var r := [s[0]] + rest;
      assert cmp(s[0], x) < 0;
      forall i, j | 0 <= i < j < |r| ensures cmp(r[i], r[j]) <= 0 {
        if i == 0 {
          assert r[j] in rest;
          if r[j] != x {
            assert r[j] in s[1..];
            var k :| 0 <= k < |s[1..]| && s[1..][k] == r[j];
            assert s[k + 1] == r[j];
            assert NotAfter(cmp, s[0], s[k + 1]);
          }
        }
      }
    }
  }

  /** With a consistent comparator, the sort orders its result. */
  lemma {:induction false} SortSorted<T(!new)>(s: seq<T>, cmp: (T, T) -> int)
    requires Consistent(cmp)
    ensures Sorted(StableSort(s, cmp), cmp)
    ensures |StableSort(s, cmp)| == |s|
  {
    if s != [] {
      SortSorted(s[1..], cmp);
      InsertSorted(s[0], StableSort(s[1..], cmp), cmp);
    }
  }

  lemma {:induction false} TiesAppend<T>(a: seq<T>, b: seq<T>, cmp: (T, T) -> int, v: T)
    ensures Ties(a + b, cmp, v) == Ties(a, cmp, v) + Ties(b, cmp, v)
  {
    if a == [] {
      assert a + b == b;
    } else {
      assert (a + b)[0] == a[0] && (a + b)[1..] == a[1..] + b;
      TiesAppend(a[1..], b, cmp, v);
      TiesCons(a + b, cmp, v);
      TiesCons(a, cmp, v);
    }
  }

  /** Two elements equal to the same `v` are equal to each other. */
  lemma TiedWithSame<T(!new)>(a: T, b: T, cmp: (T, T) -> int, v: T)
    requires Consistent(cmp)
    requires cmp(a, v) == 0 && cmp(b, v) == 0
    ensures cmp(a, b) == 0
  {
    assert cmp(v, b) == 0 && cmp(v, a) == 0;
    assert NotAfter(cmp, a, v) && NotAfter(cmp, v, b);
    assert NotAfter(cmp, b, v) && NotAfter(cmp, v, a);
  }

  lemma TiesSingle<T>(y: T, cmp: (T, T) -> int, v: T)
    ensures Ties([y], cmp, v) == if cmp(y, v) == 0 then [y] else []
  {
    assert [y][1..] == [];
  }

  /** Of two elements the comparator tells apart, at most one is equal to `v`. */
  lemma NotBothTied<T(!new)>(x: T, y: T, cmp: (T, T) -> int, v: T)
    requires Consistent(cmp)
    requires cmp(x, y) > 0
    ensures Ties([x], cmp, v) == [] || Ties([y], cmp, v) == []
  {
    TiesSingle(x, cmp, v);
    TiesSingle(y, cmp, v);
    if cmp(x, v) == 0 && cmp(y, v) == 0 {
      TiedWithSame(x, y, cmp, v);
    }
  }

  /** Moving an empty sequence past another one does not change the result. */
  lemma SwapEmpty<T>(a: seq<T>, b: seq<T>, c: seq<T>)
    requires a == [] || b == []
    ensures b + (a + c) == a + (b + c)
  {
    if a == [] {
      assert a + c == c;
      assert a + (b + c) == b + c;
    } else {
      assert b + (a + c) == a + c;
      assert b + c == c;
    }
  }

  /** The ties of a non-empty sequence: those of its head, then those of its tail. */
  lemma TiesCons<T>(s: seq<T>, cmp: (T, T) -> int, v: T)
    requires s != []
    ensures Ties(s, cmp, v) == Ties([s[0]], cmp, v) + Ties(s[1..], cmp, v)
  {
    TiesSingle(s[0], cmp, v);
  }

  /** The step of InsertTies where `x` moves past the first element. */
  lemma InsertTiesStep<T>(x: T, s: seq<T>, cmp: (T, T) -> int, v: T)
    requires s != [] && cmp(x, s[0]) > 0
    requires Ties(Insert(x, s[1..], cmp), cmp, v) == Ties([x], cmp, v) + Ties(s[1..], cmp, v)
    requires Ties([x], cmp, v) == [] || Ties([s[0]], cmp, v) == []
    ensures Ties(Insert(x, s, cmp), cmp, v) == Ties([x], cmp, v) + Ties(s, cmp, v)
  {
    var r := Insert(x, s, cmp);
    assert r[0] == s[0] && r[1..] == Insert(x, s[1..], cmp);
    TiesCons(r, cmp, v);
    TiesCons(s, cmp, v);
    SwapEmpty(Ties([x], cmp, v), Ties([s[0]], cmp, v), Ties(s[1..], cmp, v));
  }

  /**
   * Inserting `x` puts it ahead of every element equal to it, so among the
   * elements equal to any `v` it comes first.
   */
  lemma {:induction false} InsertTies<T(!new)>(x: T, s: seq<T>, cmp: (T, T) -> int, v: T)
    requires Consistent(cmp)
    ensures Ties(Insert(x, s, cmp), cmp, v) == Ties([x], cmp, v) + Ties(s, cmp, v)
  {
    if s == [] {
      assert Insert(x, s, cmp) == [x];
    } else if cmp(x, s[0]) <= 0 {
      TiesAppend([x], s, cmp, v);
    } else {
      InsertTies(x, s[1..], cmp, v);
      NotBothTied(x, s[0], cmp, v);
      InsertTiesStep(x, s, cmp, v);
    }
  }

  /** The sort is stable: elements equal to any `v` keep their input order. */
  lemma {:induction false} SortStable<T(!new)>(s: seq<T>, cmp: (T, T) -> int, v: T)
    requires Consistent(cmp)
    ensures Ties(StableSort(s, cmp), cmp, v) == Ties(s, cmp, v)
  {
    if s != [] {
      var sortedRest := StableSort(s[1..], cmp);
      SortStable(s[1..], cmp, v);
      InsertTies(s[0], sortedRest, cmp, v);
      TiesCons(s, cmp, v);
    }
  }
}
