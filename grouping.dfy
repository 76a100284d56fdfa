/**
 * The accumulation shared by the `classification` and `broadcast` strategies
 * of the Animal Quest page (apps/website/src/pages/animal-quest/index.tsx,
 * lines 68-80 and 87-95): walk a sorted list and, for each element, `set` its
 * key in a `Map` to a group holding the element's name and the group's items
 * so far with the element's item appended.
 *
 * The specification functions below describe the result without a map:
 * `Keys` lists the keys in order of first occurrence, `Select` the items of one
 * key in list order, `GroupName` the name the last element of a key wrote.
 */
module Grouping {
  import opened Wrappers
  import opened OrderedMaps

  /** One entry of the grouped map: its heading and its items. */
  datatype Group<U> = Group(name: string, items: seq<U>)

  type Groups<U> = OrderedMap<string, Group<U>>

  /** Some element of `s` has key `k`. */
  ghost predicate Occurs<T>(s: seq<T>, key: T -> string, k: string) {
    exists i :: 0 <= i < |s| && key(s[i]) == k
  }

  /** Key `k1` occurs in `s` before the first occurrence of key `k2`. */
  ghost predicate SeenBefore<T>(s: seq<T>, key: T -> string, k1: string, k2: string) {
    exists i :: 0 <= i < |s| && key(s[i]) == k1 && forall j :: 0 <= j <= i ==> key(s[j]) != k2
  }

  /** The distinct keys of `s`, each where it first occurs. */
  function Keys<T>(s: seq<T>, key: T -> string): (ks: seq<string>)
    ensures |ks| <= |s|
  {
    if s == [] then []
    else
      var ks := Keys(s[..|s| - 1], key);
      if key(s[|s| - 1]) in ks then ks else ks + [key(s[|s| - 1])]
  }

  /** The items of the elements of `s` with key `k`, in the order of `s`. */
  function Select<T, U>(s: seq<T>, key: T -> string, item: T -> U, k: string): (r: seq<U>)
    ensures |r| <= |s|
  {
    if s == [] then []
    else Select(s[..|s| - 1], key, item, k) + (if key(s[|s| - 1]) == k then [item(s[|s| - 1])] else [])
  }

  /** The name given by the last element of `s` with key `k`. */
  function GroupName<T>(s: seq<T>, key: T -> string, name: T -> string, k: string): string {
    if s == [] then ""
    else if key(s[|s| - 1]) == k then name(s[|s| - 1])
    else GroupName(s[..|s| - 1], key, name, k)
  }

  /** The items of every element of `s`, in order. */
  function Project<T, U>(s: seq<T>, item: T -> U): (r: seq<U>)
    ensures |r| == |s|
    ensures forall i :: 0 <= i < |s| ==> r[i] == item(s[i])
  {
    if s == [] then [] else Project(s[..|s| - 1], item) + [item(s[|s| - 1])]
  }

  /** The selections for the keys `ks`, one after the other. */
  function Concat<T, U>(s: seq<T>, key: T -> string, item: T -> U, ks: seq<string>): seq<U> {
    if ks == [] then [] else Select(s, key, item, ks[0]) + Concat(s, key, item, ks[1..])
  }

  /** The items of the groups listed in `ks`, one group after the other. */
  function ItemsOf<U>(m: Groups<U>, ks: seq<string>): seq<U>
    requires forall k :: k in ks ==> k in m.entries
  {
    if ks == [] then [] else m.entries[ks[0]].items + ItemsOf(m, ks[1..])
  }

  /** Every item of the grouped map, group by group in the map's order. */
  function AllItems<U>(m: Groups<U>): seq<U>
    requires m.Valid()
  {
    ItemsOf(m, m.keys)
  }

  /**
   * The reduce: for each element in turn, `set` its key to a group named by the
   * element whose items are the previous items of that key followed by the
   * element's item. The result lists each key once, in order of first
   * occurrence, with the items of that key in list order; together the groups
   * hold exactly the items of the list.
   */
  method GroupBy<T, U>(s: seq<T>, key: T -> string, name: T -> string, item: T -> U)
    returns (m: Groups<U>)
    ensures m.Valid()
    ensures m.keys == Keys(s, key)
    ensures forall k :: k in m.entries ==>
      m.entries[k] == Group(GroupName(s, key, name, k), Select(s, key, item, k))
    ensures forall i :: 0 <= i < |s| ==> key(s[i]) in m.entries
    ensures forall a, b :: 0 <= a < b < |m.keys| ==> SeenBefore(s, key, m.keys[a], m.keys[b])
    ensures multiset(AllItems(m)) == multiset(Project(s, item))
  {
    m := Empty();
    var i := 0;
    while i < |s|
      invariant 0 <= i <= |s|
      invariant Accumulates(m, s[..i], key, name, item)
    {
      var x := s[i];
      Step(m, s[..i], x, key, name, item);
      m := m.Set(key(x), Group(name(x), PreviousItems(m, key(x)) + [item(x)]));
      assert s[..i + 1] == s[..i] + [x];
      i := i + 1;
    }
    assert s[..|s|] == s;
    Accumulated(m, s, key, name, item);
  }

  /** What `Accumulates` says about the groups of the whole list. */
  lemma Accumulated<T, U>(m: Groups<U>, s: seq<T>, key: T -> string, name: T -> string, item: T -> U)
    requires Accumulates(m, s, key, name, item)
    ensures forall i :: 0 <= i < |s| ==> key(s[i]) in m.entries
    ensures forall a, b :: 0 <= a < b < |m.keys| ==> SeenBefore(s, key, m.keys[a], m.keys[b])
    ensures multiset(AllItems(m)) == multiset(Project(s, item))
  {
    AccumulatedKeys(m, s, key, name, item);
    AccumulatedItems(m, s, key, name, item);
  }

  lemma AccumulatedKeys<T, U>(m: Groups<U>, s: seq<T>, key: T -> string, name: T -> string, item: T -> U)
    requires Accumulates(m, s, key, name, item)
    ensures forall i :: 0 <= i < |s| ==> key(s[i]) in m.entries
    ensures forall a, b :: 0 <= a < b < |m.keys| ==> SeenBefore(s, key, m.keys[a], m.keys[b])
  {
    KeysFirstSeen(s, key);
    forall i | 0 <= i < |s| ensures key(s[i]) in m.entries {
      assert Occurs(s, key, key(s[i]));
    }
  }

  lemma AccumulatedItems<T, U>(m: Groups<U>, s: seq<T>, key: T -> string, name: T -> string, item: T -> U)
    requires Accumulates(m, s, key, name, item)
    requires forall i :: 0 <= i < |s| ==> key(s[i]) in m.entries
    ensures multiset(AllItems(m)) == multiset(Project(s, item))
  {
    assert Distinct(m.keys);
    ItemsAreSelections(s, key, name, item, m, m.keys);
    Partition(s, key, item, m.keys);
  }

  /** `map.get(k)?.items || []`: the items stored under `k` so far. */
  function PreviousItems<U>(m: Groups<U>, k: string): (items: seq<U>)
    ensures k in m.entries ==> items == m.entries[k].items
    ensures k !in m.entries ==> items == []
  {
    match m.Get(k)
    case Some(group) => group.items
    case None => []
  }

  /** What the reduce has built after the elements of `s`. */
  ghost predicate Accumulates<T, U>(m: Groups<U>, s: seq<T>, key: T -> string, name: T -> string, item: T -> U) {
    && m.Valid()
    && m.keys == Keys(s, key)
    && (forall k :: k in m.entries ==>
          m.entries[k] == Group(GroupName(s, key, name, k), Select(s, key, item, k)))
    && (forall k :: k !in m.entries ==> Select(s, key, item, k) == [])
  }

  /** One step of the reduce keeps `Accumulates` for the list one element longer. */
  lemma Step<T, U>(m: Groups<U>, s: seq<T>, x: T, key: T -> string, name: T -> string, item: T -> U)
    requires Accumulates(m, s, key, name, item)
    ensures Accumulates(m.Set(key(x), Group(name(x), PreviousItems(m, key(x)) + [item(x)])),
                        s + [x], key, name, item)
  {
    assert (s + [x])[..|s|] == s;
  }

  /**
   * `Keys` lists each key once, lists exactly the keys that occur, and lists
   * them in order of first occurrence.
   */
  lemma {:induction false} KeysFirstSeen<T>(s: seq<T>, key: T -> string)
    ensures Distinct(Keys(s, key))
    ensures forall k :: k in Keys(s, key) <==> Occurs(s, key, k)
    ensures forall a, b :: 0 <= a < b < |Keys(s, key)| ==>
      SeenBefore(s, key, Keys(s, key)[a], Keys(s, key)[b])
  {
    if s != [] {
      var p, x := s[..|s| - 1], s[|s| - 1];
      KeysFirstSeen(p, key);
      var ks := Keys(p, key);
      forall k ensures Occurs(s, key, k) <==> Occurs(p, key, k) || key(x) == k {
        if Occurs(s, key, k) {
          var i :| 0 <= i < |s| && key(s[i]) == k;
          if i < |p| {
            assert p[i] == s[i];
          }
        }
        if Occurs(p, key, k) {
          var i :| 0 <= i < |p| && key(p[i]) == k;
          assert s[i] == p[i];
        }
      }
      forall k1, k2 | SeenBefore(p, key, k1, k2) ensures SeenBefore(s, key, k1, k2) {
        var i :| 0 <= i < |p| && key(p[i]) == k1 && forall j :: 0 <= j <= i ==> key(p[j]) != k2;
        assert key(s[i]) == k1;
        forall j | 0 <= j <= i ensures key(s[j]) != k2 {
          assert s[j] == p[j];
        }
      }
      if key(x) !in ks {
        var r := ks + [key(x)];
        forall a | 0 <= a < |ks| ensures SeenBefore(s, key, r[a], key(x)) {
          assert Occurs(p, key, ks[a]);
          var i :| 0 <= i < |p| && key(p[i]) == ks[a];
          assert key(s[i]) == ks[a];
          forall j | 0 <= j <= i ensures key(s[j]) != key(x) {
            assert s[j] == p[j];
          }
        }
      }
    }
  }

  /** With the selections stored under each key, the groups' items are the selections. */
  lemma {:induction false} ItemsAreSelections<T, U>(s: seq<T>, key: T -> string, name: T -> string,
                                                      item: T -> U, m: Groups<U>, ks: seq<string>)
    requires forall k :: k in ks ==> k in m.entries
    requires forall k :: k in m.entries ==>
      m.entries[k] == Group(GroupName(s, key, name, k), Select(s, key, item, k))
    ensures ItemsOf(m, ks) == Concat(s, key, item, ks)
  {
    if ks != [] {
      ItemsAreSelections(s, key, name, item, m, ks[1..]);
    }
  }

  /** Adding one element to the list adds its item to the selections of `ks` at most once. */
  lemma {:induction false} ConcatLast<T, U>(s: seq<T>, key: T -> string, item: T -> U, ks: seq<string>)
    requires s != [] && Distinct(ks)
    ensures multiset(Concat(s, key, item, ks)) ==
      multiset(Concat(s[..|s| - 1], key, item, ks))
        + (if key(s[|s| - 1]) in ks then multiset{item(s[|s| - 1])} else multiset{})
  {
    if ks != [] {
      assert Distinct(ks[1..]);
      ConcatLast(s, key, item, ks[1..]);
      assert key(s[|s| - 1]) in ks <==> key(s[|s| - 1]) == ks[0] || key(s[|s| - 1]) in ks[1..];
      if key(s[|s| - 1]) == ks[0] {
        assert key(s[|s| - 1]) !in ks[1..];
      }
    }
  }

  /** The selections of the empty list are empty. */
  lemma {:induction false} ConcatNothing<T, U>(key: T -> string, item: T -> U, ks: seq<string>)
    ensures Concat([], key, item, ks) == []
  {
    if ks != [] {
      ConcatNothing(key, item, ks[1..]);
    }
  }

  /**
   * Partition: when `ks` lists every key of `s` once, the selections of `ks`
   * hold every item of `s` exactly as often as `s` does.
   */
  lemma {:induction false} Partition<T, U>(s: seq<T>, key: T -> string, item: T -> U, ks: seq<string>)
    requires Distinct(ks)
    requires forall i :: 0 <= i < |s| ==> key(s[i]) in ks
    ensures multiset(Concat(s, key, item, ks)) == multiset(Project(s, item))
  {
    if s == [] {
      ConcatNothing(key, item, ks);
    } else {
      var p := s[..|s| - 1];
      forall i | 0 <= i < |p| ensures key(p[i]) in ks {
        assert p[i] == s[i];
      }
      Partition(p, key, item, ks);
      ConcatLast(s, key, item, ks);
    }
  }

  /** The selection of a prefix is a prefix of the selection. */
  lemma {:induction false} SelectPrefix<T, U>(s: seq<T>, key: T -> string, item: T -> U, k: string, n: nat)
    requires n <= |s|
    ensures Select(s[..n], key, item, k) <= Select(s, key, item, k)
    decreases |s|
  {
    if n == |s| {
      assert s[..n] == s;
    } else {
      var p := s[..|s| - 1];
      assert p[..n] == s[..n];
      SelectPrefix(p, key, item, k, n);
    }
  }

  /**
   * Within a group, items keep their relative order: the item of the `i`-th
   * element sits at position `|Select(s[..i], …)|` of its group, and these
   * positions grow with `i`.
   */
  lemma GroupKeepsOrder<T, U>(s: seq<T>, key: T -> string, item: T -> U, k: string, i: int, j: int)
    requires 0 <= i < j < |s|
    requires key(s[i]) == k && key(s[j]) == k
    ensures |Select(s[..i], key, item, k)| < |Select(s[..j], key, item, k)| < |Select(s, key, item, k)|
    ensures Select(s, key, item, k)[|Select(s[..i], key, item, k)|] == item(s[i])
    ensures Select(s, key, item, k)[|Select(s[..j], key, item, k)|] == item(s[j])
  {
    SelectAt(s, key, item, k, i);
    SelectAt(s, key, item, k, j);
    assert s[..j][..i + 1] == s[..i + 1];
    SelectPrefix(s[..j], key, item, k, i + 1);
  }

  /** The element at `i` with key `k` contributes the next item of the selection. */
  lemma SelectAt<T, U>(s: seq<T>, key: T -> string, item: T -> U, k: string, i: int)
    requires 0 <= i < |s| && key(s[i]) == k
    ensures Select(s[..i + 1], key, item, k) == Select(s[..i], key, item, k) + [item(s[i])]
    ensures Select(s[..i + 1], key, item, k) <= Select(s, key, item, k)
  {
    assert s[..i + 1][..i] == s[..i];
    SelectPrefix(s, key, item, k, i + 1);
  }

  /** A key that occurs is named by one of its own elements: the last one written. */
  lemma {:induction false} GroupNameWriter<T>(s: seq<T>, key: T -> string, name: T -> string, k: string)
    requires Occurs(s, key, k)
    ensures exists i :: 0 <= i < |s| && key(s[i]) == k && GroupName(s, key, name, k) == name(s[i])
  {
    var n := |s| - 1;
    if key(s[n]) != k {
      var p := s[..n];
      var j :| 0 <= j < |s| && key(s[j]) == k;
      assert j < n && p[j] == s[j];
      GroupNameWriter(p, key, name, k);
      var i :| 0 <= i < |p| && key(p[i]) == k && GroupName(p, key, name, k) == name(p[i]);
      assert s[i] == p[i];
    }
  }

  /**
   * When every element of a key carries the same name, the group's name is
   * the name of any of its elements.
   */
  lemma {:induction false} GroupNameOf<T>(s: seq<T>, key: T -> string, name: T -> string, i: int)
    requires 0 <= i < |s|
    requires forall a, b :: 0 <= a < |s| && 0 <= b < |s| && key(s[a]) == key(s[b]) ==> name(s[a]) == name(s[b])
    ensures GroupName(s, key, name, key(s[i])) == name(s[i])
  {
    var p := s[..|s| - 1];
    if i < |s| - 1 && key(s[|s| - 1]) != key(s[i]) {
      assert p[i] == s[i];
      forall a, b | 0 <= a < |p| && 0 <= b < |p| && key(p[a]) == key(p[b]) ensures name(p[a]) == name(p[b]) {
        assert p[a] == s[a] && p[b] == s[b];
      }
      GroupNameOf(p, key, name, i);
    }
  }

  lemma {:induction false} ProjectAppend<T, U>(a: seq<T>, b: seq<T>, item: T -> U)
    ensures Project(a + b, item) == Project(a, item) + Project(b, item)
  {
    var l, r := Project(a + b, item), Project(a, item) + Project(b, item);
    assert |l| == |r|;
    forall i | 0 <= i < |l| ensures l[i] == r[i] {
      if i < |a| {
        assert (a + b)[i] == a[i];
      } else {
        assert (a + b)[i] == b[i - |a|];
      }
    }
  }

  /** Rearranging a list rearranges its items the same way. */
  lemma {:induction false} ProjectPermutation<T, U>(s1: seq<T>, s2: seq<T>, item: T -> U)
    requires multiset(s1) == multiset(s2)
    ensures multiset(Project(s1, item)) == multiset(Project(s2, item))
    decreases |s1|
  {
    if s1 != [] {
      var p, x := s1[..|s1| - 1], s1[|s1| - 1];
      assert s1 == p + [x];
      assert x in multiset(s2);
      var j :| 0 <= j < |s2| && s2[j] == x;
      var rest := s2[..j] + s2[j + 1..];
      assert s2 == s2[..j] + [x] + s2[j + 1..];
      assert multiset(s1) == multiset(p) + multiset{x};
      assert multiset(s2) == multiset(s2[..j]) + multiset{x} + multiset(s2[j + 1..]);
      assert multiset(rest) == multiset(s2[..j]) + multiset(s2[j + 1..]);
      assert multiset(rest) + multiset{x} == multiset(p) + multiset{x};
      forall y ensures multiset(p)[y] == multiset(rest)[y] {
        assert (multiset(rest) + multiset{x})[y] == (multiset(p) + multiset{x})[y];
      }
      assert multiset(p) == multiset(rest);
      ProjectPermutation(p, rest, item);
      ProjectAppend(p, [x], item);
      ProjectAppend(s2[..j], [x], item);
      ProjectAppend(s2[..j] + [x], s2[j + 1..], item);
      ProjectAppend(s2[..j], s2[j + 1..], item);
    }
  }
}
