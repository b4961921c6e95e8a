/** Python's stable `list.sort(key=..., reverse=...)` / `sorted(...)`, which
    both `Counter.most_common` and the result-table sort rely on. */
module Sorting {
  import opened Strings

  /** A sort key as the modelled code builds it: an `int` (the frequency
      column, `Counter` counts) or a `str` (every other column). The two kinds
      never meet in one sort; ordering ints first only makes the order total. */
  datatype SortKey = IntKey(n: int) | StrKey(s: string)

  predicate KeyLess(a: SortKey, b: SortKey) {
    match (a, b)
    case (IntKey(x), IntKey(y)) => x < y
    case (StrKey(x), StrKey(y)) => StrLess(x, y)
    case (IntKey(_), StrKey(_)) => true
    case (StrKey(_), IntKey(_)) => false
  }

  lemma KeyLessIrreflexive(a: SortKey)
    ensures !KeyLess(a, a)
  {
    if a.StrKey? { StrLessIrreflexive(a.s); }
  }

  lemma KeyLessTransitive(a: SortKey, b: SortKey, c: SortKey)
    requires KeyLess(a, b) && KeyLess(b, c)
    ensures KeyLess(a, c)
  {
    if a.StrKey? && b.StrKey? && c.StrKey? { StrLessTransitive(a.s, b.s, c.s); }
  }

  lemma KeyLessTotal(a: SortKey, b: SortKey)
    ensures a == b || KeyLess(a, b) || KeyLess(b, a)
  {
    if a.StrKey? && b.StrKey? { StrLessTotal(a.s, b.s); }
  }

  /** In the result of a sort with `reverse=desc`, an element with key `x` may
      stand before one with key `y`. */
  predicate InOrder(x: SortKey, y: SortKey, desc: bool) {
    if desc then !KeyLess(x, y) else !KeyLess(y, x)
  }

  lemma InOrderTotal(x: SortKey, y: SortKey, desc: bool)
    ensures InOrder(x, y, desc) || InOrder(y, x, desc)
  {
    if KeyLess(x, y) && KeyLess(y, x) {
      KeyLessTransitive(x, y, x);
      KeyLessIrreflexive(x);
    }
  }

  lemma InOrderTransitive(x: SortKey, y: SortKey, z: SortKey, desc: bool)
    requires InOrder(x, y, desc) && InOrder(y, z, desc)
    ensures InOrder(x, z, desc)
  {
    KeyLessTotal(x, y);
    KeyLessTotal(y, z);
    if desc && KeyLess(x, z) {
      if KeyLess(y, x) { KeyLessTransitive(y, x, z); }
      if KeyLess(z, y) { KeyLessTransitive(x, z, y); }
    }
    if !desc && KeyLess(z, x) {
      if KeyLess(x, y) { KeyLessTransitive(z, x, y); }
      if KeyLess(y, z) { KeyLessTransitive(y, z, x); }
    }
  }

  predicate Sorted<T>(s: seq<T>, key: T -> SortKey, desc: bool) {
    forall i, j | 0 <= i < j < |s| :: InOrder(key(s[i]), key(s[j]), desc)
  }

  /** The elements of `s` whose key is `k`, in their order in `s`. */
  function WithKey<T>(s: seq<T>, key: T -> SortKey, k: SortKey): seq<T> {
    if s == [] then [] else (if key(s[0]) == k then [s[0]] else []) + WithKey(s[1..], key, k)
  }

  /** Place `x`, which came before every element of `s`, into the sorted `s`:
      in front of the first element it may precede. */
  function Insert<T>(x: T, s: seq<T>, key: T -> SortKey, desc: bool): seq<T> {
    if s == [] || InOrder(key(x), key(s[0]), desc) then [x] + s
    else [s[0]] + Insert(x, s[1..], key, desc)
  }

  /** `sorted(s, key=key, reverse=desc)` */
  function SortBy<T>(s: seq<T>, key: T -> SortKey, desc: bool): seq<T> {
    if s == [] then [] else Insert(s[0], SortBy(s[1..], key, desc), key, desc)
  }

  lemma {:induction false} InsertMultiset<T>(x: T, s: seq<T>, key: T -> SortKey, desc: bool)
    ensures multiset(Insert(x, s, key, desc)) == multiset([x] + s)
  {
    if !(s == [] || InOrder(key(x), key(s[0]), desc)) {
      InsertMultiset(x, s[1..], key, desc);
      assert s == [s[0]] + s[1..];
    }
  }

  lemma {:induction false} InsertSorted<T>(x: T, s: seq<T>, key: T -> SortKey, desc: bool)
    requires Sorted(s, key, desc)
    ensures Sorted(Insert(x, s, key, desc), key, desc)
  {
    if s == [] || InOrder(key(x), key(s[0]), desc) {
      forall j | 0 < j < |s| ensures InOrder(key(x), key(s[j]), desc) {
        InOrderTransitive(key(x), key(s[0]), key(s[j]), desc);
      }
      ConsSorted(x, s, key, desc);
    } else {
      var t := Insert(x, s[1..], key, desc);
      InsertSorted(x, s[1..], key, desc);
      InsertMultiset(x, s[1..], key, desc);
      InOrderTotal(key(x), key(s[0]), desc);
      forall j | 0 <= j < |t| ensures InOrder(key(s[0]), key(t[j]), desc) {
        assert t[j] in multiset([x] + s[1..]);
        if t[j] != x {
          assert t[j] in s[1..];
          var m :| 0 <= m < |s[1..]| && s[1..][m] == t[j];
          assert s[m + 1] == t[j];
        }
      }
      ConsSorted(s[0], t, key, desc);
    }
  }

  /** An element that may precede every element of a sorted sequence keeps
      it sorted in front. */
  lemma ConsSorted<T>(x: T, s: seq<T>, key: T -> SortKey, desc: bool)
    requires Sorted(s, key, desc)
    requires forall j | 0 <= j < |s| :: InOrder(key(x), key(s[j]), desc)
    ensures Sorted([x] + s, key, desc)
  {
    var r := [x] + s;
    forall i, j | 0 <= i < j < |r| ensures InOrder(key(r[i]), key(r[j]), desc) {
      if i > 0 {
        assert r[i] == s[i - 1] && r[j] == s[j - 1];
      } else {
        assert r[j] == s[j - 1];
      }
    }
  }

  lemma {:induction false} InsertWithKey<T>(x: T, s: seq<T>, key: T -> SortKey, desc: bool, k: SortKey)
    ensures WithKey(Insert(x, s, key, desc), key, k)
         == (if key(x) == k then [x] else []) + WithKey(s, key, k)
  {
    var r := Insert(x, s, key, desc);
    if s == [] || InOrder(key(x), key(s[0]), desc) {
      assert r[0] == x && r[1..] == s;
    } else {
      InsertWithKey(x, s[1..], key, desc, k);
      assert r[0] == s[0] && r[1..] == Insert(x, s[1..], key, desc);
      if key(s[0]) == k && key(x) == k {
        KeyLessIrreflexive(k);
      }
    }
  }

  /** The sort orders the whole list by key. */
  lemma {:induction false} SortBySorted<T>(s: seq<T>, key: T -> SortKey, desc: bool)
    ensures Sorted(SortBy(s, key, desc), key, desc)
  {
    if s != [] {
      SortBySorted(s[1..], key, desc);
      InsertSorted(s[0], SortBy(s[1..], key, desc), key, desc);
    }
  }

  /** The sort only rearranges its input. */
  lemma {:induction false} SortByPermutation<T>(s: seq<T>, key: T -> SortKey, desc: bool)
    ensures multiset(SortBy(s, key, desc)) == multiset(s)
  {
    if s != [] {
      SortByPermutation(s[1..], key, desc);
      InsertMultiset(s[0], SortBy(s[1..], key, desc), key, desc);
      assert s == [s[0]] + s[1..];
    }
  }

  /** Stability: elements with equal keys keep their input order, also with
      `reverse=True`. */
  lemma {:induction false} SortByStable<T>(s: seq<T>, key: T -> SortKey, desc: bool, k: SortKey)
    ensures WithKey(SortBy(s, key, desc), key, k) == WithKey(s, key, k)
  {
    if s != [] {
      SortByStable(s[1..], key, desc, k);
      InsertWithKey(s[0], SortBy(s[1..], key, desc), key, desc, k);
    }
  }

  lemma {:induction false} WithKeyMember<T>(s: seq<T>, key: T -> SortKey, m: nat)
    requires m < |s|
    ensures s[m] in WithKey(s, key, key(s[m]))
  {
    if m > 0 {
      WithKeyMember(s[1..], key, m - 1);
    }
  }

  lemma {:induction false} WithKeyOnly<T>(s: seq<T>, key: T -> SortKey, k: SortKey, y: T)
    requires y in WithKey(s, key, k)
    ensures key(y) == k && exists m :: 0 <= m < |s| && s[m] == y
  {
    if s != [] && !(key(s[0]) == k && y == s[0]) {
      WithKeyOnly(s[1..], key, k, y);
      var m :| 0 <= m < |s[1..]| && s[1..][m] == y;
      assert s[m + 1] == y;
    }
  }

  /** A stable sort has exactly one possible result: any list that is sorted
      by `key` and keeps the input order within every key is `SortBy(s)`. So
      `SortBy` is what Python's own (stable) sort returns. */
  lemma {:induction false} StableSortUnique<T>(r: seq<T>, t: seq<T>, key: T -> SortKey, desc: bool)
    requires Sorted(r, key, desc) && Sorted(t, key, desc)
    requires forall k :: WithKey(r, key, k) == WithKey(t, key, k)
    ensures r == t
  {
    if r == [] || t == [] {
      if r != [] {
        WithKeyMember(r, key, 0);
      } else if t != [] {
        WithKeyMember(t, key, 0);
      }
    } else {
      var k0, k1 := key(r[0]), key(t[0]);
      WithKeyMember(t, key, 0);
      assert t[0] in WithKey(r, key, k1);
      WithKeyOnly(r, key, k1, t[0]);
      var m :| 0 <= m < |r| && r[m] == t[0];
      KeyLessIrreflexive(k0);
      assert InOrder(k0, k1, desc);
      WithKeyMember(r, key, 0);
      assert r[0] in WithKey(t, key, k0);
      WithKeyOnly(t, key, k0, r[0]);
      var n :| 0 <= n < |t| && t[n] == r[0];
      KeyLessIrreflexive(k1);
      assert InOrder(k1, k0, desc);
      KeyLessTotal(k0, k1);
      assert k0 == k1;
      assert WithKey(r, key, k0)[0] == r[0];
      assert WithKey(t, key, k0)[0] == t[0];
      forall k ensures WithKey(r[1..], key, k) == WithKey(t[1..], key, k) {
        var h := if k0 == k then [r[0]] else [];
        assert WithKey(r, key, k) == h + WithKey(r[1..], key, k);
        assert WithKey(t, key, k) == h + WithKey(t[1..], key, k);
        assert (h + WithKey(r[1..], key, k))[|h|..] == WithKey(r[1..], key, k);
        assert (h + WithKey(t[1..], key, k))[|h|..] == WithKey(t[1..], key, k);
      }
      StableSortUnique(r[1..], t[1..], key, desc);
      assert r == [r[0]] + r[1..] && t == [t[0]] + t[1..];
    }
  }

  /** Hence: a list is `sorted(s, key, reverse=desc)` exactly when it is sorted
      and stable with respect to `s`. */
  lemma SortByCharacterized<T>(s: seq<T>, r: seq<T>, key: T -> SortKey, desc: bool)
    ensures r == SortBy(s, key, desc) ==>
              Sorted(r, key, desc) && forall k :: WithKey(r, key, k) == WithKey(s, key, k)
    ensures Sorted(r, key, desc) && (forall k :: WithKey(r, key, k) == WithKey(s, key, k)) ==>
              r == SortBy(s, key, desc)
  {
    var t := SortBy(s, key, desc);
    SortBySorted(s, key, desc);
    forall k ensures WithKey(t, key, k) == WithKey(s, key, k) {
      SortByStable(s, key, desc, k);
    }
    if Sorted(r, key, desc) && forall k :: WithKey(r, key, k) == WithKey(s, key, k) {
      forall k ensures WithKey(r, key, k) == WithKey(t, key, k) {
        assert WithKey(r, key, k) == WithKey(s, key, k);
      }
      StableSortUnique(r, t, key, desc);
    }
  }
}
