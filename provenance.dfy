/** Provenance: where a result came from. A search records, per result key,
    the list of (sentence, source) pairs it was found in (a `defaultdict(list)`
    that is appended to); clicking a result shows that list as a set, sorted
    by `(source is None, source, sentence)`. Sources are always strings here,
    so the first component of that key is always `False`. */
module Provenance {
  import opened Strings

  /** `(original_sentence, book_path_or_name)` */
  type SourceRef = (string, string)

  /** `d.get(k, [])` on a `defaultdict(list)` */
  function Get<K, V>(m: map<K, seq<V>>, k: K): seq<V> {
    if k in m then m[k] else []
  }

  /** `d[k].append(v)` */
  function Add<K(!new), V>(m: map<K, seq<V>>, k: K, v: V): (r: map<K, seq<V>>)
    ensures r.Keys == m.Keys + {k}
    ensures Get(r, k) == Get(m, k) + [v]
    ensures forall k' | k' != k :: Get(r, k') == Get(m, k')
  {
    m[k := Get(m, k) + [v]]
  }

  /** The tuple order on `(source, sentence)`. */
  predicate RefLess(a: SourceRef, b: SourceRef) {
    StrLess(a.1, b.1) || (a.1 == b.1 && StrLess(a.0, b.0))
  }

  lemma RefLessIrreflexive(a: SourceRef)
    ensures !RefLess(a, a)
  {
    StrLessIrreflexive(a.0);
    StrLessIrreflexive(a.1);
  }

  lemma RefLessTransitive(a: SourceRef, b: SourceRef, c: SourceRef)
    requires RefLess(a, b) && RefLess(b, c)
    ensures RefLess(a, c)
  {
    StrLessIrreflexive(a.1);
    StrLessIrreflexive(b.1);
    if StrLess(a.1, b.1) && StrLess(b.1, c.1) {
      StrLessTransitive(a.1, b.1, c.1);
    } else if a.1 == b.1 && b.1 == c.1 {
      StrLessTransitive(a.0, b.0, c.0);
    }
  }

  lemma RefLessTotal(a: SourceRef, b: SourceRef)
    ensures a == b || RefLess(a, b) || RefLess(b, a)
  {
    StrLessTotal(a.1, b.1);
    StrLessTotal(a.0, b.0);
  }

  /** Ascending without repeats. */
  predicate StrictlySorted(s: seq<SourceRef>) {
    forall i, j | 0 <= i < j < |s| :: RefLess(s[i], s[j])
  }

  /** Put `x` into a strictly sorted list unless it is there already. */
  function InsertRef(x: SourceRef, s: seq<SourceRef>): seq<SourceRef> {
    if s == [] then [x]
    else if x == s[0] then s
    else if RefLess(x, s[0]) then [x] + s
    else [s[0]] + InsertRef(x, s[1..])
  }

  /** `sorted(set(refs), key=lambda x: (x[1] is None, x[1], x[0]))` */
  function SortSources(refs: seq<SourceRef>): seq<SourceRef> {
    if refs == [] then [] else InsertRef(refs[|refs| - 1], SortSources(refs[..|refs| - 1]))
  }

  lemma {:induction false} InsertRefSpec(x: SourceRef, s: seq<SourceRef>)
    requires StrictlySorted(s)
    ensures StrictlySorted(InsertRef(x, s))
    ensures forall y :: y in InsertRef(x, s) <==> y == x || y in s
  {
    if s != [] && x != s[0] && !RefLess(x, s[0]) {
      var t := s[1..];
      InsertRefSpec(x, t);
      RefLessTotal(x, s[0]);
      var r := InsertRef(x, t);
      forall j | 0 <= j < |r| ensures RefLess(s[0], r[j]) {
        if r[j] != x {
          assert r[j] in r;
          var m :| 0 <= m < |t| && t[m] == r[j];
          assert s[m + 1] == t[m];
        }
      }
    } else if s != [] && RefLess(x, s[0]) {
      forall j | 1 <= j < |s| ensures RefLess(x, s[j]) {
        RefLessTransitive(x, s[0], s[j]);
      }
    }
  }

  /** The shown list holds each recorded source exactly once, ascending. */
  lemma {:induction false} SortSourcesSpec(refs: seq<SourceRef>)
    ensures StrictlySorted(SortSources(refs))
    ensures forall y :: y in SortSources(refs) <==> y in refs
  {
    if refs != [] {
      var init := refs[..|refs| - 1];
      SortSourcesSpec(init);
      InsertRefSpec(refs[|refs| - 1], SortSources(init));
      assert refs == init + [refs[|refs| - 1]];
    }
  }

  /** A strictly sorted list is fixed by its elements. */
  lemma {:induction false} StrictlySortedUnique(a: seq<SourceRef>, b: seq<SourceRef>)
    requires StrictlySorted(a) && StrictlySorted(b)
    requires forall y :: y in a <==> y in b
    ensures a == b
  {
    if a != [] { assert a[0] in b; }
    if b != [] { assert b[0] in a; }
    if a != [] && b != [] {
      assert a[0] in b && b[0] in a;
      var i :| 0 <= i < |b| && b[i] == a[0];
      var j :| 0 <= j < |a| && a[j] == b[0];
      if i > 0 && j > 0 {
        RefLessTransitive(a[0], a[j], a[0]);
        RefLessIrreflexive(a[0]);
      } else if i > 0 {
        RefLessIrreflexive(b[0]);
      } else if j > 0 {
        RefLessIrreflexive(a[0]);
      }
      assert a[0] == b[0];
      forall y ensures y in a[1..] <==> y in b[1..] {
        if y in a[1..] {
          var m :| 1 <= m < |a| && a[m] == y;
          RefLessIrreflexive(a[0]);
          assert y in a && y in b;
          var k :| 0 <= k < |b| && b[k] == y;
          assert b[1..][k - 1] == y;
        }
        if y in b[1..] {
          var m :| 1 <= m < |b| && b[m] == y;
          RefLessIrreflexive(b[0]);
          assert y in b && y in a;
          var k :| 0 <= k < |a| && a[k] == y;
          assert a[1..][k - 1] == y;
        }
      }
      StrictlySortedUnique(a[1..], b[1..]);
      assert a == [a[0]] + a[1..] && b == [b[0]] + b[1..];
    }
  }

  /** The order in which sources were recorded, and repeats, do not matter. */
  lemma SortSourcesCanonical(refs: seq<SourceRef>, other: seq<SourceRef>)
    requires forall y :: y in refs <==> y in other
    ensures SortSources(refs) == SortSources(other)
  {
    SortSourcesSpec(refs);
    SortSourcesSpec(other);
    StrictlySortedUnique(SortSources(refs), SortSources(other));
  }
}
