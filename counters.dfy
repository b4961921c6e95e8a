/** `collections.Counter` as the search engine uses it: `c[k] += 1` in a loop,
    then `c.most_common()`. A counter is its list of (key, count) entries in
    the order the keys were first counted, which is the order a Python dict
    keeps and the order `most_common` falls back on for equal counts. */
module Counters {
  import opened Sorting

  type Counter<K> = seq<(K, nat)>

  predicate DistinctKeys<K(==)>(c: Counter<K>) {
    forall i, j | 0 <= i < j < |c| :: c[i].0 != c[j].0
  }

  function Keys<K(==)>(c: Counter<K>): set<K> {
    set e | e in c :: e.0
  }

  /** Position of `k` among the entries, or `|c|` when `k` was never counted. */
  function IndexOf<K(==)>(c: Counter<K>, k: K): (i: nat)
    ensures i <= |c|
    ensures i < |c| ==> c[i].0 == k
    ensures forall j | 0 <= j < i :: c[j].0 != k
  {
    if c == [] then 0 else if c[0].0 == k then 0 else 1 + IndexOf(c[1..], k)
  }

  /** `IndexOf` is the first position holding `k`. */
  lemma IndexOfUnique<K>(c: Counter<K>, k: K, i: nat)
    requires i <= |c| && (i < |c| ==> c[i].0 == k)
    requires forall j | 0 <= j < i :: c[j].0 != k
    ensures IndexOf(c, k) == i
  {
  }

  /** `c[k]`, which is 0 for a key never counted. */
  function Count<K(==)>(c: Counter<K>, k: K): nat {
    var i := IndexOf(c, k);
    if i < |c| then c[i].1 else 0
  }

  /** `c[k] += 1`: the count of `k` grows by one, every other count stays, an
      existing key keeps its place and a new key goes last with count 1. */
  function Increment<K(==)>(c: Counter<K>, k: K): (r: Counter<K>)
    requires DistinctKeys(c)
    ensures DistinctKeys(r)
    ensures Keys(r) == Keys(c) + {k}
    ensures |r| == if k in Keys(c) then |c| else |c| + 1
    ensures forall i | 0 <= i < |c| :: r[i].0 == c[i].0
    ensures k !in Keys(c) ==> r[|c|] == (k, 1)
    ensures (forall e | e in c :: e.1 > 0) ==> forall e | e in r :: e.1 > 0
  {
    var i := IndexOf(c, k);
    if i == |c| then
      assert k !in Keys(c);
      c + [(k, 1)]
    else
      assert c[i] in c;
      var r := c[i := (k, c[i].1 + 1)];
      assert forall e | e in r :: e in c || e == r[i];
      assert Keys(r) == Keys(c) by {
        forall x | x in Keys(r) ensures x in Keys(c) {
          var e :| e in r && e.0 == x;
          if e != r[i] { assert e in c; }
        }
        forall x | x in Keys(c) ensures x in Keys(r) {
          var e :| e in c && e.0 == x;
          var m :| 0 <= m < |c| && c[m] == e;
          assert r[m] in r;
        }
      }
      r
  }

  lemma IncrementCount<K>(c: Counter<K>, k: K, k': K)
    requires DistinctKeys(c)
    ensures Count(Increment(c, k), k') == Count(c, k') + (if k' == k then 1 else 0)
  {
    var r := Increment(c, k);
    var i, j := IndexOf(c, k), IndexOf(c, k');
    if i == |c| {
      assert r == c + [(k, 1)];
      if k' == k { IndexOfUnique(r, k', j); } else { IndexOfUnique(r, k', if j < |c| then j else |r|); }
    } else {
      assert r == c[i := (k, c[i].1 + 1)];
      IndexOfUnique(r, k', j);
    }
  }

  /** The counter after `for k in ks: c[k] += 1`, starting empty. */
  function Tally<K(==)>(ks: seq<K>): (c: Counter<K>)
    ensures DistinctKeys(c)
  {
    if ks == [] then [] else Increment(Tally(ks[..|ks| - 1]), ks[|ks| - 1])
  }

  /** Counting one more value. */
  lemma TallySnoc<K>(ks: seq<K>, k: K)
    ensures Tally(ks + [k]) == Increment(Tally(ks), k)
  {
    assert (ks + [k])[..|ks|] == ks;
  }

  /** Every count is the number of times its key was counted; the keys are
      exactly the counted values; no entry holds a zero count. */
  lemma TallyCount<K>(ks: seq<K>, k: K)
    ensures Count(Tally(ks), k) == multiset(ks)[k]
    ensures Keys(Tally(ks)) == set x | x in ks
    ensures forall e | e in Tally(ks) :: e.1 > 0
  {
    TallyCountOf(ks, k);
    TallyKeys(ks);
    TallyPositive(ks);
  }

  lemma {:induction false} TallyCountOf<K>(ks: seq<K>, k: K)
    ensures Count(Tally(ks), k) == multiset(ks)[k]
  {
    if ks != [] {
      var init, x := ks[..|ks| - 1], ks[|ks| - 1];
      assert ks == init + [x];
      assert multiset(ks)[k] == multiset(init)[k] + (if x == k then 1 else 0);
      TallyCountOf(init, k);
      IncrementCount(Tally(init), x, k);
    }
  }

  lemma {:induction false} TallyKeys<K>(ks: seq<K>)
    ensures Keys(Tally(ks)) == set x | x in ks
  {
    if ks != [] {
      var init := ks[..|ks| - 1];
      TallyKeys(init);
      assert ks == init + [ks[|ks| - 1]];
    }
  }

  lemma {:induction false} TallyPositive<K>(ks: seq<K>)
    ensures forall e | e in Tally(ks) :: e.1 > 0
  {
    if ks != [] {
      TallyPositive(ks[..|ks| - 1]);
    }
  }

  /** Index of the first occurrence of `k` in `ks`. */
  function FirstIndex<K(==)>(ks: seq<K>, k: K): (i: nat)
    requires k in ks
    ensures i < |ks| && ks[i] == k && k !in ks[..i]
  {
    if ks[0] == k then 0 else 1 + FirstIndex(ks[1..], k)
  }

  lemma FirstIndexExtend<K>(ks: seq<K>, x: K, k: K)
    requires k in ks
    ensures FirstIndex(ks + [x], k) == FirstIndex(ks, k)
  {
    var i := FirstIndex(ks, k);
    assert (ks + [x])[i] == k;
    assert (ks + [x])[..i] == ks[..i];
  }

  /** Entries stand in the order their keys were first counted. */
  lemma {:induction false} TallyFirstSeen<K>(ks: seq<K>, i: nat, j: nat)
    requires i < j < |Tally(ks)|
    ensures Tally(ks)[i].0 in ks && Tally(ks)[j].0 in ks
    ensures FirstIndex(ks, Tally(ks)[i].0) < FirstIndex(ks, Tally(ks)[j].0)
  {
    var init, x := ks[..|ks| - 1], ks[|ks| - 1];
    var c := Tally(init);
    var r := Tally(ks);
    assert r == Increment(c, x);
    assert ks == init + [x];
    TallyKeys(init);
    assert c[i] in c;
    if j < |c| {
      TallyFirstSeen(init, i, j);
      assert r[i].0 == c[i].0 && r[j].0 == c[j].0;
      FirstIndexExtend(init, x, c[i].0);
      FirstIndexExtend(init, x, c[j].0);
    } else {
      assert x !in Keys(c) && r[j] == (x, 1);
      assert r[i].0 == c[i].0 && c[i].0 in Keys(c);
      NewKeyFirstSeen(init, x, c[i].0);
    }
  }

  /** A key counted before a new one was first seen earlier. */
  lemma NewKeyFirstSeen<K>(init: seq<K>, x: K, k: K)
    requires k in init && x !in init
    ensures k in init + [x] && x in init + [x]
    ensures FirstIndex(init + [x], k) < FirstIndex(init + [x], x)
  {
    FirstIndexExtend(init, x, k);
    assert (init + [x])[|init|] == x;
  }

  /** Sum of the counts whose key satisfies `p`. */
  function Total<K>(c: Counter<K>, p: K -> bool): nat {
    if c == [] then 0 else Total(c[..|c| - 1], p) + (if p(c[|c| - 1].0) then c[|c| - 1].1 else 0)
  }

  /** Number of elements of `ks` satisfying `p`. */
  function CountWhere<K>(ks: seq<K>, p: K -> bool): nat {
    if ks == [] then 0 else CountWhere(ks[..|ks| - 1], p) + (if p(ks[|ks| - 1]) then 1 else 0)
  }

  lemma {:induction false} TotalUpdate<K>(c: Counter<K>, i: nat, e: (K, nat), p: K -> bool)
    requires i < |c| && e.0 == c[i].0
    ensures Total(c[i := e], p) + (if p(e.0) then c[i].1 else 0) == Total(c, p) + (if p(e.0) then e.1 else 0)
  {
    var n := |c| - 1;
    if i < n {
      TotalUpdate(c[..n], i, e, p);
      assert c[i := e][..n] == c[..n][i := e];
    } else {
      assert c[i := e][..n] == c[..n];
    }
  }

  lemma IncrementTotal<K>(c: Counter<K>, k: K, p: K -> bool)
    requires DistinctKeys(c)
    ensures Total(Increment(c, k), p) == Total(c, p) + (if p(k) then 1 else 0)
  {
    var i := IndexOf(c, k);
    var r := Increment(c, k);
    if i == |c| {
      assert r[..|c|] == c;
    } else {
      TotalUpdate(c, i, (k, c[i].1 + 1), p);
    }
  }

  /** Summing the counts of the keys in any class gives the number of counted
      values in that class. */
  lemma {:induction false} TallyTotal<K>(ks: seq<K>, p: K -> bool)
    ensures Total(Tally(ks), p) == CountWhere(ks, p)
  {
    if ks != [] {
      TallyTotal(ks[..|ks| - 1], p);
      IncrementTotal(Tally(ks[..|ks| - 1]), ks[|ks| - 1], p);
    }
  }

  function CountKey<K(==)>(e: (K, nat)): SortKey {
    IntKey(e.1)
  }

  /** `c.most_common()`: `sorted(c.items(), key=count, reverse=True)`. */
  function MostCommon<K(==)>(c: Counter<K>): seq<(K, nat)> {
    SortBy(c, CountKey, true)
  }

  /** `most_common` lists the same entries, by count descending, and entries
      with equal counts in the order their keys were first counted. */
  lemma MostCommonOrder<K>(c: Counter<K>)
    ensures multiset(MostCommon(c)) == multiset(c)
    ensures forall i, j | 0 <= i < j < |MostCommon(c)| :: MostCommon(c)[i].1 >= MostCommon(c)[j].1
    ensures forall n: nat :: WithKey(MostCommon(c), CountKey, IntKey(n)) == WithKey(c, CountKey, IntKey(n))
  {
    SortBySorted(c, CountKey, true);
    SortByPermutation(c, CountKey, true);
    forall n: nat ensures WithKey(MostCommon(c), CountKey, IntKey(n)) == WithKey(c, CountKey, IntKey(n)) {
      SortByStable(c, CountKey, true, IntKey(n));
    }
    var r := MostCommon(c);
    forall i, j | 0 <= i < j < |r| ensures r[i].1 >= r[j].1 {
      assert InOrder(CountKey(r[i]), CountKey(r[j]), true);
    }
  }

  /** A counter entry whose key is in the class contributes its count. */
  lemma {:induction false} TotalPositive<K>(c: Counter<K>, e: (K, nat), p: K -> bool)
    requires e in c && p(e.0)
    ensures Total(c, p) >= e.1
  {
    var n := |c| - 1;
    if c[n] != e {
      assert e in c[..n] by {
        var j :| 0 <= j < |c| && c[j] == e;
        assert c[..n][j] == e;
      }
      TotalPositive(c[..n], e, p);
    }
  }

  /** An entry `most_common` lists over a tally is a counted entry, with a
      positive count. */
  lemma MostCommonEntry<K>(ks: seq<K>, i: nat)
    requires i < |MostCommon(Tally(ks))|
    ensures MostCommon(Tally(ks))[i] in Tally(ks) && MostCommon(Tally(ks))[i].1 > 0
  {
    var c := Tally(ks);
    SortByPermutation(c, CountKey, true);
    assert MostCommon(c)[i] in multiset(MostCommon(c));
    TallyPositive(ks);
  }
}
