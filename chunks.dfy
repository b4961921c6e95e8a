/** Cutting a text around the occurrences of a literal phrase: the leftmost,
    non-overlapping matches that `re.finditer(re.escape(p), t)` yields, and
    the text pieces between them that `re.split` with the escaped phrase
    returns. */
module Chunks {
  import opened Wrappers
  import opened Strings

  /** The leftmost occurrence of `p` in `t` at or after position `k`. */
  function FindFrom(t: string, p: string, k: nat): (r: Option<nat>)
    ensures r.Some? ==> k <= r.value && OccursAt(t, p, r.value)
    ensures r.Some? ==> forall j | k <= j < r.value :: !OccursAt(t, p, j)
    ensures r.None? ==> forall j | k <= j :: !OccursAt(t, p, j)
    decreases |t| - k
  {
    if k + |p| > |t| then None
    else if OccursAt(t, p, k) then Some(k)
    else FindFrom(t, p, k + 1)
  }

  /** The pieces of `t[k..]` between successive matches of `p`. */
  function SplitFrom(t: string, p: string, k: nat): (r: seq<string>)
    requires p != [] && k <= |t|
    ensures r != []
    decreases |t| - k
  {
    match FindFrom(t, p, k)
    case None => [t[k..]]
    case Some(i) => [t[k..i]] + SplitFrom(t, p, i + |p|)
  }

  /** The text pieces around the matches of `p` in `t`. */
  function SplitOn(t: string, p: string): seq<string>
    requires p != []
  {
    SplitFrom(t, p, 0)
  }

  /** The first piece of a text with a match, and the rest. */
  lemma SplitFromMatch(t: string, p: string, k: nat, i: nat)
    requires p != [] && k <= |t| && FindFrom(t, p, k) == Some(i)
    ensures i + |p| <= |t| && SplitFrom(t, p, k) == [t[k..i]] + SplitFrom(t, p, i + |p|)
  {
  }

  /** A text without a match is one piece. */
  lemma SplitFromRest(t: string, p: string, k: nat)
    requires p != [] && k <= |t| && FindFrom(t, p, k).None?
    ensures SplitFrom(t, p, k) == [t[k..]]
  {
  }

  /** Putting the phrase back between the pieces restores the text. */
  lemma {:induction false} SplitFromJoin(t: string, p: string, k: nat)
    requires p != [] && k <= |t|
    ensures Join(SplitFrom(t, p, k), p) == t[k..]
    decreases |t| - k
  {
    match FindFrom(t, p, k)
    case None =>
    case Some(i) =>
      var e := i + |p|;
      SplitFromJoin(t, p, e);
      JoinSplit([t[k..i]], SplitFrom(t, p, e), p);
      assert t[k..i] + t[i..e] == t[k..e];
      SliceJoin(t, k, e);
  }

  /** No piece contains the phrase. */
  lemma {:induction false} SplitFromFree(t: string, p: string, k: nat)
    requires p != [] && k <= |t|
    ensures forall c | c in SplitFrom(t, p, k) :: !Contains(c, p)
    decreases |t| - k
  {
    var f := FindFrom(t, p, k);
    var e := if f.Some? then f.value else |t|;
    forall j | 0 <= j <= (e - k) - |p| ensures !OccursAt(t[k..e], p, j) {
      SliceOfSlice(t, k, e, j, j + |p|);
      assert !OccursAt(t, p, k + j);
    }
    assert !Contains(t[k..e], p);
    if f.Some? {
      SplitFromFree(t, p, f.value + |p|);
    } else {
      assert t[k..e] == t[k..];
    }
  }

  lemma SliceOfSlice(t: string, k: nat, e: nat, a: nat, b: nat)
    requires k <= e <= |t| && a <= b <= e - k
    ensures t[k..e][a..b] == t[k + a..k + b]
  {
    assert |t[k..e][a..b]| == b - a == |t[k + a..k + b]|;
    forall x | 0 <= x < b - a ensures t[k..e][a..b][x] == t[k + a..k + b][x] {
      assert t[k..e][a..b][x] == t[k..e][a + x] == t[k + a + x];
    }
  }

  /** There are at least two pieces exactly when the phrase occurs. */
  lemma SplitOnCount(t: string, p: string)
    requires p != []
    ensures |SplitOn(t, p)| >= 2 <==> Contains(t, p)
  {
    var f := FindFrom(t, p, 0);
    if Contains(t, p) {
      var i :| 0 <= i <= |t| - |p| && OccursAt(t, p, i);
      assert f.Some?;
    }
    if f.Some? {
      assert OccursAt(t, p, f.value);
    }
  }

  /** The pieces together are the text minus one copy of the phrase per
      match. */
  lemma {:induction false} SplitFromLength(t: string, p: string, k: nat)
    requires p != [] && k <= |t|
    ensures SumLen(SplitFrom(t, p, k)) + (|SplitFrom(t, p, k)| - 1) * |p| == |t| - k
    decreases |t| - k
  {
    match FindFrom(t, p, k)
    case None =>
    case Some(i) =>
      var rest := SplitFrom(t, p, i + |p|);
      SplitFromLength(t, p, i + |p|);
      SumLenAppend([t[k..i]], rest);
      assert SumLen([t[k..i]]) == i - k by { assert [t[k..i]][..0] == []; }
      assert |rest| * |p| == (|rest| - 1) * |p| + |p|;
  }

  /** Total length of the pieces. */
  function SumLen(cs: seq<string>): nat {
    if cs == [] then 0 else SumLen(cs[..|cs| - 1]) + |cs[|cs| - 1]|
  }

  lemma {:induction false} SumLenAppend(a: seq<string>, b: seq<string>)
    ensures SumLen(a + b) == SumLen(a) + SumLen(b)
    decreases |b|
  {
    if b != [] {
      var n := |b| - 1;
      SumLenAppend(a, b[..n]);
      assert (a + b)[..|a + b| - 1] == a + b[..n];
    } else {
      assert a + b == a;
    }
  }

  /** Joining pieces adds one separator between each two. */
  lemma {:induction false} JoinLength(cs: seq<string>, sep: string)
    requires cs != []
    ensures |Join(cs, sep)| == SumLen(cs) + (|cs| - 1) * |sep|
  {
    if |cs| == 1 {
      assert cs[..0] == [];
    } else {
      JoinLength(cs[..|cs| - 1], sep);
    }
  }

  lemma {:induction false} SumLenReverse(cs: seq<string>)
    ensures SumLen(Reverse(cs)) == SumLen(cs)
  {
    if cs != [] {
      var n := |cs| - 1;
      SumLenReverse(cs[..n]);
      SumLenAppend([cs[n]], Reverse(cs[..n]));
      assert [cs[n]][..0] == [];
    }
  }
}
